/** What the loader does with a file that mtfw.py wrote. */
module HbppRoundTrip {
  import opened Bytes
  import opened Z2Writer
  import opened HbppLoader

  // ---- the packets a list of steps stands for ---------------------------------------------------

  function StepPackets(s: LoadStep, cal: Option<seq<byte>>): seq<Packet> {
    match s
    case Binary(a, p) => Pieces(a, p, 0)
    case Property(a) => if cal.Some? then Pieces(a, cal.value, 0) else []
    case RequestCalibration => [Packet(CMD_CALIBRATE, ToLE(CMD_CALIBRATE, 2))]
    case ReadModifyWrite(a, m, v) => [Packet(CMD_REGISTER, RegisterBlob(a, m, v))]
    case Config => []
    case Other => []
  }

  function Expected(steps: seq<LoadStep>, cal: Option<seq<byte>>): seq<Packet> {
    if steps == [] then [] else StepPackets(steps[0], cal) + Expected(steps[1..], cal)
  }

  // ---- reading back what was written ------------------------------------------------------------

  lemma U32At(fw: seq<byte>, off: nat, n: nat, post: seq<byte>)
    requires Rest(fw, off, ToLE(n, 4) + post) && Fits32(n)
    ensures off + 4 <= |fw| && U32le(fw, off) == n && Rest(fw, off + 4, post)
  {
    RestSkips(fw, off, ToLE(n, 4), post);
    assert Pow256(4) == 0x1_0000_0000;
    LERoundTrip(n, 4);
  }

  lemma U16At(b: seq<byte>, n: nat)
    requires |b| >= 2 && n < 0x1_0000 && b[..2] == ToLE(n, 2)
    ensures U16le(b, 0) == n
  {
    assert b[0..2] == b[..2];
    assert Pow256(2) == 0x1_0000;
    LERoundTrip(n, 2);
  }

  /** The two words of a record and where its parts are. */
  lemma BlobRecordAt(fw: seq<byte>, off: nat, b: seq<byte>, tail: seq<byte>)
    requires Rest(fw, off, BlobRecord(b) + tail) && off % 4 == 0 && Fits32(|b|)
    ensures off + 8 + |b| <= |fw| && U32le(fw, off) == SEND_BLOB && U32le(fw, off + 4) == |b|
    ensures fw[off + 8..off + 8 + |b|] == b
    ensures Rest(fw, CommandEnd(off + 8, SEND_BLOB, |b|), tail) && CommandEnd(off + 8, SEND_BLOB, |b|) % 4 == 0
  {
    hide Rest, BlobRecord, Padding, Align4, ToLE, U32le, CommandEnd;
    var pad := Repeat<byte>(0, Padding(|b|, 4));
    RecordParts(b, tail);
    assert Fits32(SEND_BLOB);
    U32At(fw, off, SEND_BLOB, ToLE(|b|, 4) + (b + (pad + tail)));
    U32At(fw, off + 4, |b|, b + (pad + tail));
    RestSkips(fw, off + 8, b, pad + tail);
    RestSkips(fw, off + 8 + |b|, pad, tail);
    RecordEnd(off, |b|);
  }

  lemma RecordParts(b: seq<byte>, tail: seq<byte>)
    ensures BlobRecord(b) + tail
            == ToLE(SEND_BLOB, 4) + (ToLE(|b|, 4) + (b + (Repeat<byte>(0, Padding(|b|, 4)) + tail)))
  {
    hide ToLE, Padding;
    var pad := Repeat<byte>(0, Padding(|b|, 4));
    assert BlobRecord(b) == ToLE(SEND_BLOB, 4) + ToLE(|b|, 4) + (b + pad);
    Reassociate(ToLE(SEND_BLOB, 4), ToLE(|b|, 4), b, pad, tail);
  }

  lemma Reassociate(a: seq<byte>, b: seq<byte>, c: seq<byte>, d: seq<byte>, e: seq<byte>)
    ensures a + b + (c + d) + e == a + (b + (c + (d + e)))
  {
  }

  lemma RecordEnd(off: nat, n: nat)
    requires off % 4 == 0
    ensures CommandEnd(off + 8, SEND_BLOB, n) == off + 8 + n + Padding(n, 4)
    ensures CommandEnd(off + 8, SEND_BLOB, n) % 4 == 0
  {
    PaddingAligns(n);
    AlignShifts(off + 8, n);
  }

  lemma DataBlobParts(a: nat, payload: seq<byte>)
    requires Fits32(a)
    ensures var b := DataBlob(a, payload);
            U16le(b, 0) == CMD_DATA && U32le(b, 4) == a && b[10..|b| - 4] == payload
    ensures (|payload| + 3) / 4 < 0x1_0000 ==> U16le(DataBlob(a, payload), 2) == (|payload| + 3) / 4
  {
    var b, h, words := DataBlob(a, payload), DataHeader(a, |payload|), (|payload| + 3) / 4;
    assert b[..8] == h && h[..2] == ToLE(CMD_DATA, 2) && h[2..4] == ToLE(words, 2) && h[4..8] == ToLE(a, 4);
    assert b[..2] == b[..8][..2] && b[2..4] == b[..8][2..4] && b[4..8] == b[..8][4..8];
    U16At(b, CMD_DATA);
    assert Pow256(4) == 0x1_0000_0000 && Pow256(2) == 0x1_0000;
    if words < 0x1_0000 { LERoundTrip(words, 2); }
    LERoundTrip(a, 4);
  }

  lemma RegisterBlobWord(a: nat, m: nat, v: nat)
    ensures U16le(RegisterBlob(a, m, v), 0) == CMD_REGISTER
  {
    var b := RegisterBlob(a, m, v);
    assert b[..2] == ToLE(CMD_REGISTER, 2);
    U16At(b, CMD_REGISTER);
  }

  lemma CalibrateWord()
    ensures U16le(ToLE(CMD_CALIBRATE, 2), 0) == CMD_CALIBRATE
  {
    var b := ToLE(CMD_CALIBRATE, 2);
    assert b[..2] == b;
    U16At(b, CMD_CALIBRATE);
  }

  lemma WordInside(fw: seq<byte>, at: nat, b: seq<byte>, beyond: nat)
    requires |b| >= 2 && at + |b| <= |fw| && fw[at..at + |b|] == b
    ensures WordAt(fw, at, beyond) == U16le(b, 0)
  {
    assert fw[at..at + 2] == fw[at..at + |b|][..2] == b[0..2];
  }

  /** One written blob is one load command with that blob's packets. */
  lemma BlobCommand(fw: seq<byte>, off: nat, b: seq<byte>, tail: seq<byte>, ps: seq<Packet>, cal: Option<seq<byte>>,
        beyond: nat)
    requires Rest(fw, off, BlobRecord(b) + tail) && off % 4 == 0 && 2 <= |b| && Fits32(|b|)
    requires ps == if |b| >= 14 && U16le(b, 0) == CMD_DATA then BlobPieces(b) else [Packet(U16le(b, 0), b)]
    ensures var next := CommandEnd(off + 8, SEND_BLOB, |b|);
            Rest(fw, next, tail) && next % 4 == 0 &&
            PlanFrom(fw, off, cal, beyond) == Prepend(ps, PlanFrom(fw, next, cal, beyond))
  {
    BlobRecordAt(fw, off, b, tail);
    WordInside(fw, off + 8, b, beyond);
    hide Rest, BlobRecord, BlobPieces, CommandEnd;
    assert KnownCommand(fw, off + 8, SEND_BLOB, |b|);
    assert CommandPackets(fw, off + 8, SEND_BLOB, |b|, cal, beyond) == ps;
  }

  lemma AlignedStays(n: nat)
    requires n % 4 == 0
    ensures Align4(n) == n
  {
  }

  lemma CalibrationCommand(fw: seq<byte>, off: nat, a: nat, tail: seq<byte>, cal: Option<seq<byte>>, beyond: nat)
    requires Rest(fw, off, ToLE(SEND_CALIBRATION, 4) + ToLE(a, 4) + tail) && off % 4 == 0 && Fits32(a)
    ensures Rest(fw, off + 8, tail)
    ensures PlanFrom(fw, off, cal, beyond)
            == Prepend(StepPackets(Property(a), cal), PlanFrom(fw, off + 8, cal, beyond))
  {
    assert ToLE(SEND_CALIBRATION, 4) + ToLE(a, 4) + tail == ToLE(SEND_CALIBRATION, 4) + (ToLE(a, 4) + tail);
    hide Rest, ToLE, U32le, Align4;
    assert Fits32(SEND_CALIBRATION);
    U32At(fw, off, SEND_CALIBRATION, ToLE(a, 4) + tail);
    U32At(fw, off + 4, a, tail);
    AlignedStays(off + 8);
    assert CommandEnd(off + 8, SEND_CALIBRATION, a) == off + 8;
  }

  lemma StepCommand(fw: seq<byte>, off: nat, s: LoadStep, tail: seq<byte>, cal: Option<seq<byte>>, beyond: nat)
    returns (next: nat)
    requires Encodable(s) && !s.Other? && Rest(fw, off, StepRecord(s) + tail) && off % 4 == 0
    ensures Rest(fw, next, tail) && next % 4 == 0
    ensures PlanFrom(fw, off, cal, beyond) == Prepend(StepPackets(s, cal), PlanFrom(fw, next, cal, beyond))
  {
    hide Rest, PlanFrom, BlobRecord;
    match s {
      case Binary(a, p) =>
        var b := DataBlob(a, p);
        DataBlobParts(a, p);
        BlobCommand(fw, off, b, tail, Pieces(a, p, 0), cal, beyond);
        next := CommandEnd(off + 8, SEND_BLOB, |b|);
      case Property(a) =>
        CalibrationCommand(fw, off, a, tail, cal, beyond);
        next := off + 8;
      case RequestCalibration =>
        CalibrateWord();
        BlobCommand(fw, off, ToLE(CMD_CALIBRATE, 2), tail, StepPackets(s, cal), cal, beyond);
        next := CommandEnd(off + 8, SEND_BLOB, 2);
      case ReadModifyWrite(a, m, v) =>
        RegisterBlobWord(a, m, v);
        BlobCommand(fw, off, RegisterBlob(a, m, v), tail, StepPackets(s, cal), cal, beyond);
        next := CommandEnd(off + 8, SEND_BLOB, 16);
      case Config =>
        assert [] + tail == tail;
        next := off;
        PrependNothing(PlanFrom(fw, off, cal, beyond));
      case Other =>
    }
  }

  lemma PrependNothing(plan: Plan)
    ensures Prepend([], plan) == plan
  {
  }

  lemma {:induction false} RecordsPlan(fw: seq<byte>, off: nat, steps: seq<LoadStep>, cal: Option<seq<byte>>,
        beyond: nat)
    requires Records(steps).Ok? && Rest(fw, off, Records(steps).value) && off % 4 == 0
    ensures PlanFrom(fw, off, cal, beyond) == Plan(Expected(steps, cal), 0)
    decreases |steps|
  {
    if steps == [] {
      assert off + 8 > |fw|;
    } else {
      hide Rest, PlanFrom, StepRecord, StepPackets;
      var next := StepCommand(fw, off, steps[0], Records(steps[1..]).value, cal, beyond);
      RecordsPlan(fw, next, steps[1..], cal, beyond);
    }
  }

  lemma HeaderAt(fw: seq<byte>, recs: seq<byte>)
    requires fw == FileHeader() + recs
    ensures |fw| >= 8 && fw[..4] == MAGIC && U32le(fw, 4) == 1 && Rest(fw, 8, recs)
  {
    assert fw == MAGIC + (ToLE(1, 4) + recs);
    assert Rest(fw, 0, MAGIC + (ToLE(1, 4) + recs));
    hide Rest, ToLE, FileHeader;
    RestSkips(fw, 0, MAGIC, ToLE(1, 4) + recs);
    U32At(fw, 4, 1, recs);
  }

  /** The loader reads a built file as exactly the packets of its steps, in order. */
  lemma BuiltFilePlan(steps: seq<LoadStep>, cal: Option<seq<byte>>, beyond: nat)
    requires Records(steps).Ok?
    ensures FilePlan(FileHeader() + Records(steps).value, cal, beyond) == Plan(Expected(steps, cal), 0)
  {
    var recs := Records(steps).value;
    var fw := FileHeader() + recs;
    hide Records, PlanFrom, Expected, Rest;
    HeaderAt(fw, recs);
    RecordsPlan(fw, 8, steps, cal, beyond);
  }

  // ---- what the pieces of a payload carry -------------------------------------------------------

  function PieceAddress(p: Packet): nat
    requires |p.bytes| >= 14
  {
    U32le(p.bytes, 4)
  }

  function PiecePayload(p: Packet): seq<byte>
    requires |p.bytes| >= 14
  {
    p.bytes[10..|p.bytes| - 4]
  }

  /** A data packet of so many words at this address, with the sum of its header and that of its own payload. */
  predicate GoodPiece(p: Packet, address: nat) {
    && p.cmd == 0x3001 && 14 < |p.bytes| <= 14 + 0x3f0
    && U16le(p.bytes, 0) == 0x3001
    && U16le(p.bytes, 2) == (|p.bytes| - 14 + 3) / 4
    && PieceAddress(p) == address % 0x1_0000_0000
    && U16le(p.bytes, 8) == Sum(p.bytes[2..8])
    && U32le(p.bytes, |p.bytes| - 4) == Sum(PiecePayload(p))
  }

  predicate Contiguous(ps: seq<Packet>, address: nat)
    decreases |ps|
  {
    ps == [] || (GoodPiece(ps[0], address) && Contiguous(ps[1..], address + |PiecePayload(ps[0])|))
  }

  predicate AllPieces(ps: seq<Packet>) {
    forall p :: p in ps ==> |p.bytes| >= 14
  }

  function AllPayloads(ps: seq<Packet>): seq<byte>
    requires AllPieces(ps)
  {
    if ps == [] then [] else PiecePayload(ps[0]) + AllPayloads(ps[1..])
  }

  lemma {:induction false} SumBound(s: seq<byte>)
    ensures Sum(s) <= 255 * |s|
  {
    if s != [] { SumBound(s[1..]); }
  }

  lemma DataBlobSums(a: nat, payload: seq<byte>)
    requires 0 < |payload| <= CHUNK
    ensures var b := DataBlob(a, payload);
            U16le(b, 8) == Sum(b[2..8]) && U32le(b, |b| - 4) == Sum(payload)
  {
    hide DataBlob, DataHeader, ToLE, LE, Sum;
    var h := DataHeader(a, |payload|);
    SumBound(h[2..]);
    SumBound(payload);
    BlobTail(a, payload);
    assert Pow256(2) == 0x1_0000 && Pow256(4) == 0x1_0000_0000;
    LERoundTrip(Sum(h[2..]), 2);
    LERoundTrip(Sum(payload), 4);
  }

  lemma BlobTail(a: nat, payload: seq<byte>)
    ensures var b := DataBlob(a, payload);
            b[2..8] == DataHeader(a, |payload|)[2..] &&
            b[8..10] == ToLE(Sum(DataHeader(a, |payload|)[2..]) % 0x1_0000, 2) &&
            b[|b| - 4..|b| - 4 + 4] == ToLE(Sum(payload) % 0x1_0000_0000, 4)
  {
    hide Sum, ToLE, DataHeader;
  }

  lemma DataBlobIsGood(address: nat, payload: seq<byte>)
    requires 0 < |payload| <= CHUNK
    ensures GoodPiece(Packet(CMD_DATA, DataBlob(address % 0x1_0000_0000, payload)), address)
    ensures PiecePayload(Packet(CMD_DATA, DataBlob(address % 0x1_0000_0000, payload))) == payload
  {
    DataBlobParts(address % 0x1_0000_0000, payload);
    DataBlobSums(address % 0x1_0000_0000, payload);
    hide DataBlob, Sum, LE;
  }

  /** The first piece from off on. */
  function Piece(address: nat, payload: seq<byte>, off: nat): Packet
    requires off < |payload|
  {
    Packet(CMD_DATA, DataBlob((address + off) % 0x1_0000_0000, payload[off..off + Min(|payload| - off, CHUNK)]))
  }

  lemma PiecesUnfold(address: nat, payload: seq<byte>, off: nat)
    requires off < |payload|
    ensures Pieces(address, payload, off)
            == [Piece(address, payload, off)] + Pieces(address, payload, off + Min(|payload| - off, CHUNK))
  {
    hide DataBlob;
  }

  /** A payload of any length is resent in packets of at most 0x3f0 bytes at contiguous addresses, each with
      correct sums, and together they carry exactly the payload. */
  lemma {:induction false} PiecesCarryPayload(address: nat, payload: seq<byte>, off: nat)
    requires off <= |payload|
    ensures var ps := Pieces(address, payload, off);
            AllPieces(ps) && Contiguous(ps, address + off) && AllPayloads(ps) == payload[off..]
    decreases |payload| - off
  {
    hide Piece, Pieces, GoodPiece, PiecePayload, AllPieces, Contiguous, AllPayloads, DataBlob;
    if off == |payload| {
      NoPieces(address, payload);
    } else {
      var n := Min(|payload| - off, CHUNK);
      var p, rest := Piece(address, payload, off), Pieces(address, payload, off + n);
      PieceFacts(address, payload, off);
      PiecesUnfold(address, payload, off);
      PiecesCarryPayload(address, payload, off + n);
      PieceInFront(p, rest, address + off);
      assert payload[off..] == payload[off..off + n] + payload[off + n..];
    }
  }

  lemma NoPieces(address: nat, payload: seq<byte>)
    ensures var ps := Pieces(address, payload, |payload|);
            AllPieces(ps) && Contiguous(ps, address + |payload|) && AllPayloads(ps) == payload[|payload|..]
  {
  }

  lemma PieceFacts(address: nat, payload: seq<byte>, off: nat)
    requires off < |payload|
    ensures var p, n := Piece(address, payload, off), Min(|payload| - off, CHUNK);
            0 < n <= |payload| - off && |p.bytes| >= 14 && GoodPiece(p, address + off)
            && PiecePayload(p) == payload[off..off + n] && |PiecePayload(p)| == n
  {
    DataBlobIsGood(address + off, payload[off..off + Min(|payload| - off, CHUNK)]);
    hide DataBlob, GoodPiece, PiecePayload;
  }

  lemma PieceInFront(p: Packet, rest: seq<Packet>, address: nat)
    requires |p.bytes| >= 14 && GoodPiece(p, address)
    requires AllPieces(rest) && Contiguous(rest, address + |PiecePayload(p)|)
    ensures AllPieces([p] + rest) && Contiguous([p] + rest, address)
    ensures AllPayloads([p] + rest) == PiecePayload(p) + AllPayloads(rest)
  {
    hide GoodPiece, PiecePayload;
    assert ([p] + rest)[0] == p && ([p] + rest)[1..] == rest;
  }

  // ---- when everything goes through -------------------------------------------------------------

  /** The driver takes the command of a packet from its first two bytes. */
  predicate Worded(p: Packet) {
    |p.bytes| >= 2 && p.cmd == U16le(p.bytes, 0)
  }

  /** A device that takes every packet at once. */
  ghost predicate Acknowledges(device: Device) {
    forall k, p: Packet :: Worded(p) && Sendable(p) ==>
      device(k, Wire(p)).error == 0 && Acknowledged(p, device(k, Wire(p)))
  }

  /** The answers of a bootloader that takes everything: one status for register writes, one for the rest. */
  function Obliging(k: nat, w: seq<byte>): Answer {
    Answer(0, if |w| >= 2 && w[0] == 0x1e && w[1] == 0x33 then REG_OK else DATA_OK)
  }

  lemma WireStart(p: Packet)
    requires Worded(p) && Sendable(p)
    ensures var w := Wire(p);
            |w| >= 2 && (w[0] == 0x1e && w[1] == 0x33 <==> p.cmd == CMD_REGISTER)
  {
    var b := p.bytes[0..2];
    LEUnfolds(b);
    LEUnfolds(b[1..]);
    hide LE;
  }

  /** There are such devices. */
  lemma ObligingAcknowledges()
    ensures Acknowledges(Obliging)
  {
    forall k, p: Packet | Worded(p) && Sendable(p)
      ensures Obliging(k, Wire(p)).error == 0 && Acknowledged(p, Obliging(k, Wire(p)))
    {
      WireStart(p);
      hide Wire, Worded, Sendable;
    }
  }

  predicate AllWorded(ps: seq<Packet>) {
    forall p :: p in ps ==> Worded(p)
  }

  predicate AllSendable(ps: seq<Packet>) {
    forall p :: p in ps ==> Sendable(p)
  }

  function Wires(ps: seq<Packet>): seq<seq<byte>>
    requires AllSendable(ps)
  {
    if ps == [] then [] else [Wire(ps[0])] + Wires(ps[1..])
  }

  lemma {:induction false} AckedSendAll(device: Device, k: nat, ps: seq<Packet>)
    requires Acknowledges(device) && AllWorded(ps)
    ensures AllSendable(ps) ==> SendAll(device, k, ps) == Sent(Wires(ps), 0)
    ensures !AllSendable(ps) ==> SendAll(device, k, ps).ret == EINVAL
    decreases |ps|
  {
    if ps != [] {
      var p := ps[0];
      assert forall q :: q in ps <==> q == p || q in ps[1..];
      if Sendable(p) {
        AckedOne(device, k, p);
        hide SendOne, Sendable, Wire, Acknowledges, Worded;
        AckedSendAll(device, k + 1, ps[1..]);
      }
    }
  }

  lemma AckedOne(device: Device, k: nat, p: Packet)
    requires Acknowledges(device) && Worded(p) && Sendable(p)
    ensures SendOne(device, k, p) == Sent([Wire(p)], 0)
  {
    var a := device(k, Wire(p));
    hide Acknowledged, Wire, Sendable, Worded;
    assert SendFrom(device, k, p, TRIES) == Sent([Wire(p)], 0);
  }

  predicate Even(n: int) {
    n % 2 == 0
  }

  lemma EvenParts(n: nat)
    ensures Even(n) <==> Even(Min(n, CHUNK)) && Even(n - Min(n, CHUNK))
  {
  }

  lemma PieceSendable(address: nat, payload: seq<byte>, off: nat)
    requires off < |payload|
    ensures Sendable(Piece(address, payload, off)) <==> Even(Min(|payload| - off, CHUNK))
  {
    var p := Piece(address, payload, off);
    assert |p.bytes| == 14 + Min(|payload| - off, CHUNK);
    hide DataBlob, Piece;
  }

  lemma SendableCons(p: Packet, ps: seq<Packet>)
    ensures AllSendable([p] + ps) <==> Sendable(p) && AllSendable(ps)
  {
    hide Sendable;
    assert forall q :: q in [p] + ps <==> q == p || q in ps;
  }

  lemma NothingSendable(address: nat, payload: seq<byte>)
    ensures AllSendable(Pieces(address, payload, |payload|)) && Even(0)
  {
    hide Piece;
  }

  lemma {:induction false} PiecesSendable(address: nat, payload: seq<byte>, off: nat)
    requires off <= |payload|
    ensures AllSendable(Pieces(address, payload, off)) <==> Even(|payload| - off)
    decreases |payload| - off
  {
    hide AllSendable, Sendable, Piece, Pieces, DataBlob, Even;
    if off == |payload| {
      NothingSendable(address, payload);
    } else {
      var n := Min(|payload| - off, CHUNK);
      EvenParts(|payload| - off);
      PiecesUnfold(address, payload, off);
      PieceSendable(address, payload, off);
      PiecesSendable(address, payload, off + n);
      SendableCons(Piece(address, payload, off), Pieces(address, payload, off + n));
    }
  }

  /** Payloads come in 16-bit words. */
  predicate EvenStep(s: LoadStep, cal: Option<seq<byte>>) {
    (s.Binary? ==> Even(|s.payload|)) && (s.Property? && cal.Some? ==> Even(|cal.value|))
  }

  lemma {:induction false} ExpectedSendable(steps: seq<LoadStep>, cal: Option<seq<byte>>)
    ensures AllSendable(Expected(steps, cal)) <==> forall s :: s in steps ==> EvenStep(s, cal)
    decreases |steps|
  {
    if steps != [] {
      var s, rest := steps[0], steps[1..];
      hide AllSendable, StepPackets, EvenStep;
      ExpectedSendable(rest, cal);
      StepSendable(s, cal);
      SendableConcat(StepPackets(s, cal), Expected(rest, cal));
      assert forall t :: t in steps <==> t == s || t in rest;
    }
  }

  lemma StepSendable(s: LoadStep, cal: Option<seq<byte>>)
    ensures AllSendable(StepPackets(s, cal)) <==> EvenStep(s, cal)
  {
    hide Even, Pieces;
    if s.Binary? { PiecesSendable(s.address, s.payload, 0); }
    if s.Property? && cal.Some? { PiecesSendable(s.address, cal.value, 0); }
  }

  lemma SendableConcat(a: seq<Packet>, b: seq<Packet>)
    ensures AllSendable(a + b) <==> AllSendable(a) && AllSendable(b)
  {
    hide Sendable;
    assert forall q :: q in a + b <==> q in a || q in b;
  }

  lemma {:induction false} PiecesWorded(address: nat, payload: seq<byte>, off: nat)
    requires off <= |payload|
    ensures AllWorded(Pieces(address, payload, off))
    decreases |payload| - off
  {
    if off < |payload| {
      var n := Min(|payload| - off, CHUNK);
      DataBlobParts((address + off) % 0x1_0000_0000, payload[off..off + n]);
      PiecesWorded(address, payload, off + n);
      hide DataBlob, U16le;
    }
  }

  /** Every packet of the steps starts with its command. */
  lemma {:induction false} ExpectedWorded(steps: seq<LoadStep>, cal: Option<seq<byte>>)
    requires Records(steps).Ok?
    ensures AllWorded(Expected(steps, cal))
    decreases |steps|
  {
    if steps != [] {
      StepWorded(steps[0], cal);
      hide StepPackets, Worded, StepRecord;
      ExpectedWorded(steps[1..], cal);
    }
  }

  lemma StepWorded(s: LoadStep, cal: Option<seq<byte>>)
    ensures AllWorded(StepPackets(s, cal))
  {
    hide Pieces, RegisterBlob;
    match s {
      case Binary(a, p) => PiecesWorded(a, p, 0);
      case Property(a) => if cal.Some? { PiecesWorded(a, cal.value, 0); }
      case RequestCalibration => CalibrateWord();
      case ReadModifyWrite(a, m, v) => RegisterBlobWord(a, m, v);
      case Config =>
      case Other =>
    }
  }

  // ---- any device -------------------------------------------------------------------------------

  /** The transfers are the packets' wire forms in order, each at most five times in a row. */
  ghost predicate InOrder(wires: seq<seq<byte>>, ps: seq<Packet>)
    decreases |ps|
  {
    wires == [] ||
    (ps != [] && Sendable(ps[0]) &&
     exists m :: 1 <= m <= TRIES && m <= |wires| && wires[..m] == Repeat(Wire(ps[0]), m) &&
                 InOrder(wires[m..], ps[1..]))
  }

  lemma {:induction false} RetriesRepeat(device: Device, k: nat, p: Packet, left: nat)
    requires Sendable(p)
    ensures var w := SendFrom(device, k, p, left).wires; |w| <= left && w == Repeat(Wire(p), |w|)
    ensures left > 0 ==> SendFrom(device, k, p, left).wires != []
    decreases left
  {
    if left > 0 {
      RetriesRepeat(device, k + 1, p, left - 1);
    }
  }

  /** Whatever the device answers, it is sent nothing but the plan's packets, in order. */
  lemma {:induction false} SentInOrder(device: Device, k: nat, ps: seq<Packet>)
    ensures InOrder(SendAll(device, k, ps).wires, ps)
    decreases |ps|
  {
    hide SendFrom, Wire, Sendable;
    if ps != [] && Sendable(ps[0]) {
      var first := SendOne(device, k, ps[0]);
      RetriesRepeat(device, k, ps[0], TRIES);
      hide SendOne;
      SentInOrder(device, k + |first.wires|, ps[1..]);
      var rest := SendAll(device, k + |first.wires|, ps[1..]).wires;
      var m := |first.wires|;
      var wires := SendAll(device, k, ps).wires;
      if first.ret == 0 {
        assert wires[..m] == first.wires && wires[m..] == rest;
      } else {
        assert wires[..m] == first.wires && wires[m..] == [];
      }
    }
  }
}
