/** The firmware file and the SPI transfers, byte by byte: what mtfw.py writes for each step and what the device is
    sent when the loader reads that file. */
module HbppTransfers {
  import opened Bytes
  import opened Z2Writer
  import opened HbppLoader
  import opened HbppRoundTrip

  // ---- sums -------------------------------------------------------------------------------------

  lemma {:induction false} SumOfParts(a: seq<byte>, b: seq<byte>)
    ensures Sum(a + b) == Sum(a) + Sum(b)
    decreases |a|
  {
    if a == [] {
      assert a + b == b;
    } else {
      assert (a + b)[0] == a[0] && (a + b)[1..] == a[1..] + b;
      SumOfParts(a[1..], b);
    }
  }

  lemma SumOfOne(x: byte)
    ensures Sum([x]) == x && Sum([]) == 0
  {
    assert [x][1..] == [];
  }

  /** The six bytes from off on, added up. */
  function Six(b: seq<byte>, off: nat): nat
    requires off + 6 <= |b|
  {
    b[off] as int + b[off + 1] + b[off + 2] + b[off + 3] + b[off + 4] + b[off + 5]
  }

  lemma SumOfSix(b: seq<byte>, off: nat)
    requires off + 6 <= |b|
    ensures Sum(b[off..off + 6]) == Six(b, off) <= 1530
  {
    hide Sum;
    forall x: byte ensures Sum([x]) == x { SumOfOne(x); }
    var s := b[off..off + 6];
    assert s == [s[0]] + ([s[1]] + ([s[2]] + ([s[3]] + ([s[4]] + [s[5]]))));
    SumOfParts([s[0]], [s[1]] + ([s[2]] + ([s[3]] + ([s[4]] + [s[5]]))));
    SumOfParts([s[1]], [s[2]] + ([s[3]] + ([s[4]] + [s[5]])));
    SumOfParts([s[2]], [s[3]] + ([s[4]] + [s[5]]));
    SumOfParts([s[3]], [s[4]] + [s[5]]);
    SumOfParts([s[4]], [s[5]]);
  }

  // ---- packets ----------------------------------------------------------------------------------

  /** A register packet: its command, three little-endian words, and the sum of their bytes. */
  ghost predicate RegisterPacket(b: seq<byte>, a: nat, m: nat, v: nat) {
    && |b| == 16 && b[0] == 0x33 && b[1] == 0x1e
    && U32le(b, 2) == a && U32le(b, 6) == m && U32le(b, 10) == v
    && U16le(b, 14) == Six(b, 2) + Six(b, 8)
  }

  /** A data packet: its command, the number of words, an address, the sum of the bytes between command and sum, the
      payload and the sum of its bytes. */
  ghost predicate DataPacket(b: seq<byte>, a: nat, payload: seq<byte>) {
    && |b| == 14 + |payload| && b[0] == 0x01 && b[1] == 0x30
    && U16le(b, 2) == (|payload| + 3) / 4 && U32le(b, 4) == a && U16le(b, 8) == Six(b, 2)
    && b[10..10 + |payload|] == payload && U32le(b, 10 + |payload|) == Sum(payload) % 0x1_0000_0000
  }

  lemma RegisterBytes(a: nat, m: nat, v: nat)
    requires Fits32(a) && Fits32(m) && Fits32(v)
    ensures RegisterPacket(RegisterBlob(a, m, v), a, m, v)
  {
    var b := RegisterBlob(a, m, v);
    hide Sum, ToLE, LE, RegisterBlob;
    RegisterParts(a, m, v);
    WordReads(b, 2, a);
    WordReads(b, 6, m);
    WordReads(b, 10, v);
    ToLEInNumbers(0x1e33);
    SumOfTwelve(b);
    HalfReads(b, 14, Sum(b[2..14]));
  }

  lemma SumOfTwelve(b: seq<byte>)
    requires |b| >= 14
    ensures Sum(b[2..14]) == Six(b, 2) + Six(b, 8) <= 3060
  {
    hide Sum;
    SumOfSix(b, 2);
    SumOfSix(b, 8);
    SumOfParts(b[2..8], b[8..14]);
    assert b[2..14] == b[2..8] + b[8..14];
  }

  lemma RegisterParts(a: nat, m: nat, v: nat)
    ensures var b := RegisterBlob(a, m, v);
            && b[..2] == ToLE(0x1e33, 2)
            && b[2..6] == ToLE(a, 4) && b[6..10] == ToLE(m, 4) && b[10..14] == ToLE(v, 4)
            && b[14..16] == ToLE(Sum(b[2..14]) % 0x1_0000, 2)
  {
    hide Sum, ToLE;
    var b := RegisterBlob(a, m, v);
    var d := ToLE(CMD_REGISTER, 2) + ToLE(a, 4) + ToLE(m, 4) + ToLE(v, 4);
    assert b[2..14] == d[2..];
  }

  lemma WordReads(b: seq<byte>, off: nat, n: nat)
    requires off + 4 <= |b| && b[off..off + 4] == ToLE(n, 4) && Fits32(n)
    ensures U32le(b, off) == n
  {
    assert Pow256(4) == 0x1_0000_0000;
    LERoundTrip(n, 4);
  }

  lemma HalfReads(b: seq<byte>, off: nat, n: nat)
    requires off + 2 <= |b| && b[off..off + 2] == ToLE(n % 0x1_0000, 2) && n < 0x1_0000
    ensures U16le(b, off) == n
  {
    assert Pow256(2) == 0x1_0000;
    LERoundTrip(n, 2);
  }

  lemma DataBytes(a: nat, payload: seq<byte>)
    requires Fits32(a) && (|payload| + 3) / 4 < 0x1_0000
    ensures DataPacket(DataBlob(a, payload), a, payload)
  {
    var b := DataBlob(a, payload);
    hide Sum, ToLE, LE, DataBlob;
    DataParts(a, payload);
    HalfReads(b, 2, (|payload| + 3) / 4);
    WordReads(b, 4, a);
    ToLEInNumbers(0x3001);
    SumOfSix(b, 2);
    HalfReads(b, 8, Six(b, 2));
    WordReads(b, 10 + |payload|, Sum(payload) % 0x1_0000_0000);
  }

  lemma DataParts(a: nat, payload: seq<byte>)
    ensures var b, n := DataBlob(a, payload), |payload|;
            && b[..2] == ToLE(0x3001, 2) && b[2..4] == ToLE((n + 3) / 4, 2) && b[4..8] == ToLE(a, 4)
            && b[8..10] == ToLE(Sum(b[2..8]) % 0x1_0000, 2)
            && b[10..10 + n] == payload && b[10 + n..14 + n] == ToLE(Sum(payload) % 0x1_0000_0000, 4)
  {
    hide Sum, ToLE;
    var b, h := DataBlob(a, payload), DataHeader(a, |payload|);
    assert b[..8] == h;
    assert b[2..8] == h[2..];
    assert b[..2] == h[..2] && b[2..4] == h[2..4] && b[4..8] == h[4..8];
  }

  // ---- on the wire ------------------------------------------------------------------------------

  /** A transfer of these bytes behind lead, the two bytes of each half changed over. */
  ghost predicate OnWire(w: seq<byte>, lead: seq<byte>, b: seq<byte>) {
    && |w| == |lead| + |b| && |b| % 2 == 0 && w[..|lead|] == lead
    && forall i :: |lead| <= i < |w| ==> var k := i - |lead|; w[i] == b[if k % 2 == 0 then k + 1 else k - 1]
  }

  lemma WireInNumbers(p: Packet)
    ensures Sendable(p) <==> |p.bytes| % 2 == 0 && |p.bytes| + (if p.cmd == 0x3001 then 2 else 0) <= 1100
    ensures Sendable(p) ==> OnWire(Wire(p), if p.cmd == 0x3001 then [0x18, 0xe1] else [], p.bytes)
  {
    if Sendable(p) {
      var w, lead, r := Wire(p), Lead(p), SwapPairs(p.bytes);
      assert w == lead + r;
    }
  }

  /** The answer leads to another try. */
  ghost predicate Refused(p: Packet, a: Answer) {
    a.error == 0 && p.cmd != 0x1f01 && a.status != if p.cmd == 0x1e33 then 0x4ad1 else 0x4bc1
  }

  /** A packet that cannot be sent is -EINVAL. Any other goes out up to five times, until an answer is not a refusal,
      and that answer's error is the result, or -EIO after the fifth refusal. */
  lemma TriesInNumbers(device: Device, k: nat, p: Packet)
    ensures !Sendable(p) ==> SendOne(device, k, p) == Sent([], -22)
    ensures Sendable(p) ==>
              var s := SendOne(device, k, p);
              var n := |s.wires|;
              && 1 <= n <= 5 && (forall j :: 0 <= j < n ==> s.wires[j] == Wire(p))
              && (forall t: nat :: k <= t < k + n - 1 ==> Refused(p, device(t, Wire(p))))
              && var last := device(k + n - 1, Wire(p));
                 if Refused(p, last) then n == 5 && s.ret == -5 else s.ret == last.error
  {
    if Sendable(p) { LastTry(device, k, p, 5); }
  }

  lemma {:induction false} LastTry(device: Device, k: nat, p: Packet, left: nat)
    requires Sendable(p) && left > 0
    ensures var s := SendFrom(device, k, p, left);
            var n := |s.wires|;
            && 1 <= n <= left && (forall j :: 0 <= j < n ==> s.wires[j] == Wire(p))
            && (forall t: nat :: k <= t < k + n - 1 ==> Refused(p, device(t, Wire(p))))
            && var last := device(k + n - 1, Wire(p));
               if Refused(p, last) then n == left && s.ret == -5 else s.ret == last.error
    decreases left
  {
    hide Wire;
    TryUnfolds(device, k, p, left);
    var s, w := SendFrom(device, k, p, left), Wire(p);
    if Refused(p, device(k, w)) {
      if left == 1 {
        assert SendFrom(device, k + 1, p, 0) == Sent([], -5);
      } else {
        LastTry(device, k + 1, p, left - 1);
        var more := SendFrom(device, k + 1, p, left - 1);
        assert s.wires == [w] + more.wires;
      }
    } else {
      assert s.wires == [w];
    }
  }

  // ---- what the device is told ------------------------------------------------------------------

  ghost predicate DataSent(w: seq<byte>, a: nat, payload: seq<byte>) {
    exists b :: OnWire(w, [0x18, 0xe1], b) && DataPacket(b, a, payload)
  }

  ghost predicate RegisterSent(w: seq<byte>, a: nat, m: nat, v: nat) {
    exists b :: OnWire(w, [], b) && RegisterPacket(b, a, m, v)
  }

  /** A payload goes out in pieces of 0x3f0 bytes and what is left, at consecutive addresses. */
  ghost predicate PayloadSent(ws: seq<seq<byte>>, a: nat, payload: seq<byte>)
    decreases |payload|
  {
    if payload == [] then ws == []
    else
      var n := if |payload| < 0x3f0 then |payload| else 0x3f0;
      ws != [] && DataSent(ws[0], a % 0x1_0000_0000, payload[..n]) && PayloadSent(ws[1..], a + n, payload[n..])
  }

  /** What a step is for the device. */
  ghost predicate StepSent(ws: seq<seq<byte>>, s: LoadStep, cal: Option<seq<byte>>) {
    match s
    case Binary(a, p) => PayloadSent(ws, a, p)
    case Property(a) => if cal.Some? then PayloadSent(ws, a, cal.value) else ws == []
    case RequestCalibration => ws == [[0x1f, 0x01]]
    case ReadModifyWrite(a, m, v) => |ws| == 1 && RegisterSent(ws[0], a, m, v)
    case _ => ws == []
  }

  /** The steps one after the other. */
  ghost predicate StepsSent(ws: seq<seq<byte>>, steps: seq<LoadStep>, cal: Option<seq<byte>>)
    decreases |steps|
  {
    if steps == [] then ws == []
    else exists n :: 0 <= n <= |ws| && StepSent(ws[..n], steps[0], cal) && StepsSent(ws[n..], steps[1..], cal)
  }

  lemma {:induction false} WiresConcat(a: seq<Packet>, b: seq<Packet>)
    requires AllSendable(a + b)
    ensures AllSendable(a) && AllSendable(b) && Wires(a + b) == Wires(a) + Wires(b)
    decreases |a|
  {
    SendableConcat(a, b);
    hide Sendable, Wire, AllSendable;
    if a == [] {
      assert a + b == b;
    } else {
      assert (a + b)[0] == a[0] && (a + b)[1..] == a[1..] + b;
      SendableConcat([a[0]], a[1..] + b);
      assert [a[0]] + (a[1..] + b) == a + b;
      WiresConcat(a[1..], b);
    }
  }

  lemma {:induction false} PiecesOnWire(address: nat, payload: seq<byte>, off: nat)
    requires off <= |payload| && AllSendable(Pieces(address, payload, off))
    ensures PayloadSent(Wires(Pieces(address, payload, off)), address + off, payload[off..])
    decreases |payload| - off
  {
    hide Piece, Pieces, DataBlob, Sendable, Wire, AllSendable, DataSent;
    if off == |payload| {
      NothingLeft(address, payload);
    } else {
      var n := Min(|payload| - off, 0x3f0);
      var p, rest := Piece(address, payload, off), Pieces(address, payload, off + n);
      PiecesUnfold(address, payload, off);
      SendableCons(p, rest);
      PiecesOnWire(address, payload, off + n);
      assert ([p] + rest)[0] == p && ([p] + rest)[1..] == rest;
      assert payload[off..][..n] == payload[off..off + n] && payload[off..][n..] == payload[off + n..];
      PieceOnWire(address, payload, off);
    }
  }

  lemma NothingLeft(address: nat, payload: seq<byte>)
    ensures Pieces(address, payload, |payload|) == [] && Wires([]) == [] && payload[|payload|..] == []
  {
  }

  lemma PieceOnWire(address: nat, payload: seq<byte>, off: nat)
    requires off < |payload| && Sendable(Piece(address, payload, off))
    ensures var n := Min(|payload| - off, 0x3f0);
            DataSent(Wire(Piece(address, payload, off)), (address + off) % 0x1_0000_0000, payload[off..off + n])
  {
    var p, n := Piece(address, payload, off), Min(|payload| - off, 0x3f0);
    hide DataBlob, DataPacket, OnWire, Wire, Sendable;
    DataBytes((address + off) % 0x1_0000_0000, payload[off..off + n]);
    WireInNumbers(p);
    assert OnWire(Wire(p), [0x18, 0xe1], p.bytes);
  }

  lemma StepOnWire(s: LoadStep, cal: Option<seq<byte>>)
    requires Encodable(s) && AllSendable(StepPackets(s, cal))
    ensures StepSent(Wires(StepPackets(s, cal)), s, cal)
  {
    hide Pieces, RegisterBlob, PayloadSent, RegisterSent, AllSendable, Sendable, Wire;
    match s {
      case Binary(a, p) =>
        PiecesOnWire(a, p, 0);
        assert p[0..] == p;
      case Property(a) =>
        if cal.Some? {
          PiecesOnWire(a, cal.value, 0);
          assert cal.value[0..] == cal.value;
        }
      case RequestCalibration => CalibrateOnWire();
      case ReadModifyWrite(a, m, v) => RegisterOnWire(a, m, v);
      case Config =>
      case Other =>
    }
  }

  lemma CalibrateOnWire()
    ensures var ps := [Packet(CMD_CALIBRATE, ToLE(CMD_CALIBRATE, 2))];
            AllSendable(ps) && Wires(ps) == [[0x1f, 0x01]]
  {
    hide ToLE, Wire, Sendable;
    ToLEInNumbers(0x1f01);
    var p := Packet(CMD_CALIBRATE, ToLE(CMD_CALIBRATE, 2));
    assert p.bytes == [0x01, 0x1f];
    assert [p][1..] == [];
    WireInNumbers(p);
    assert Wire(p) == [0x1f, 0x01];
  }

  lemma RegisterOnWire(a: nat, m: nat, v: nat)
    requires Fits32(a) && Fits32(m) && Fits32(v)
    ensures var ps := [Packet(CMD_REGISTER, RegisterBlob(a, m, v))];
            AllSendable(ps) && |Wires(ps)| == 1 && RegisterSent(Wires(ps)[0], a, m, v)
  {
    var p := Packet(CMD_REGISTER, RegisterBlob(a, m, v));
    hide RegisterPacket, OnWire, Wire, Sendable, RegisterBlob;
    assert [p][1..] == [];
    RegisterBytes(a, m, v);
    WireInNumbers(p);
    assert OnWire(Wire(p), [], p.bytes);
  }

  lemma {:induction false} StepsOnWire(steps: seq<LoadStep>, cal: Option<seq<byte>>)
    requires Records(steps).Ok? && AllSendable(Expected(steps, cal))
    ensures StepsSent(Wires(Expected(steps, cal)), steps, cal)
    decreases |steps|
  {
    hide StepPackets, StepSent, AllSendable, StepRecord, Wires;
    if steps == [] {
      NoWires();
    } else {
      var first, rest := StepPackets(steps[0], cal), Expected(steps[1..], cal);
      WiresConcat(first, rest);
      var ws, n := Wires(Expected(steps, cal)), |Wires(first)|;
      assert ws[..n] == Wires(first) && ws[n..] == Wires(rest);
      StepOnWire(steps[0], cal);
      StepsOnWire(steps[1..], cal);
    }
  }

  lemma NoWires()
    ensures AllSendable([]) && Wires([]) == []
  {
  }

  /** Writing the steps and loading the file: on a device that acknowledges, the load succeeds exactly when
      every payload has even length, and then the device has been sent the steps in order, each once, byte by
      byte. */
  method BuildAndLoad(steps: seq<LoadStep>, driver: Driver) returns (built: Result<seq<byte>, BuildError>, ret: int)
    requires Acknowledges(driver.device)
    modifies driver`log
    ensures built.Err? <==> Records(steps).Err?
    ensures built.Ok? ==> (ret == 0 <==> forall s :: s in steps ==> EvenStep(s, driver.cal))
    ensures built.Ok? && ret == 0 ==> AllSendable(Expected(steps, driver.cal))
    ensures built.Ok? && ret == 0 ==> driver.log == old(driver.log) + Wires(Expected(steps, driver.cal))
    ensures built.Ok? && ret == 0 ==> StepsSent(Wires(Expected(steps, driver.cal)), steps, driver.cal)
  {
    ret := 0;
    built := Build(steps);
    if built.Ok? {
      BuiltFilePlan(steps, driver.cal, driver.beyond);
      ExpectedSendable(steps, driver.cal);
      ExpectedWorded(steps, driver.cal);
      if AllSendable(Expected(steps, driver.cal)) { StepsOnWire(steps, driver.cal); }
      AckedSendAll(driver.device, |driver.log|, Expected(steps, driver.cal));
      hide *;
      ret := driver.Load(built.value);
    }
  }

  // ---- the file ---------------------------------------------------------------------------------

  /** The file starts with Z2FW and a one. */
  lemma FileHeaderInNumbers()
    ensures FileHeader() == [0x5a, 0x32, 0x46, 0x57, 1, 0, 0, 0]
  {
    ToLEInNumbers(1);
  }

  /** A blob record: a one, the length, the bytes, and zeros to a multiple of four. */
  ghost predicate BlobWritten(r: seq<byte>, b: seq<byte>) {
    && |b| + 8 <= |r| < |b| + 12 && |r| % 4 == 0
    && U32le(r, 0) == 1 && U32le(r, 4) == |b| && r[8..8 + |b|] == b
    && forall i :: 8 + |b| <= i < |r| ==> r[i] == 0
  }

  lemma BlobInNumbers(b: seq<byte>)
    requires Fits32(|b|)
    ensures BlobWritten(BlobRecord(b), b)
  {
    var r := BlobRecord(b);
    hide ToLE, U32le, Padding;
    assert r[0..4] == ToLE(1, 4) && r[4..8] == ToLE(|b|, 4) && r[8..8 + |b|] == b;
    WordReads(r, 0, 1);
    WordReads(r, 4, |b|);
  }

  /** The record of each step. */
  ghost predicate StepWritten(r: seq<byte>, s: LoadStep) {
    match s
    case Binary(a, p) => exists b :: BlobWritten(r, b) && DataPacket(b, a, p)
    case Property(a) => |r| == 8 && U32le(r, 0) == 2 && U32le(r, 4) == a
    case RequestCalibration => BlobWritten(r, [0x01, 0x1f])
    case ReadModifyWrite(a, m, v) => exists b :: BlobWritten(r, b) && RegisterPacket(b, a, m, v)
    case _ => r == []
  }

  lemma RecordInNumbers(s: LoadStep)
    requires Encodable(s)
    ensures StepWritten(StepRecord(s), s)
  {
    hide DataBlob, RegisterBlob, BlobRecord, BlobWritten, DataPacket, RegisterPacket, ToLE, U32le;
    match s {
      case Binary(a, p) =>
        DataBytes(a, p);
        BlobInNumbers(DataBlob(a, p));
      case Property(a) =>
        var r := StepRecord(s);
        assert r[0..4] == ToLE(2, 4) && r[4..8] == ToLE(a, 4);
        WordReads(r, 0, 2);
        WordReads(r, 4, a);
      case RequestCalibration =>
        ToLEInNumbers(0x1f01);
        BlobInNumbers([0x01, 0x1f]);
      case ReadModifyWrite(a, m, v) =>
        RegisterBytes(a, m, v);
        BlobInNumbers(RegisterBlob(a, m, v));
      case Config =>
      case Other =>
    }
  }

  /** A step has no record if its type is unknown, or else if an address, a word or a number of words does not fit. */
  lemma RecordRefused(s: LoadStep)
    ensures Records([s]) == (if s.Other? then Err(UnknownStep)
                             else if s.Binary? && (s.address >= 0x1_0000_0000 || |s.payload| > 4 * 0xffff)
                             then Err(FieldTooLarge)
                             else if s.Property? && s.address >= 0x1_0000_0000 then Err(FieldTooLarge)
                             else if s.ReadModifyWrite? && (s.address >= 0x1_0000_0000 || s.mask >= 0x1_0000_0000
                                                            || s.value >= 0x1_0000_0000) then Err(FieldTooLarge)
                             else Ok(StepRecord(s)))
  {
    hide StepRecord;
    assert [s][1..] == [];
    assert Problem(s).None? ==> StepRecord(s) + [] == StepRecord(s);
  }

  /** The records follow in the order of the steps, and the first step without one decides. */
  lemma {:induction false} RecordsInOrder(a: seq<LoadStep>, b: seq<LoadStep>)
    ensures Records(a + b) == match Records(a)
                              case Err(e) => Err(e)
                              case Ok(ra) =>
                                match Records(b)
                                case Err(e) => Err(e)
                                case Ok(rb) => Ok(ra + rb)
    decreases |a|
  {
    hide StepRecord;
    if a == [] {
      assert a + b == b;
      if Records(b).Ok? { assert [] + Records(b).value == Records(b).value; }
    } else {
      assert (a + b)[0] == a[0] && (a + b)[1..] == a[1..] + b;
      RecordsInOrder(a[1..], b);
      if Problem(a[0]).None? && Records(a[1..]).Ok? && Records(b).Ok? {
        var r := StepRecord(a[0]);
        assert r + (Records(a[1..]).value + Records(b).value) == r + Records(a[1..]).value + Records(b).value;
      }
    }
  }

  // ---- any file ---------------------------------------------------------------------------------

  /** A file is refused without its eight bytes of header. */
  lemma HeaderRefused(fw: seq<byte>, cal: Option<seq<byte>>, beyond: nat)
    ensures (if |fw| >= 8 && fw[..8] == [0x5a, 0x32, 0x46, 0x57, 1, 0, 0, 0] then PlanFrom(fw, 8, cal, beyond)
             else Plan([], -22))
            == FilePlan(fw, cal, beyond)
  {
    hide PlanFrom, LE;
    if |fw| >= 8 {
      U32leInNumbers(fw, 4);
      assert fw[..8] == fw[..4] + fw[4..8];
    }
  }

  /** Eight bytes of a command, then what it carries, up to a multiple of four: 0 sends nothing, 1 its bytes as one
      packet, or in pieces if they are a data packet, and 2 the calibration at an address. Anything else, or less than
      it announces, is refused there; fewer than eight bytes are the end. */
  lemma CommandInNumbers(fw: seq<byte>, off: nat, cal: Option<seq<byte>>, beyond: nat)
    ensures off + 8 > |fw| ==> PlanFrom(fw, off, cal, beyond) == Plan([], 0)
    ensures off + 8 <= |fw| ==>
            var cmd, arg, at, plan := U32le(fw, off), U32le(fw, off + 4), off + 8, PlanFrom(fw, off, cal, beyond);
            if cmd > 2 || (cmd < 2 && at + arg > |fw|) then plan == Plan([], -22)
            else if cmd == 2 then
              plan == Prepend(if cal.Some? then Pieces(arg, cal.value, 0) else [],
                              PlanFrom(fw, (at + 3) / 4 * 4, cal, beyond))
            else
              var next := PlanFrom(fw, (at + arg + 3) / 4 * 4, cal, beyond);
              if cmd == 0 then plan == next
              else
                var b := fw[at..at + arg];
                if |b| >= 14 && b[0] == 0x01 && b[1] == 0x30
                then plan == Prepend(Pieces(U32le(b, 4), b[10..arg - 4], 0), next)
                else plan.ret == next.ret && |plan.packets| == 1 + |next.packets| && plan.packets[1..] == next.packets
                     && plan.packets[0].bytes == b
                     && (|b| >= 2 ==> plan.packets[0].cmd == b[0] + 256 * b[1] as int)
  {
    hide U32le, U16le, Pieces, PlanFrom, CommandPackets;
    PlanUnfolds(fw, off, cal, beyond);
    if off + 8 <= |fw| {
      var cmd, arg, at := U32le(fw, off), U32le(fw, off + 4), off + 8;
      if KnownCommand(fw, at, cmd, arg) {
        var next := PlanFrom(fw, CommandEnd(at, cmd, arg), cal, beyond);
        if cmd == 1 {
          BlobInFile(fw, at, arg, cal, beyond, next);
        } else {
          NoBlob(fw, at, cmd, arg, cal, beyond, next);
        }
      }
    }
  }

  lemma NoBlob(fw: seq<byte>, at: nat, cmd: nat, arg: nat, cal: Option<seq<byte>>, beyond: nat, next: Plan)
    requires KnownCommand(fw, at, cmd, arg) && cmd != 1
    ensures Prepend(CommandPackets(fw, at, cmd, arg, cal, beyond), next)
            == if cmd == 0 then next else Prepend(if cal.Some? then Pieces(arg, cal.value, 0) else [], next)
  {
    hide Pieces;
  }

  lemma BlobInFile(fw: seq<byte>, at: nat, arg: nat, cal: Option<seq<byte>>, beyond: nat, next: Plan)
    requires at + arg <= |fw|
    ensures var b, plan := fw[at..at + arg], Prepend(CommandPackets(fw, at, 1, arg, cal, beyond), next);
            if |b| >= 14 && b[0] == 0x01 && b[1] == 0x30
            then plan == Prepend(Pieces(U32le(b, 4), b[10..arg - 4], 0), next)
            else plan.ret == next.ret && |plan.packets| == 1 + |next.packets| && plan.packets[1..] == next.packets
                 && plan.packets[0].bytes == b
                 && (|b| >= 2 ==> plan.packets[0].cmd == b[0] + 256 * b[1] as int)
  {
    hide Pieces, LE, U16le, U32le;
    if arg >= 2 { U16leInNumbers(fw, at); }
  }

  lemma PlanUnfolds(fw: seq<byte>, off: nat, cal: Option<seq<byte>>, beyond: nat)
    ensures off + 8 > |fw| ==> PlanFrom(fw, off, cal, beyond) == Plan([], 0)
    ensures off + 8 <= |fw| ==>
              var cmd, arg, at := U32le(fw, off), U32le(fw, off + 4), off + 8;
              PlanFrom(fw, off, cal, beyond)
              == if !KnownCommand(fw, at, cmd, arg) then Plan([], -22)
                 else Prepend(CommandPackets(fw, at, cmd, arg, cal, beyond),
                              PlanFrom(fw, CommandEnd(at, cmd, arg), cal, beyond))
  {
    hide U32le, KnownCommand, CommandPackets, CommandEnd, Prepend;
  }
}
