/** repair_lzss_img4.repair: the compression record is cut out of the IM4P, and nothing else changes. */
module Img4Repair {
  import opened Bytes
  import opened DerItems

  const IMG4: seq<byte> := [0x49, 0x4D, 0x47, 0x34]
  const IM4P: seq<byte> := [0x49, 0x4D, 0x34, 0x50]
  const COMPLZSS: seq<byte> := [0x63, 0x6F, 0x6D, 0x70, 0x6C, 0x7A, 0x73, 0x73]

  type Repaired = Result<seq<byte>, DerError>

  /** The checks on the outer items: None if they pass. */
  function OuterProblem(outer: seq<Child>): Option<DerError> {
    if |outer| < 1 then Some(IndexError)
    else if outer[0].tag != 0x16 || outer[0].body != IMG4 then Some(NotImg4)
    else if |outer| < 2 then Some(IndexError)
    else if outer[1].tag != 0x30 then Some(NotImg4)
    else None
  }

  /** The checks on the IM4P's fields. */
  function PayloadProblem(payload: seq<Child>): Option<DerError> {
    if |payload| != 5 || payload[0].tag != 0x16 || payload[0].body != IM4P then Some(NotFourFieldsAndRecord)
    else if payload[3].tag != 4 || !(COMPLZSS <= payload[3].body) then Some(NotLzss)
    else if payload[4].tag != 0x30 then Some(NoCompressionSequence)
    else None
  }

  /** The checks on the compression record against the compressed payload's own header. */
  function RecordProblem(record: seq<Child>, compressed: seq<byte>): Option<DerError> {
    if |record| != 2 || record[0].tag != 2 || record[1].tag != 2 then Some(BadRecord)
    else if BE(record[0].body) != 0 then Some(NotLzssEnum)
    else if BE(record[1].body) != BE(Slice(compressed, 12, 16)) then Some(SizeMismatch)
    else None
  }

  /** The output for accepted input, before the two closing assertions. */
  function Rebuilt(outer: seq<Child>, payload: seq<Child>): Repaired
    requires |outer| >= 2 && |payload| == 5
  {
    match Sequence(Encoded(payload[..4]))
    case Err(e) => Err(e)
    case Ok(newPayload) => Sequence(outer[0].enc + newPayload + Encoded(outer[2..]))
  }

  /** The two assertions: the output parses to the kept fields and the kept outer items. */
  function ClosingChecks(result: seq<byte>, outer: seq<Child>, payload: seq<Child>): Repaired
    requires |outer| >= 2 && |payload| == 5
  {
    match ItemAt(result, 0)
    case Err(e) => Err(e)
    case Ok(it) =>
      match Children(it.child.body)
      case Err(e) => Err(e)
      case Ok(newOuter) =>
        if |newOuter| < 2 then Err(IndexError)
        else
          match Children(newOuter[1].body)
          case Err(e) => Err(e)
          case Ok(newParts) =>
            if newParts != payload[..4] || newOuter[0] != outer[0] || newOuter[2..] != outer[2..]
            then Err(AssertionFailed)
            else Ok(result)
  }

  datatype Accepted = Accepted(outer: seq<Child>, payload: seq<Child>)

  /** Everything up to the surgery: the parsed parts, or why the input is refused. */
  function Accept(data: seq<byte>): Result<Accepted, DerError> {
    match ItemAt(data, 0)
    case Err(e) => Err(e)
    case Ok(it) =>
      if it.child.tag != 0x30 || it.end != |data| then Err(NotOneSequence)
      else
        match Children(it.child.body)
        case Err(e) => Err(e)
        case Ok(outer) =>
          if OuterProblem(outer).Some? then Err(OuterProblem(outer).value)
          else
            match Children(outer[1].body)
            case Err(e) => Err(e)
            case Ok(payload) =>
              if PayloadProblem(payload).Some? then Err(PayloadProblem(payload).value)
              else
                match Children(payload[4].body)
                case Err(e) => Err(e)
                case Ok(record) =>
                  match RecordProblem(record, payload[3].body)
                  case Some(e) => Err(e)
                  case None => Ok(Accepted(outer, payload))
  }

  function RepairSpec(data: seq<byte>): Repaired {
    match Accept(data)
    case Err(e) => Err(e)
    case Ok(a) =>
      match Rebuilt(a.outer, a.payload)
      case Err(e) => Err(e)
      case Ok(result) => ClosingChecks(result, a.outer, a.payload)
  }

  method ReadParts(data: seq<byte>) returns (r: Result<Accepted, DerError>)
    ensures r == Accept(data)
  {
    hide ItemAt, Children;
    var it := ReadItem(data, 0);
    if it.Err? { return Err(it.error); }
    if it.value.child.tag != 0x30 || it.value.end != |data| { return Err(NotOneSequence); }
    var outer := ReadChildren(it.value.child.body);
    if outer.Err? { return Err(outer.error); }
    var problem := OuterProblem(outer.value);
    if problem.Some? { return Err(problem.value); }
    var payload := ReadChildren(outer.value[1].body);
    if payload.Err? { return Err(payload.error); }
    problem := PayloadProblem(payload.value);
    if problem.Some? { return Err(problem.value); }
    var record := ReadChildren(payload.value[4].body);
    if record.Err? { return Err(record.error); }
    problem := RecordProblem(record.value, payload.value[3].body);
    if problem.Some? { return Err(problem.value); }
    r := Ok(Accepted(outer.value, payload.value));
  }

  method Check(result: seq<byte>, outer: seq<Child>, payload: seq<Child>) returns (r: Repaired)
    requires |outer| >= 2 && |payload| == 5
    ensures r == ClosingChecks(result, outer, payload)
  {
    hide ItemAt, Children;
    var it := ReadItem(result, 0);
    if it.Err? { return Err(it.error); }
    var newOuter := ReadChildren(it.value.child.body);
    if newOuter.Err? { return Err(newOuter.error); }
    if |newOuter.value| < 2 { return Err(IndexError); }
    var newParts := ReadChildren(newOuter.value[1].body);
    if newParts.Err? { return Err(newParts.error); }
    if newParts.value != payload[..4] || newOuter.value[0] != outer[0] || newOuter.value[2..] != outer[2..] {
      return Err(AssertionFailed);
    }
    r := Ok(result);
  }

  method Repair(data: seq<byte>) returns (r: Repaired)
    ensures r == RepairSpec(data)
  {
    hide Accept, Rebuilt, ClosingChecks;
    var parts := ReadParts(data);
    if parts.Err? { return Err(parts.error); }
    PartsShape(data);
    var result := Rebuilt(parts.value.outer, parts.value.payload);
    if result.Err? { return result; }
    r := Check(result.value, parts.value.outer, parts.value.payload);
  }

  lemma PartsShape(data: seq<byte>)
    requires Accept(data).Ok?
    ensures |Accept(data).value.outer| >= 2 && |Accept(data).value.payload| == 5
  {
    hide ItemAt, Children;
  }

  // ---- what an accepted input looks like --------------------------------------------------------

  /** data is one SEQUENCE of the outer items, and the second of them is a SEQUENCE of the payload fields. */
  ghost predicate Img4Of(data: seq<byte>, outer: seq<Child>, payload: seq<Child>) {
    && |outer| >= 2 && AllWhole(outer) && AllWhole(payload)
    && outer[1].tag == 0x30 && outer[1].body == Encoded(payload)
    && Whole(Child(0x30, Encoded(outer), data))
  }

  lemma AcceptedIsImg4(data: seq<byte>)
    requires Accept(data).Ok?
    ensures var a := Accept(data).value; Img4Of(data, a.outer, a.payload) && |a.payload| == 5
  {
    var it := ItemAt(data, 0).value;
    var a := Accept(data).value;
    ItemIsWhole(data, 0);
    assert it.child.enc == data;
    assert Children(it.child.body) == Ok(a.outer) && Children(a.outer[1].body) == Ok(a.payload);
    assert a.outer[1].tag == 0x30 && it.child.tag == 0x30 && |a.payload| == 5;
    hide ItemAt, Children, Accept, Whole;
    EncodedOfChildren(it.child.body);
    EncodedOfChildren(a.outer[1].body);
    assert it.child == Child(0x30, Encoded(a.outer), data);
  }

  /** The IM4P without its fifth field. */
  function Trimmed(payload: seq<Child>): Child
    requires |payload| == 5 && Sequence(Encoded(payload[..4])).Ok?
  {
    Child(0x30, Encoded(payload[..4]), Sequence(Encoded(payload[..4])).value)
  }

  lemma TrimmedIsSmaller(outer: seq<Child>, payload: seq<Child>)
    requires AllWhole(outer) && AllWhole(payload) && |outer| >= 2 && |payload| == 5
    requires outer[1].body == Encoded(payload)
    ensures Sequence(Encoded(payload[..4])).Ok?
    ensures Whole(Trimmed(payload)) && |Trimmed(payload).enc| < |outer[1].enc|
  {
    assert payload == payload[..4] + [payload[4]];
    EncodedConcat(payload[..4], [payload[4]]);
    assert Encoded([payload[4]]) == payload[4].enc + Encoded([payload[4]][1..]);
    assert payload[4] in payload && Whole(payload[4]);
    assert |payload[4].enc| > 0;
    assert outer[1] in outer && Whole(outer[1]);
    hide Whole, Sequence;
    SequenceIsMinimal(Encoded(payload[..4]), outer[1]);
    SequenceRoundTrip(Encoded(payload[..4]));
  }

  lemma OuterPieces(outer: seq<Child>, mid: Child)
    requires |outer| >= 2
    ensures Encoded([outer[0], mid] + outer[2..]) == outer[0].enc + mid.enc + Encoded(outer[2..])
  {
    var cs := [outer[0], mid] + outer[2..];
    assert cs[1..][1..] == outer[2..];
    assert Encoded(cs) == outer[0].enc + (mid.enc + Encoded(outer[2..]));
  }

  /** For accepted input the rebuilt output is the same IMG4 with the fifth IM4P field gone: the outer
      items and the four fields are the very same encodings, and the output is shorter. */
  lemma RebuiltIsImg4(data: seq<byte>, outer: seq<Child>, payload: seq<Child>)
    requires Img4Of(data, outer, payload) && |payload| == 5
    ensures Sequence(Encoded(payload[..4])).Ok? && Rebuilt(outer, payload).Ok?
    ensures var result := Rebuilt(outer, payload).value;
            Img4Of(result, [outer[0], Trimmed(payload)] + outer[2..], payload[..4]) && |result| < |data|
  {
    TrimmedIsSmaller(outer, payload);
    var mid := Trimmed(payload);
    var kept := [outer[0], mid] + outer[2..];
    OuterPieces(outer, mid);
    OuterPieces(outer, outer[1]);
    assert [outer[0], outer[1]] + outer[2..] == outer;
    var whole := Child(0x30, Encoded(outer), data);
    forall c | c in kept ensures Whole(c) {
      if c != mid { assert c in outer; }
    }
    forall c | c in payload[..4] ensures Whole(c) { assert c in payload; }
    hide Whole, Sequence, Encoded;
    SequenceIsMinimal(Encoded(kept), whole);
    SequenceRoundTrip(Encoded(kept));
  }

  /** So the closing assertions never fail and every accepted input is repaired. */
  lemma ClosingChecksPass(outer: seq<Child>, payload: seq<Child>, result: seq<byte>, kept: seq<Child>)
    requires |outer| >= 2 && |payload| == 5 && |kept| >= 2
    requires Img4Of(result, kept, payload[..4]) && kept[0] == outer[0] && kept[2..] == outer[2..]
    ensures ClosingChecks(result, outer, payload) == Ok(result)
  {
    ChildrenOfEncoded(kept);
    ChildrenOfEncoded(payload[..4]);
    hide Children, Encoded;
    assert ItemAt(result, 0) == Ok(Item(Child(0x30, Encoded(kept), result), |result|));
  }

  /** The main result, for every input: repair either refuses it before touching anything, or returns the
      same IMG4 without the fifth IM4P field. */
  lemma RepairRemovesOnlyTheRecord(data: seq<byte>)
    ensures match Accept(data)
            case Err(e) => RepairSpec(data) == Err(e)
            case Ok(a) =>
              && Img4Of(data, a.outer, a.payload) && |a.payload| == 5
              && RepairSpec(data).Ok?
              && Sequence(Encoded(a.payload[..4])).Ok?
              && Img4Of(RepairSpec(data).value, [a.outer[0], Trimmed(a.payload)] + a.outer[2..], a.payload[..4])
              && |RepairSpec(data).value| < |data|
  {
    hide Accept, Rebuilt, ClosingChecks, Img4Of, Sequence;
    if Accept(data).Ok? {
      var a := Accept(data).value;
      AcceptedIsImg4(data);
      ShapeOf(data, a);
      RebuiltIsImg4(data, a.outer, a.payload);
      var kept := [a.outer[0], Trimmed(a.payload)] + a.outer[2..];
      assert kept[2..] == a.outer[2..];
      ClosingChecksPass(a.outer, a.payload, Rebuilt(a.outer, a.payload).value, kept);
    }
  }

  lemma ShapeOf(data: seq<byte>, a: Accepted)
    requires Accept(data) == Ok(a)
    ensures |a.outer| >= 2 && |a.payload| == 5
  {
    PartsShape(data);
  }

  /** What is already repaired is refused. */
  lemma RepairedIsRefused(data: seq<byte>)
    requires RepairSpec(data).Ok?
    ensures RepairSpec(RepairSpec(data).value) == Err(NotFourFieldsAndRecord)
  {
    RepairRemovesOnlyTheRecord(data);
    var a := Accept(data).value;
    var result := RepairSpec(data).value;
    var kept := [a.outer[0], Trimmed(a.payload)] + a.outer[2..];
    assert a.outer[0].tag == 0x16 && a.outer[0].body == IMG4 by { FirstIsImg4(data); }
    ChildrenOfEncoded(kept);
    ChildrenOfEncoded(a.payload[..4]);
    hide Children, Encoded, RepairSpec;
    assert ItemAt(result, 0) == Ok(Item(Child(0x30, Encoded(kept), result), |result|));
    assert Accept(result) == Err(NotFourFieldsAndRecord);
    RepairRemovesOnlyTheRecord(result);
  }

  lemma FirstIsImg4(data: seq<byte>)
    requires Accept(data).Ok?
    ensures var o := Accept(data).value.outer; |o| >= 2 && o[0].tag == 0x16 && o[0].body == IMG4
  {
    hide ItemAt, Children;
  }
}
