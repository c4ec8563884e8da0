/** assemble.py: patch_initrd, two cells of a flattened devicetree rewritten in place. The token stream is
    the structure block of section 5.4 of the Devicetree Specification v0.4. */
module FdtPatch {
  import opened Bytes

  const MAGIC := 0xd00dfeed
  const BEGIN_NODE := 1
  const END_NODE := 2
  const PROP := 3
  const NOP := 4
  const END := 9

  /** struct.error, ValueError of index, UnicodeDecodeError, IndexError of pop, and the program's own failures. */
  datatype FdtError = StructError | NoTerminator | NotUtf8 | PopEmpty | NoDtb | NotOneCell | BadToken | NotFound

  type Name = seq<byte>

  function Chosen(): seq<Name> {
    [[], [0x63, 0x68, 0x6f, 0x73, 0x65, 0x6e]]
  }

  /** linux,initrd-start */
  function StartName(): Name {
    [0x6c, 0x69, 0x6e, 0x75, 0x78, 0x2c, 0x69, 0x6e, 0x69, 0x74, 0x72, 0x64, 0x2d, 0x73, 0x74, 0x61, 0x72, 0x74]
  }

  /** linux,initrd-end */
  function EndName(): Name {
    [0x6c, 0x69, 0x6e, 0x75, 0x78, 0x2c, 0x69, 0x6e, 0x69, 0x74, 0x72, 0x64, 0x2d, 0x65, 0x6e, 0x64]
  }

  // ---- names ------------------------------------------------------------------------------------

  predicate Within(s: seq<byte>, k: nat, lo: byte, hi: byte) {
    k < |s| && lo <= s[k] <= hi
  }

  /** How many bytes the first character takes, by the well-formed sequences of the Unicode Standard (section 3.9,
      table 3-7); 0 if they are none. */
  function CharLength(s: seq<byte>): (n: nat)
    requires s != []
    ensures n <= |s|
  {
    if s[0] < 0x80 then 1
    else if 0xc2 <= s[0] <= 0xdf && Within(s, 1, 0x80, 0xbf) then 2
    else if && 0xe0 <= s[0] <= 0xef
            && Within(s, 1, if s[0] == 0xe0 then 0xa0 else 0x80, if s[0] == 0xed then 0x9f else 0xbf)
            && Within(s, 2, 0x80, 0xbf) then 3
    else if && 0xf0 <= s[0] <= 0xf4
            && Within(s, 1, if s[0] == 0xf0 then 0x90 else 0x80, if s[0] == 0xf4 then 0x8f else 0xbf)
            && Within(s, 2, 0x80, 0xbf) && Within(s, 3, 0x80, 0xbf) then 4
    else 0
  }

  /** Whether decode() accepts the bytes; what it accepts it maps one to one, so names are compared as bytes. */
  predicate Utf8(s: seq<byte>) {
    s == [] || (CharLength(s) > 0 && Utf8(s[CharLength(s)..]))
  }

  // ---- the walk ---------------------------------------------------------------------------------

  datatype Event =
    | Begin(node: Name)
    | Leave
    | Prop(name: Name, nameAt: nat, at: nat, len: nat)
    | Nop

  /** d.index(0, p) */
  function IndexZero(d: seq<byte>, p: nat): (r: Option<nat>)
    ensures r.Some? ==> p <= r.value < |d| && d[r.value] == 0 && forall i :: p <= i < r.value ==> d[i] != 0
    ensures r.None? ==> forall i :: p <= i < |d| ==> d[i] != 0
    decreases |d| - p
  {
    if p >= |d| then None else if d[p] == 0 then Some(p) else IndexZero(d, p + 1)
  }

  predicate IsInitrd(path: seq<Name>, name: Name) {
    path == Chosen() && (name == StartName() || name == EndName())
  }

  /** One token of the loop. */
  datatype Turn = Halt | Move(event: Event, next: nat, path: seq<Name>) | Fail(error: FdtError)

  function PropTurn(d: seq<byte>, strings: nat, p: nat, path: seq<Name>): (t: Turn)
    requires p + 4 <= |d|
    ensures t.Move? ==> p + 12 <= |d| && t.next >= p + 12
  {
    if p + 12 > |d| then Fail(StructError)
    else
      var len, nameAt := U32be(d, p + 4), strings + U32be(d, p + 8);
      match IndexZero(d, nameAt)
      case None => Fail(NoTerminator)
      case Some(e) =>
        var name := d[nameAt..e];
        if !Utf8(name) then Fail(NotUtf8)
        else if IsInitrd(path, name) && len != 4 then Fail(NotOneCell)
        else Move(Prop(name, nameAt, p + 12, len), Align4(p + 12 + len), path)
  }

  function TurnAt(d: seq<byte>, strings: nat, p: nat, path: seq<Name>): (t: Turn)
    ensures !t.Fail? ==> p + 4 <= |d|
    ensures t.Move? ==> t.next >= p + 4
  {
    if p + 4 > |d| then Fail(StructError)
    else
      var tok := U32be(d, p);
      if tok == BEGIN_NODE then
        match IndexZero(d, p + 4)
        case None => Fail(NoTerminator)
        case Some(e) =>
          var node := d[p + 4..e];
          if Utf8(node) then Move(Begin(node), Align4(e + 1), path + [node]) else Fail(NotUtf8)
      else if tok == END_NODE then
        if path == [] then Fail(PopEmpty) else Move(Leave, p + 4, path[..|path| - 1])
      else if tok == PROP then PropTurn(d, strings, p, path)
      else if tok == NOP then Move(Nop, p + 4, path)
      else if tok == END then Halt
      else Fail(BadToken)
  }

  /** The events from position p on. */
  function Walk(d: seq<byte>, strings: nat, p: nat, path: seq<Name>): Result<seq<Event>, FdtError>
    decreases |d| - p
  {
    match TurnAt(d, strings, p, path)
    case Fail(e) => Err(e)
    case Halt => Ok([])
    case Move(ev, next, path') =>
      match Walk(d, strings, next, path')
      case Err(e) => Err(e)
      case Ok(rest) => Ok([ev] + rest)
  }

  /** The node one is in after an event. */
  function After(path: seq<Name>, ev: Event): seq<Name> {
    match ev
    case Begin(node) => path + [node]
    case Leave => if path == [] then [] else path[..|path| - 1]
    case Prop(_, _, _, _) => path
    case Nop => path
  }

  function PathOf(evs: seq<Event>): seq<Name> {
    if evs == [] then [] else After(PathOf(evs[..|evs| - 1]), evs[|evs| - 1])
  }

  datatype Found = Found(start: Option<nat>, end: Option<nat>)

  function Note(f: Found, path: seq<Name>, ev: Event): Found {
    if ev.Prop? && path == Chosen() && ev.name == StartName() then f.(start := Some(ev.at))
    else if ev.Prop? && path == Chosen() && ev.name == EndName() then f.(end := Some(ev.at))
    else f
  }

  /** The dictionary found after these events. */
  function Collect(evs: seq<Event>): Found {
    if evs == [] then Found(None, None)
    else var before := evs[..|evs| - 1]; Note(Collect(before), PathOf(before), evs[|evs| - 1])
  }

  // ---- the program ------------------------------------------------------------------------------

  function Scan(d: seq<byte>): Result<seq<Event>, FdtError> {
    if |d| < 16 then Err(StructError)
    else if U32be(d, 0) != MAGIC then Err(NoDtb)
    else Walk(d, U32be(d, 12), U32be(d, 8), [])
  }

  function Write32(d: seq<byte>, at: nat, v: nat): (d': seq<byte>)
    requires at + 4 <= |d|
    ensures |d'| == |d| && d'[at..at + 4] == ToBE(v, 4)
    ensures forall i :: 0 <= i < |d| && !(at <= i < at + 4) ==> d'[i] == d[i]
  {
    d[..at] + ToBE(v, 4) + d[at + 4..]
  }

  /** The blob afterwards, and the error if there was one. */
  datatype Outcome = Outcome(blob: seq<byte>, problem: Option<FdtError>)

  function Patched(d: seq<byte>, start: nat, end: nat): Outcome {
    match Scan(d)
    case Err(e) => Outcome(d, Some(e))
    case Ok(evs) =>
      var f := Collect(evs);
      if f.start.None? || f.end.None? then Outcome(d, Some(NotFound))
      else if !Fits32(start) then Outcome(d, Some(StructError))
      else
        FoundInside(d, evs);
        var d1 := Write32(d, f.start.value, start);
        if !Fits32(end) then Outcome(d1, Some(StructError)) else Outcome(Write32(d1, f.end.value, end), None)
  }

  method Pack(dtb: array<byte>, at: nat, v: nat)
    requires at + 4 <= dtb.Length
    modifies dtb
    ensures dtb[..] == Write32(old(dtb[..]), at, v)
  {
    hide ToBE;
    var b := ToBE(v, 4);
    for k := 0 to 4
      invariant forall i :: 0 <= i < dtb.Length && !(at <= i < at + k) ==> dtb[i] == old(dtb[i])
      invariant forall i :: 0 <= i < k ==> dtb[at + i] == b[i]
    {
      dtb[at + k] := b[k];
    }
    ghost var d' := Write32(old(dtb[..]), at, v);
    forall i | at <= i < at + 4 ensures dtb[i] == d'[i] {
      assert d'[i] == d'[at..at + 4][i - at];
      assert dtb[at + (i - at)] == b[i - at];
    }
  }

  lemma CollectSnoc(evs: seq<Event>, ev: Event)
    ensures Collect(evs + [ev]) == Note(Collect(evs), PathOf(evs), ev)
    ensures PathOf(evs + [ev]) == After(PathOf(evs), ev)
  {
    hide Note, After;
    assert (evs + [ev])[..|evs|] == evs;
  }

  lemma TurnPath(d: seq<byte>, strings: nat, p: nat, path: seq<Name>)
    ensures var t := TurnAt(d, strings, p, path); t.Move? ==> t.path == After(path, t.event)
  {
    hide U32be, IsInitrd;
  }

  /** The token loop. */
  method Find(d: seq<byte>, strings: nat, from: nat) returns (r: Result<Found, FdtError>)
    ensures r == match Walk(d, strings, from, []) case Err(e) => Err(e) case Ok(evs) => Ok(Collect(evs))
  {
    hide TurnAt, Collect, PathOf, Note;
    ghost var whole := Walk(d, strings, from, []);
    ghost var done: seq<Event> := [];
    var p, path, found := from, [], Found(None, None);
    EmptyCollect();
    if whole.Ok? { assert [] + whole.value == whole.value; }
    while true
      invariant path == PathOf(done) && found == Collect(done)
      invariant match Walk(d, strings, p, path)
                case Err(e) => whole == Err(e)
                case Ok(rest) => whole == Ok(done + rest)
      decreases |d| - p
    {
      var t := TurnAt(d, strings, p, path);
      if t.Fail? { return Err(t.error); }
      if t.Halt? {
        assert done + [] == done;
        return Ok(found);
      }
      CollectSnoc(done, t.event);
      TurnPath(d, strings, p, path);
      ghost var rest := Walk(d, strings, t.next, t.path);
      if rest.Ok? { assert done + ([t.event] + rest.value) == done + [t.event] + rest.value; }
      found := Note(found, path, t.event);
      p, path, done := t.next, t.path, done + [t.event];
    }
  }

  lemma EmptyCollect()
    ensures Collect([]) == Found(None, None) && PathOf([]) == []
  {
  }

  method PatchInitrd(dtb: array<byte>, start: nat, end: nat) returns (problem: Option<FdtError>)
    modifies dtb
    ensures Patched(old(dtb[..]), start, end) == Outcome(dtb[..], problem)
  {
    hide Walk, Collect, Write32;
    ghost var d := dtb[..];
    if dtb.Length < 16 { return Some(StructError); }
    if U32be(dtb[..], 0) != MAGIC { return Some(NoDtb); }
    var found := Find(dtb[..], U32be(dtb[..], 12), U32be(dtb[..], 8));
    if found.Err? { return Some(found.error); }
    if found.value.start.None? || found.value.end.None? { return Some(NotFound); }
    if !Fits32(start) { return Some(StructError); }
    FoundInside(d, Scan(d).value);
    Pack(dtb, found.value.start.value, start);
    if !Fits32(end) { return Some(StructError); }
    Pack(dtb, found.value.end.value, end);
    problem := None;
  }

  // ---- where things lie -------------------------------------------------------------------------

  /** Every property value of a finished walk is inside the blob, behind what was read to find it, and the
      values come one after the other; in /chosen the two cells are four bytes long. */
  ghost predicate Placed(d: seq<byte>, p: nat, evs: seq<Event>) {
    && (forall k :: 0 <= k < |evs| && evs[k].Prop? ==> p + 12 <= evs[k].at && evs[k].at + evs[k].len <= |d|)
    && forall j, k :: 0 <= j < k < |evs| && evs[j].Prop? && evs[k].Prop? ==> evs[j].at + evs[j].len + 12 <= evs[k].at
  }

  lemma PropPlace(d: seq<byte>, strings: nat, p: nat, path: seq<Name>)
    ensures var t := TurnAt(d, strings, p, path);
            t.Move? && t.event.Prop? ==> t.event.at == p + 12 && t.event.at + t.event.len <= t.next
  {
    hide U32be, IsInitrd;
  }

  lemma HaltInside(d: seq<byte>, strings: nat, p: nat, path: seq<Name>)
    requires Walk(d, strings, p, path).Ok?
    ensures p + 4 <= |d|
  {
    hide TurnAt;
  }

  lemma {:induction false} WalkPlaces(d: seq<byte>, strings: nat, p: nat, path: seq<Name>)
    requires Walk(d, strings, p, path).Ok?
    ensures Placed(d, p, Walk(d, strings, p, path).value)
    decreases |d| - p
  {
    hide TurnAt;
    var t := TurnAt(d, strings, p, path);
    if t.Move? {
      WalkPlaces(d, strings, t.next, t.path);
      PropPlace(d, strings, p, path);
      HaltInside(d, strings, t.next, t.path);
      PlacedCons(d, p, t.event, t.next, Walk(d, strings, t.next, t.path).value);
    }
  }

  lemma PlacedCons(d: seq<byte>, p: nat, ev: Event, next: nat, rest: seq<Event>)
    requires Placed(d, next, rest) && p <= next <= |d|
    requires ev.Prop? ==> ev.at == p + 12 && ev.at + ev.len <= next
    ensures Placed(d, p, [ev] + rest)
  {
    var evs := [ev] + rest;
    forall k | 0 <= k < |evs| && evs[k].Prop?
      ensures p + 12 <= evs[k].at && evs[k].at + evs[k].len <= |d|
      ensures k > 0 && ev.Prop? ==> ev.at + ev.len + 12 <= evs[k].at
    {
      if k > 0 { assert evs[k] == rest[k - 1]; }
    }
    forall j, k | 0 < j < k < |evs| && evs[j].Prop? && evs[k].Prop?
      ensures evs[j].at + evs[j].len + 12 <= evs[k].at
    {
      assert evs[j] == rest[j - 1] && evs[k] == rest[k - 1];
    }
  }

  /** The event is the property of this name in /chosen. */
  ghost predicate Sets(evs: seq<Event>, k: nat, name: Name)
    requires k < |evs|
  {
    evs[k].Prop? && PathOf(evs[..k]) == Chosen() && evs[k].name == name
  }

  predicate IsAt(ev: Event, at: nat) {
    ev.Prop? && ev.at == at
  }

  /** The offset found for a name is that of the last such property in /chosen. */
  ghost predicate IsLastOf(evs: seq<Event>, name: Name, at: Option<nat>) {
    match at
    case None => forall k :: 0 <= k < |evs| ==> !Sets(evs, k, name)
    case Some(a) => exists k :: 0 <= k < |evs| && IsAt(evs[k], a) && Sets(evs, k, name) && NoneAfter(evs, k, name)
  }

  ghost predicate NoneAfter(evs: seq<Event>, k: nat, name: Name) {
    forall j :: k < j < |evs| ==> !Sets(evs, j, name)
  }

  lemma SetsSnoc(evs: seq<Event>, ev: Event, k: nat, name: Name)
    requires k <= |evs|
    ensures Sets(evs + [ev], k, name) <==>
            if k < |evs| then Sets(evs, k, name) else ev.Prop? && PathOf(evs) == Chosen() && ev.name == name
  {
    hide PathOf;
    assert (evs + [ev])[..k] == evs[..k];
    assert evs[..|evs|] == evs;
  }

  lemma IsLastSnoc(evs: seq<Event>, ev: Event, name: Name, at: Option<nat>)
    requires IsLastOf(evs, name, at)
    ensures IsLastOf(evs + [ev], name,
                     if ev.Prop? && PathOf(evs) == Chosen() && ev.name == name then Some(ev.at) else at)
  {
    hide Sets, PathOf;
    var evs' := evs + [ev];
    forall k: nat | k <= |evs|
      ensures Sets(evs', k, name) <==>
              if k < |evs| then Sets(evs, k, name) else ev.Prop? && PathOf(evs) == Chosen() && ev.name == name
    {
      SetsSnoc(evs, ev, k, name);
    }
    if ev.Prop? && PathOf(evs) == Chosen() && ev.name == name {
      assert IsAt(evs'[|evs|], ev.at) && Sets(evs', |evs|, name) && NoneAfter(evs', |evs|, name);
    } else if at.Some? {
      var k :| 0 <= k < |evs| && IsAt(evs[k], at.value) && Sets(evs, k, name) && NoneAfter(evs, k, name);
      assert IsAt(evs'[k], at.value) && NoneAfter(evs', k, name);
    }
  }

  lemma {:induction false} FoundIsLast(evs: seq<Event>)
    ensures IsLastOf(evs, StartName(), Collect(evs).start) && IsLastOf(evs, EndName(), Collect(evs).end)
    decreases |evs|
  {
    if evs != [] {
      var before, ev := evs[..|evs| - 1], evs[|evs| - 1];
      assert evs == before + [ev];
      assert StartName() != EndName();
      FoundIsLast(before);
      hide IsLastOf, PathOf, StartName, EndName, Chosen;
      IsLastSnoc(before, ev, StartName(), Collect(before).start);
      IsLastSnoc(before, ev, EndName(), Collect(before).end);
    }
  }

  lemma InitrdIsCell(d: seq<byte>, strings: nat, p: nat, path: seq<Name>)
    ensures var t := TurnAt(d, strings, p, path);
            t.Move? && t.event.Prop? && IsInitrd(path, t.event.name) ==> t.event.len == 4
  {
    hide U32be, IsInitrd;
  }

  /** The path the walk carries is the path of the events so far, so every initrd property is one cell. */
  lemma {:induction false} CellsAreFour(d: seq<byte>, strings: nat, p: nat, before: seq<Event>, k: nat)
    requires var w := Walk(d, strings, p, PathOf(before)); w.Ok? && k < |w.value|
    ensures var evs := Walk(d, strings, p, PathOf(before)).value;
            evs[k].Prop? && IsInitrd(PathOf(before + evs[..k]), evs[k].name) ==> evs[k].len == 4
    decreases |d| - p
  {
    hide TurnAt, PathOf, IsInitrd, Collect;
    var t := TurnAt(d, strings, p, PathOf(before));
    if t.Move? {
      var evs := Walk(d, strings, p, PathOf(before)).value;
      if k == 0 {
        assert before + evs[..0] == before;
        InitrdIsCell(d, strings, p, PathOf(before));
      } else {
        TurnPath(d, strings, p, PathOf(before));
        CollectSnoc(before, t.event);
        CellsAreFour(d, strings, t.next, before + [t.event], k - 1);
        assert before + evs[..k] == before + [t.event] + evs[1..][..k - 1];
      }
    }
  }

  lemma CellInside(d: seq<byte>, evs: seq<Event>, name: Name, at: Option<nat>)
    requires Scan(d) == Ok(evs) && (name == StartName() || name == EndName())
    requires at.Some? && IsLastOf(evs, name, at)
    ensures at.value + 4 <= |d|
    ensures exists k :: 0 <= k < |evs| && IsAt(evs[k], at.value) && Sets(evs, k, name) && evs[k].len == 4
  {
    hide Walk, PathOf, StartName, EndName, Chosen, U32be;
    var k :| 0 <= k < |evs| && IsAt(evs[k], at.value) && Sets(evs, k, name);
    EmptyCollect();
    WalkPlaces(d, U32be(d, 12), U32be(d, 8), []);
    CellsAreFour(d, U32be(d, 12), U32be(d, 8), [], k);
    assert [] + evs[..k] == evs[..k];
  }

  /** So neither write of the two cells can fall outside the blob. */
  lemma FoundInside(d: seq<byte>, evs: seq<Event>)
    requires Scan(d) == Ok(evs)
    ensures var f := Collect(evs);
            && (f.start.Some? ==> f.start.value + 4 <= |d|)
            && (f.end.Some? ==> f.end.value + 4 <= |d|)
  {
    hide *;
    FoundIsLast(evs);
    var f := Collect(evs);
    if f.start.Some? { CellInside(d, evs, StartName(), f.start); }
    if f.end.Some? { CellInside(d, evs, EndName(), f.end); }
  }
}
