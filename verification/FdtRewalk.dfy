/** patch_initrd changes eight bytes at most, and a walk of its result meets the same tree. */
module FdtRewalk {
  import opened Bytes
  import opened FdtPatch

  /** lo..hi has no byte of the cell at a. */
  predicate Clear(lo: nat, hi: nat, a: nat) {
    hi <= a || a + 4 <= lo
  }

  /** The two blobs differ in the cells at a and b only. */
  ghost predicate AgreesOff(d: seq<byte>, d': seq<byte>, a: nat, b: nat) {
    |d| == |d'| && forall i :: 0 <= i < |d| && !(a <= i < a + 4) && !(b <= i < b + 4) ==> d'[i] == d[i]
  }

  lemma SliceSame(d: seq<byte>, d': seq<byte>, a: nat, b: nat, lo: nat, hi: nat)
    requires AgreesOff(d, d', a, b) && lo <= hi <= |d| && Clear(lo, hi, a) && Clear(lo, hi, b)
    ensures d'[lo..hi] == d[lo..hi]
  {
  }

  lemma U32Same(d: seq<byte>, d': seq<byte>, a: nat, b: nat, p: nat)
    requires AgreesOff(d, d', a, b) && p + 4 <= |d| && Clear(p, p + 4, a) && Clear(p, p + 4, b)
    ensures U32be(d', p) == U32be(d, p)
  {
    SliceSame(d, d', a, b, p, p + 4);
  }

  lemma {:induction false} IndexSame(d: seq<byte>, d': seq<byte>, a: nat, b: nat, p: nat, e: nat)
    requires AgreesOff(d, d', a, b) && IndexZero(d, p) == Some(e) && Clear(p, e + 1, a) && Clear(p, e + 1, b)
    ensures IndexZero(d', p) == Some(e)
    decreases |d| - p
  {
    if d[p] != 0 { IndexSame(d, d', a, b, p + 1, e); }
  }

  // ---- one token --------------------------------------------------------------------------------

  /** What the event's token took is clear of the cell at a. */
  predicate TurnClear(p: nat, t: Turn, a: nat) {
    if t.Move? && t.event.Begin? then Clear(p, p + 5 + |t.event.node|, a)
    else if t.Move? && t.event.Prop? then
      Clear(p, p + 12, a) && Clear(t.event.nameAt, t.event.nameAt + |t.event.name| + 1, a)
    else Clear(p, p + 4, a)
  }

  lemma PropSame(d: seq<byte>, d': seq<byte>, a: nat, b: nat, strings: nat, p: nat, path: seq<Name>)
    requires AgreesOff(d, d', a, b) && p + 4 <= |d| && PropTurn(d, strings, p, path).Move?
    requires var t := PropTurn(d, strings, p, path); TurnClear(p, t, a) && TurnClear(p, t, b)
    ensures PropTurn(d', strings, p, path) == PropTurn(d, strings, p, path)
  {
    hide U32be, AgreesOff, IsInitrd, IndexZero;
    U32Same(d, d', a, b, p + 4);
    U32Same(d, d', a, b, p + 8);
    assert |d| == |d'| by { SameLength(d, d', a, b); }
    var nameAt := strings + U32be(d, p + 8);
    var e := IndexZero(d, nameAt).value;
    IndexSame(d, d', a, b, nameAt, e);
    SliceSame(d, d', a, b, nameAt, e);
  }

  lemma SameLength(d: seq<byte>, d': seq<byte>, a: nat, b: nat)
    requires AgreesOff(d, d', a, b)
    ensures |d| == |d'|
  {
  }

  lemma PropTurnIsProp(d: seq<byte>, strings: nat, p: nat, path: seq<Name>)
    requires p + 4 <= |d|
    ensures !PropTurn(d, strings, p, path).Halt?
    ensures PropTurn(d, strings, p, path).Move? ==> PropTurn(d, strings, p, path).event.Prop?
  {
    hide U32be, IsInitrd;
  }

  lemma TurnSame(d: seq<byte>, d': seq<byte>, a: nat, b: nat, strings: nat, p: nat, path: seq<Name>)
    requires AgreesOff(d, d', a, b) && !TurnAt(d, strings, p, path).Fail?
    requires var t := TurnAt(d, strings, p, path); TurnClear(p, t, a) && TurnClear(p, t, b)
    ensures TurnAt(d', strings, p, path) == TurnAt(d, strings, p, path)
  {
    hide U32be, AgreesOff, PropTurn, IndexZero;
    SameLength(d, d', a, b);
    PropTurnIsProp(d, strings, p, path);
    U32Same(d, d', a, b, p);
    if U32be(d, p) == PROP {
      PropSame(d, d', a, b, strings, p, path);
    } else if U32be(d, p) == BEGIN_NODE {
      var e := IndexZero(d, p + 4).value;
      IndexSame(d, d', a, b, p + 4, e);
      SliceSame(d, d', a, b, p + 4, e);
    }
  }

  // ---- the walk ---------------------------------------------------------------------------------

  /** No property's name overlaps the cell at a, as when the strings block lies elsewhere. */
  ghost predicate NamesClear(evs: seq<Event>, a: nat) {
    forall k :: 0 <= k < |evs| && evs[k].Prop? ==> Clear(evs[k].nameAt, evs[k].nameAt + |evs[k].name| + 1, a)
  }

  /** The cell at a is the value of one of the properties. */
  ghost predicate HoldsCell(evs: seq<Event>, a: nat) {
    exists k :: 0 <= k < |evs| && IsAt(evs[k], a) && evs[k].len == 4
  }

  /** The cell at a is behind position p or still ahead. */
  ghost predicate CellSeen(p: nat, evs: seq<Event>, a: nat) {
    a + 4 <= p || HoldsCell(evs, a)
  }

  lemma TurnExtent(d: seq<byte>, strings: nat, p: nat, path: seq<Name>)
    ensures var t := TurnAt(d, strings, p, path);
            t.Move? ==> p + 4 <= t.next && (t.event.Begin? ==> p + 5 + |t.event.node| <= t.next) &&
                        (t.event.Prop? ==> t.event.at == p + 12 && t.event.at + t.event.len <= t.next)
  {
    hide U32be, IsInitrd;
  }

  lemma NamesTail(ev: Event, rest: seq<Event>, a: nat)
    requires NamesClear([ev] + rest, a)
    ensures ev.Prop? ==> Clear(ev.nameAt, ev.nameAt + |ev.name| + 1, a)
    ensures NamesClear(rest, a)
  {
    hide Clear;
    assert ([ev] + rest)[0] == ev;
    assert forall k :: 0 <= k < |rest| ==> rest[k] == ([ev] + rest)[k + 1];
  }

  lemma CellTail(ev: Event, rest: seq<Event>, a: nat)
    requires HoldsCell([ev] + rest, a)
    ensures (IsAt(ev, a) && ev.len == 4) || HoldsCell(rest, a)
  {
    var evs := [ev] + rest;
    var k :| 0 <= k < |evs| && IsAt(evs[k], a) && evs[k].len == 4;
    if k > 0 { assert IsAt(rest[k - 1], a); }
  }

  lemma CellPlaced(d: seq<byte>, p: nat, evs: seq<Event>, a: nat)
    requires Placed(d, p, evs) && HoldsCell(evs, a)
    ensures p + 12 <= a
  {
  }

  lemma StepClear(d: seq<byte>, strings: nat, p: nat, path: seq<Name>, rest: seq<Event>, a: nat)
    requires var t := TurnAt(d, strings, p, path);
             t.Move? && Placed(d, t.next, rest) && NamesClear([t.event] + rest, a) && CellSeen(p, [t.event] + rest, a)
    ensures var t := TurnAt(d, strings, p, path);
            TurnClear(p, t, a) && CellSeen(t.next, rest, a) && NamesClear(rest, a)
  {
    hide TurnAt, NamesClear, HoldsCell, Placed;
    TurnExtent(d, strings, p, path);
    var t := TurnAt(d, strings, p, path);
    NamesTail(t.event, rest, a);
    if a + 4 > p {
      CellTail(t.event, rest, a);
      if HoldsCell(rest, a) { CellPlaced(d, t.next, rest, a); }
    }
  }

  lemma {:induction false} WalkSame(d: seq<byte>, d': seq<byte>, a: nat, b: nat, strings: nat, p: nat, path: seq<Name>)
    requires AgreesOff(d, d', a, b) && Walk(d, strings, p, path).Ok?
    requires var evs := Walk(d, strings, p, path).value;
             NamesClear(evs, a) && NamesClear(evs, b) && CellSeen(p, evs, a) && CellSeen(p, evs, b)
    ensures Walk(d', strings, p, path) == Walk(d, strings, p, path)
    decreases |d| - p
  {
    hide TurnAt, AgreesOff, NamesClear, Placed;
    var t := TurnAt(d, strings, p, path);
    if t.Move? {
      hide CellSeen, TurnClear;
      var rest := Walk(d, strings, t.next, t.path).value;
      WalkPlaces(d, strings, t.next, t.path);
      StepClear(d, strings, p, path, rest, a);
      StepClear(d, strings, p, path, rest, b);
      TurnSame(d, d', a, b, strings, p, path);
      WalkSame(d, d', a, b, strings, t.next, t.path);
    } else {
      TurnSame(d, d', a, b, strings, p, path);
    }
  }

  // ---- the patch --------------------------------------------------------------------------------

  /** The two cells, where they are found. */
  datatype Cells = Cells(start: nat, end: nat)

  ghost predicate CellsOf(d: seq<byte>, c: Cells) {
    Scan(d).Ok? && Collect(Scan(d).value) == Found(Some(c.start), Some(c.end))
  }

  lemma CellsApart(d: seq<byte>, c: Cells)
    requires CellsOf(d, c)
    ensures var evs := Scan(d).value;
            && HoldsCell(evs, c.start) && HoldsCell(evs, c.end)
            && c.start + 4 <= |d| && c.end + 4 <= |d|
            && (c.start + 4 <= c.end || c.end + 4 <= c.start)
            && U32be(d, 8) + 12 <= c.start && U32be(d, 8) + 12 <= c.end
  {
    var evs := Scan(d).value;
    NamesDiffer();
    hide U32be, Collect, Walk, PathOf, StartName, EndName, Chosen;
    FoundIsLast(evs);
    CellInside(d, evs, StartName(), Some(c.start));
    CellInside(d, evs, EndName(), Some(c.end));
    WalkPlaces(d, U32be(d, 12), U32be(d, 8), []);
    var j :| 0 <= j < |evs| && IsAt(evs[j], c.start) && Sets(evs, j, StartName()) && evs[j].len == 4;
    var k :| 0 <= k < |evs| && IsAt(evs[k], c.end) && Sets(evs, k, EndName()) && evs[k].len == 4;
    assert j != k;
  }

  lemma NamesDiffer()
    ensures StartName() != EndName()
  {
    assert |StartName()| != |EndName()|;
  }

  /** Whatever the blob, nothing but the two cells found changes; on a failure before them nothing at all. */
  lemma PatchTouchesCells(d: seq<byte>, start: nat, end: nat)
    ensures var o := Patched(d, start, end);
            && |o.blob| == |d|
            && (o.blob != d ==> exists c :: CellsOf(d, c) && AgreesOff(d, o.blob, c.start, c.end))
  {
    hide Scan, Collect, Write32;
    var o := Patched(d, start, end);
    if Scan(d).Ok? {
      var f := Collect(Scan(d).value);
      FoundInside(d, Scan(d).value);
      if f.start.Some? && f.end.Some? {
        var c := Cells(f.start.value, f.end.value);
        assert CellsOf(d, c);
        WritesAgree(d, c, start, end);
      }
    }
  }

  lemma WritesAgree(d: seq<byte>, c: Cells, start: nat, end: nat)
    requires c.start + 4 <= |d| && c.end + 4 <= |d|
    ensures AgreesOff(d, d, c.start, c.end)
    ensures AgreesOff(d, Write32(d, c.start, start), c.start, c.end)
    ensures AgreesOff(d, Write32(Write32(d, c.start, start), c.end, end), c.start, c.end)
  {
    hide ToBE, Write32;
  }

  /** A blob whose property names are clear of its two cells. */
  ghost predicate Patchable(d: seq<byte>, c: Cells) {
    CellsOf(d, c) && NamesClear(Scan(d).value, c.start) && NamesClear(Scan(d).value, c.end)
  }

  lemma MagicIsNoToken(d: seq<byte>, p: nat)
    requires |d| >= p + 4 && U32be(d, 0) == MAGIC && p < 4
    ensures U32be(d, p) > END
  {
    hide BE;
    BytesOfWord(d[0..4]);
    BytesOfWord(d[p..p + 4]);
    assert d[0..4][p] == d[p] == d[p..p + 4][0];
  }

  lemma ScanStarts(d: seq<byte>)
    requires Scan(d).Ok?
    ensures |d| >= 16 && U32be(d, 0) == MAGIC && U32be(d, 8) + 4 <= |d| && U32be(d, U32be(d, 8)) <= END
  {
    hide U32be, PropTurn, Utf8, IndexZero;
  }

  /** No token can start inside the magic, so both cells lie behind the header words read. */
  lemma HeaderClear(d: seq<byte>, c: Cells)
    requires CellsOf(d, c)
    ensures U32be(d, 8) >= 4 && c.start >= 16 && c.end >= 16
  {
    CellsApart(d, c);
    ScanStarts(d);
    hide Collect, Scan, U32be;
    if U32be(d, 8) < 4 { MagicIsNoToken(d, U32be(d, 8)); }
  }

  lemma PatchedIs(d: seq<byte>, c: Cells, start: nat, end: nat)
    requires CellsOf(d, c) && Fits32(start) && Fits32(end)
    ensures c.start + 4 <= |d| && c.end + 4 <= |d|
    ensures Patched(d, start, end) == Outcome(Write32(Write32(d, c.start, start), c.end, end), None)
  {
    hide Scan, Collect, Write32;
    FoundInside(d, Scan(d).value);
  }

  lemma ScanSame(d: seq<byte>, d': seq<byte>, c: Cells)
    requires Patchable(d, c) && AgreesOff(d, d', c.start, c.end)
    ensures Scan(d') == Scan(d)
  {
    CellsApart(d, c);
    HeaderClear(d, c);
    hide U32be, Collect, Walk, NamesClear, AgreesOff, HoldsCell;
    SameLength(d, d', c.start, c.end);
    U32Same(d, d', c.start, c.end, 0);
    U32Same(d, d', c.start, c.end, 8);
    U32Same(d, d', c.start, c.end, 12);
    WalkSame(d, d', c.start, c.end, U32be(d, 12), U32be(d, 8), []);
  }

  /** The tree after the patch: every node, property name, place and length is as before, the two cells
      read back as the new values, and every other property has its old value. */
  lemma PatchKeepsTree(d: seq<byte>, c: Cells, start: nat, end: nat)
    requires Patchable(d, c) && Fits32(start) && Fits32(end)
    ensures var o := Patched(d, start, end);
            && o.problem.None? && Scan(o.blob) == Scan(d) && |o.blob| == |d|
            && c.start + 4 <= |d| && U32be(o.blob, c.start) == start
            && c.end + 4 <= |d| && U32be(o.blob, c.end) == end
    ensures OthersKept(d, Patched(d, start, end).blob, Scan(d).value, c)
  {
    hide Scan, Walk, Collect, ToBE, BE, NamesClear;
    var d1 := Patched(d, start, end).blob;
    PatchedIs(d, c, start, end);
    CellsApart(d, c);
    CellsReadBack(d, c, start, end);
    WritesAgree(d, c, start, end);
    ScanSame(d, d1, c);
    OthersSame(d, d1, c);
  }

  ghost predicate OthersKept(d: seq<byte>, d': seq<byte>, evs: seq<Event>, c: Cells) {
    forall k :: 0 <= k < |evs| && evs[k].Prop? && evs[k].at != c.start && evs[k].at != c.end ==>
      evs[k].at + evs[k].len <= |d| == |d'| &&
      d'[evs[k].at..evs[k].at + evs[k].len] == d[evs[k].at..evs[k].at + evs[k].len]
  }

  lemma CellsReadBack(d: seq<byte>, c: Cells, start: nat, end: nat)
    requires Fits32(start) && Fits32(end) && c.start + 4 <= |d| && c.end + 4 <= |d|
    requires c.start + 4 <= c.end || c.end + 4 <= c.start
    ensures var d2 := Write32(Write32(d, c.start, start), c.end, end);
            U32be(d2, c.start) == start && U32be(d2, c.end) == end
  {
    assert Pow256(4) == 256 * (256 * (256 * 256));
    hide ToBE, BE, Write32, Pow256;
    var d1 := Write32(d, c.start, start);
    var d2 := Write32(d1, c.end, end);
    assert d2[c.start..c.start + 4] == d1[c.start..c.start + 4];
    BERoundTrip(start, 4);
    BERoundTrip(end, 4);
  }

  lemma ScanPlaces(d: seq<byte>)
    requires Scan(d).Ok?
    ensures Placed(d, U32be(d, 8), Scan(d).value)
  {
    hide Walk, Placed, U32be;
    WalkPlaces(d, U32be(d, 12), U32be(d, 8), []);
  }

  lemma OthersSame(d: seq<byte>, d': seq<byte>, c: Cells)
    requires CellsOf(d, c) && AgreesOff(d, d', c.start, c.end)
    ensures OthersKept(d, d', Scan(d).value, c)
  {
    hide U32be, Collect, Scan, AgreesOff, Placed, HoldsCell;
    var evs := Scan(d).value;
    CellsApart(d, c);
    ScanPlaces(d);
    SameLength(d, d', c.start, c.end);
    forall k | 0 <= k < |evs| && evs[k].Prop? && evs[k].at != c.start && evs[k].at != c.end
      ensures evs[k].at + evs[k].len <= |d|
      ensures d'[evs[k].at..evs[k].at + evs[k].len] == d[evs[k].at..evs[k].at + evs[k].len]
    {
      ValueClear(d, U32be(d, 8), evs, k, c.start);
      ValueClear(d, U32be(d, 8), evs, k, c.end);
      SliceSame(d, d', c.start, c.end, evs[k].at, evs[k].at + evs[k].len);
    }
  }

  lemma ValueClear(d: seq<byte>, p: nat, evs: seq<Event>, k: nat, a: nat)
    requires Placed(d, p, evs) && HoldsCell(evs, a) && k < |evs| && evs[k].Prop? && evs[k].at != a
    ensures evs[k].at + evs[k].len <= |d| && Clear(evs[k].at, evs[k].at + evs[k].len, a)
  {
    var j :| 0 <= j < |evs| && IsAt(evs[j], a) && evs[j].len == 4;
    assert j != k;
  }

  /** Patching a patched blob is patching the first one: only the last values count. */
  lemma RepatchIsPatch(d: seq<byte>, c: Cells, s1: nat, e1: nat, s2: nat, e2: nat)
    requires Patchable(d, c) && Fits32(s1) && Fits32(e1) && Fits32(s2) && Fits32(e2)
    ensures Patched(Patched(d, s1, e1).blob, s2, e2) == Patched(d, s2, e2)
  {
    hide Scan, Walk, Collect, NamesClear, Patched;
    PatchKeepsTree(d, c, s1, e1);
    PatchedIs(d, c, s1, e1);
    PatchedIs(d, c, s2, e2);
    CellsApart(d, c);
    var d1 := Patched(d, s1, e1).blob;
    assert CellsOf(d1, c);
    PatchedIs(d1, c, s2, e2);
    Overwritten(d, c, s1, e1, s2, e2);
  }

  lemma Overwritten(d: seq<byte>, c: Cells, s1: nat, e1: nat, s2: nat, e2: nat)
    requires c.start + 4 <= |d| && c.end + 4 <= |d|
    ensures var d1 := Write32(Write32(d, c.start, s1), c.end, e1);
            Write32(Write32(d1, c.start, s2), c.end, e2) == Write32(Write32(d, c.start, s2), c.end, e2)
  {
    hide ToBE, Write32;
    var d1 := Write32(Write32(d, c.start, s1), c.end, e1);
    var x, y := Write32(d1, c.start, s2), Write32(d, c.start, s2);
    forall i | c.start <= i < c.start + 4 ensures x[i] == y[i] {
      assert x[i] == x[c.start..c.start + 4][i - c.start] == y[i];
    }
    var x', y' := Write32(x, c.end, e2), Write32(y, c.end, e2);
    forall i | c.end <= i < c.end + 4 ensures x'[i] == y'[i] {
      assert x'[i] == x'[c.end..c.end + 4][i - c.end] == y'[i];
    }
  }

  // ---- exactly when -----------------------------------------------------------------------------

  /** The name of an event is what stands at its place, with its end. */
  predicate NameStands(d: seq<byte>, ev: Event) {
    && ev.Prop? && ev.nameAt + |ev.name| < |d|
    && d[ev.nameAt..ev.nameAt + |ev.name|] == ev.name && d[ev.nameAt + |ev.name|] == 0
  }

  lemma TurnName(d: seq<byte>, strings: nat, p: nat, path: seq<Name>)
    ensures var t := TurnAt(d, strings, p, path);
            t.Move? && t.event.Prop? ==> t.event.nameAt >= strings && NameStands(d, t.event)
    ensures var t := TurnAt(d, strings, p, path);
            t.Move? && t.event.Prop? ==> forall i :: 0 <= i < |t.event.name| ==> t.event.name[i] != 0
  {
    hide U32be, IsInitrd, Utf8;
  }

  lemma {:induction false} WalkNames(d: seq<byte>, strings: nat, p: nat, path: seq<Name>, k: nat)
    requires Walk(d, strings, p, path).Ok? && k < |Walk(d, strings, p, path).value|
    requires Walk(d, strings, p, path).value[k].Prop?
    ensures var ev := Walk(d, strings, p, path).value[k];
            ev.nameAt >= strings && NameStands(d, ev) && forall i :: 0 <= i < |ev.name| ==> ev.name[i] != 0
    decreases |d| - p
  {
    TurnName(d, strings, p, path);
    hide TurnAt, NameStands;
    var t := TurnAt(d, strings, p, path);
    if t.Move? && k > 0 { WalkNames(d, strings, t.next, t.path, k - 1); }
  }

  lemma ScanNames(d: seq<byte>, k: nat)
    requires Scan(d).Ok? && k < |Scan(d).value| && Scan(d).value[k].Prop?
    ensures var ev := Scan(d).value[k];
            && |d| >= 16 && ev.nameAt >= U32be(d, 12) && NameStands(d, ev)
            && forall i :: 0 <= i < |ev.name| ==> ev.name[i] != 0
  {
    hide Walk, U32be, NameStands;
    WalkNames(d, U32be(d, 12), U32be(d, 8), [], k);
  }

  lemma NameThere(d: seq<byte>, k: nat)
    requires Scan(d).Ok? && k < |Scan(d).value| && Scan(d).value[k].Prop?
    ensures NameStands(d, Scan(d).value[k])
  {
    hide Scan, NameStands, U32be;
    ScanNames(d, k);
  }

  lemma ScanLength(d: seq<byte>)
    requires Scan(d).Ok?
    ensures |d| >= 16
  {
    hide Walk;
  }

  /** A value for the cell that changes the byte at i. */
  function Other(d: seq<byte>, i: nat): (v: nat)
    requires i < |d|
    ensures Fits32(v)
  {
    if d[i] == 0 then 0x0101_0101 else 0
  }

  lemma OtherDiffers(d: seq<byte>, c: Cells, i: nat)
    requires CellsOf(d, c) && i < |d| && (c.start <= i < c.start + 4 || c.end <= i < c.end + 4)
    ensures var o := Patched(d, Other(d, i), Other(d, i)); i < |o.blob| && o.blob[i] != d[i]
  {
    hide CellsOf, Patched, Write32, ToBE;
    CellsApart(d, c);
    var v := Other(d, i);
    PatchedIs(d, c, v, v);
    OtherBytes(v);
    BothWritten(d, c, v, if v == 0 then 0 else 1, i);
  }

  lemma WrittenAt(d: seq<byte>, at: nat, v: nat, i: nat)
    requires at + 4 <= |d| && i < |d|
    ensures Write32(d, at, v)[i] == if at <= i < at + 4 then ToBE(v, 4)[i - at] else d[i]
  {
    hide ToBE;
  }

  lemma BothWritten(d: seq<byte>, c: Cells, v: nat, x: byte, i: nat)
    requires c.start + 4 <= |d| && c.end + 4 <= |d| && ToBE(v, 4) == [x, x, x, x]
    requires c.start <= i < c.start + 4 || c.end <= i < c.end + 4
    ensures Write32(Write32(d, c.start, v), c.end, v)[i] == x
  {
    hide ToBE, Write32;
    WrittenAt(d, c.start, v, i);
    WrittenAt(Write32(d, c.start, v), c.end, v, i);
  }

  lemma OtherBytes(v: nat)
    requires v == 0 || v == 0x0101_0101
    ensures ToBE(v, 4) == if v == 0 then [0, 0, 0, 0] else [1, 1, 1, 1]
  {
    assert ToBE(v / 16777216, 1) == [v / 16777216 % 256];
    assert ToBE(v / 65536, 2) == ToBE(v / 16777216, 1) + [v / 65536 % 256];
    assert ToBE(v / 256, 3) == ToBE(v / 65536, 2) + [v / 256 % 256];
  }

  /** The same tree whatever is written. */
  ghost predicate TreeKept(d: seq<byte>) {
    forall start, end :: Fits32(start) && Fits32(end) ==> Scan(Patched(d, start, end).blob) == Scan(d)
  }

  lemma NameOverCell(d: seq<byte>, c: Cells, k: nat, a: nat)
    requires CellsOf(d, c) && TreeKept(d) && (a == c.start || a == c.end)
    requires k < |Scan(d).value| && Scan(d).value[k].Prop?
    ensures var ev := Scan(d).value[k]; Clear(ev.nameAt, ev.nameAt + |ev.name| + 1, a)
  {
    hide Scan, Patched, Collect, NameStands, TreeKept, Other;
    var ev := Scan(d).value[k];
    NameThere(d, k);
    if !Clear(ev.nameAt, ev.nameAt + |ev.name| + 1, a) {
      var i := Max(ev.nameAt, a);
      NameInside(d, ev);
      var o := Patched(d, Other(d, i), Other(d, i));
      OtherDiffers(d, c, i);
      KeptAt(d, Other(d, i), Other(d, i));
      NameThere(o.blob, k);
      NameSame(d, o.blob, ev, i);
    }
  }

  lemma KeptAt(d: seq<byte>, start: nat, end: nat)
    requires TreeKept(d) && Fits32(start) && Fits32(end)
    ensures Scan(Patched(d, start, end).blob) == Scan(d)
  {
    hide Scan, Patched;
  }

  lemma NameInside(d: seq<byte>, ev: Event)
    requires NameStands(d, ev)
    ensures ev.nameAt + |ev.name| < |d|
  {
  }

  lemma NameSame(d: seq<byte>, d': seq<byte>, ev: Event, i: nat)
    requires NameStands(d, ev) && NameStands(d', ev) && ev.nameAt <= i <= ev.nameAt + |ev.name|
    ensures d[i] == d'[i]
  {
    if i < ev.nameAt + |ev.name| { assert d[i] == ev.name[i - ev.nameAt] == d'[i]; }
  }

  /** The patch keeps the tree, whatever the two values, exactly if no property name lies over a cell. */
  lemma PatchKeepsTreeIff(d: seq<byte>, c: Cells)
    requires CellsOf(d, c)
    ensures TreeKept(d) <==> Patchable(d, c)
  {
    hide Scan, Patched, Collect, Clear;
    var evs := Scan(d).value;
    if TreeKept(d) {
      hide TreeKept;
      forall k | 0 <= k < |evs| && evs[k].Prop?
        ensures Clear(evs[k].nameAt, evs[k].nameAt + |evs[k].name| + 1, c.start)
        ensures Clear(evs[k].nameAt, evs[k].nameAt + |evs[k].name| + 1, c.end)
      {
        NameOverCell(d, c, k, c.start);
        NameOverCell(d, c, k, c.end);
      }
    }
    if Patchable(d, c) {
      hide Patchable, CellsOf;
      forall start: nat, end: nat | Fits32(start) && Fits32(end)
        ensures Scan(Patched(d, start, end).blob) == Scan(d)
      {
        PatchKeepsTree(d, c, start, end);
      }
    }
  }

  // ---- the usual layouts ------------------------------------------------------------------------

  /** All names start in a strings block that ends with a name's end and has none of the two cells. */
  lemma StringsApart(d: seq<byte>, c: Cells, end: nat)
    requires CellsOf(d, c) && 0 < end <= |d| && d[end - 1] == 0
    requires forall ev :: ev in Scan(d).value && ev.Prop? ==> ev.nameAt < end
    requires Clear(U32be(d, 12), end, c.start) && Clear(U32be(d, 12), end, c.end)
    ensures Patchable(d, c)
  {
    hide U32be, Collect, Scan;
    ScanLength(d);
    var evs := Scan(d).value;
    forall k | 0 <= k < |evs| && evs[k].Prop?
      ensures U32be(d, 12) <= evs[k].nameAt && evs[k].nameAt + |evs[k].name| < end
    {
      ScanNames(d, k);
      assert evs[k] in evs;
      NameEnds(d, evs[k], end);
    }
  }

  lemma NameEnds(d: seq<byte>, ev: Event, end: nat)
    requires NameStands(d, ev) && forall i :: 0 <= i < |ev.name| ==> ev.name[i] != 0
    requires ev.nameAt < end <= |d| && d[end - 1] == 0
    ensures ev.nameAt + |ev.name| < end
  {
    forall q | ev.nameAt <= q < ev.nameAt + |ev.name| ensures d[q] != 0 {
      assert d[q] == ev.name[q - ev.nameAt];
    }
  }

  /** A strings block before the structure block. */
  lemma StringsBefore(d: seq<byte>, c: Cells, end: nat)
    requires CellsOf(d, c) && 0 < end <= U32be(d, 8) && end <= |d| && d[end - 1] == 0
    requires forall ev :: ev in Scan(d).value && ev.Prop? ==> ev.nameAt < end
    ensures Patchable(d, c)
  {
    CellsApart(d, c);
    hide U32be, Scan, CellsOf, Patchable;
    StringsApart(d, c, end);
  }

  /** A strings block behind both cells, wherever it ends. */
  lemma StringsBehind(d: seq<byte>, c: Cells)
    requires CellsOf(d, c) && U32be(d, 12) >= c.start + 4 && U32be(d, 12) >= c.end + 4
    ensures Patchable(d, c)
  {
    hide U32be, Collect, Scan;
    ScanLength(d);
    forall k | 0 <= k < |Scan(d).value| && Scan(d).value[k].Prop?
      ensures Scan(d).value[k].nameAt >= U32be(d, 12)
    {
      ScanNames(d, k);
    }
  }
}
