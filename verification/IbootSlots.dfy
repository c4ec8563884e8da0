/** patch_iboot.py: find_zero_runs and find_page_tail_slot, a place for a literal in an image's padding. */
module IbootSlots {
  import opened Bytes
  import opened StableSort

  /** Zero bytes start..end, and the largest power of two that divides end. */
  datatype Run = Run(start: nat, end: nat, align: nat)

  // ---- zero runs --------------------------------------------------------------------------------

  /** end & -end */
  function LowBit(n: nat): nat {
    if n == 0 then 0 else if n % 2 == 1 then 1 else 2 * LowBit(n / 2)
  }

  /** The runs closed before position n, and where an open one starts. */
  datatype Scanned = Scanned(runs: seq<Run>, open: Option<nat>)

  function ScanStep(s: Scanned, i: nat, zero: bool): Scanned {
    if zero && s.open.None? then s.(open := Some(i))
    else if !zero && s.open.Some? then Scanned(s.runs + [Run(s.open.value, i, LowBit(i))], None)
    else s
  }

  function IsZero(data: seq<byte>, i: nat): bool {
    i < |data| && data[i] == 0
  }

  function ScanTo(data: seq<byte>, n: nat): Scanned {
    if n == 0 then Scanned([], None) else ScanStep(ScanTo(data, n - 1), n - 1, IsZero(data, n - 1))
  }

  function Runs(data: seq<byte>): seq<Run> {
    ScanTo(data, |data| + 1).runs
  }

  /** A run of zeros that cannot be made longer at either end. */
  ghost predicate Maximal(data: seq<byte>, r: Run) {
    && r.start < r.end <= |data| && r.align == LowBit(r.end)
    && (forall i :: r.start <= i < r.end ==> data[i] == 0)
    && (r.start > 0 ==> data[r.start - 1] != 0)
    && (r.end < |data| ==> data[r.end] != 0)
  }

  /** What a scan up to n knows. */
  ghost predicate ScanHolds(data: seq<byte>, n: nat, s: Scanned) {
    && (forall r :: r in s.runs <==> Maximal(data, r) && r.end < n)
    && (forall j, k :: 0 <= j < k < |s.runs| ==> s.runs[j].end < s.runs[k].start)
    && (s.open.None? ==> n > 0 ==> !IsZero(data, n - 1))
    && (s.open.Some? ==>
          && s.open.value < n <= |data| && (forall i :: s.open.value <= i < n ==> data[i] == 0)
          && (s.open.value > 0 ==> data[s.open.value - 1] != 0))
  }

  lemma NoRunEndsAt(data: seq<byte>, n: nat, r: Run)
    requires n <= |data| && Maximal(data, r) && r.end == n
    ensures n > 0 && data[n - 1] == 0 && !IsZero(data, n)
  {
  }

  lemma OpenIsStart(data: seq<byte>, n: nat, start: nat, r: Run)
    requires start < n <= |data| && (forall i :: start <= i < n ==> data[i] == 0)
    requires start > 0 ==> data[start - 1] != 0
    requires Maximal(data, r) && r.end == n
    ensures r.start == start
  {
  }

  lemma ClosedRun(data: seq<byte>, n: nat, s: Scanned)
    requires ScanHolds(data, n, s) && s.open.Some? && !IsZero(data, n)
    ensures Maximal(data, Run(s.open.value, n, LowBit(n)))
    ensures forall r :: Maximal(data, r) && r.end == n ==> r == Run(s.open.value, n, LowBit(n))
    ensures s.runs != [] ==> s.runs[|s.runs| - 1].end < s.open.value
  {
    hide LowBit;
    forall r | Maximal(data, r) && r.end == n ensures r == Run(s.open.value, n, LowBit(n)) {
      OpenIsStart(data, n, s.open.value, r);
    }
    if s.runs != [] {
      var last := s.runs[|s.runs| - 1];
      assert last in s.runs && Maximal(data, last) && last.end < n;
    }
  }

  lemma StepHolds(data: seq<byte>, n: nat, s: Scanned)
    requires n <= |data| && ScanHolds(data, n, s)
    ensures ScanHolds(data, n + 1, ScanStep(s, n, IsZero(data, n)))
  {
    hide LowBit;
    var zero := IsZero(data, n);
    var t := ScanStep(s, n, zero);
    if !zero && s.open.Some? {
      ClosedRun(data, n, s);
      var r := Run(s.open.value, n, LowBit(n));
      assert t.runs == s.runs + [r] && r in t.runs;
      hide Maximal;
    } else {
      forall r | Maximal(data, r) ensures r.end != n {
        if r.end == n { NoRunEndsAt(data, n, r); }
      }
    }
  }

  lemma {:induction false} ScanToHolds(data: seq<byte>, n: nat)
    requires n <= |data| + 1
    ensures ScanHolds(data, n, ScanTo(data, n))
  {
    if n == 0 {
      assert ScanTo(data, 0) == Scanned([], None);
    } else {
      ScanToHolds(data, n - 1);
      hide ScanHolds, ScanStep, IsZero;
      StepHolds(data, n - 1, ScanTo(data, n - 1));
    }
  }

  /** The scan finds every maximal run, once each, and nothing else. */
  lemma RunsAreMaximal(data: seq<byte>)
    ensures forall r :: r in Runs(data) <==> Maximal(data, r)
    ensures var rs := Runs(data); forall j, k :: 0 <= j < k < |rs| ==> rs[j].end < rs[k].start
  {
    ScanToHolds(data, |data| + 1);
    hide ScanTo, LowBit;
  }

  // ---- sorting by length ------------------------------------------------------------------------

  function Len(r: Run): int {
    r.end - r.start
  }

  predicate LongerFirst(x: Run, y: Run) {
    Len(x) >= Len(y)
  }

  predicate ShorterFirst(x: Run, y: Run) {
    Len(x) <= Len(y)
  }

  /** Both sorts keep the runs, order them by length and leave equally long ones as they stood. */
  lemma SortedIs(rs: seq<Run>, n: int)
    ensures var s := Sort(rs, LongerFirst);
            Ordered(s, LongerFirst) && multiset(s) == multiset(rs) && OfLength(s, n) == OfLength(rs, n)
    ensures var s := Sort(rs, ShorterFirst);
            Ordered(s, ShorterFirst) && multiset(s) == multiset(rs) && OfLength(s, n) == OfLength(rs, n)
  {
    hide Sort, Filter;
    SortIs(rs, LongerFirst);
    SortIs(rs, ShorterFirst);
    SortStable(rs, LongerFirst, r => Len(r) == n);
    SortStable(rs, ShorterFirst, r => Len(r) == n);
  }

  /** The runs of length n, in the order they stand. */
  function OfLength(rs: seq<Run>, n: int): seq<Run> {
    Filter(rs, r => Len(r) == n)
  }

  function ZeroRuns(data: seq<byte>): seq<Run> {
    Sort(Runs(data), LongerFirst)
  }

  method FindZeroRuns(data: seq<byte>) returns (runs: seq<Run>)
    ensures runs == ZeroRuns(data)
    ensures Ordered(runs, LongerFirst) && forall r :: r in runs <==> Maximal(data, r)
  {
    hide LowBit;
    runs := [];
    var start: Option<nat> := None;
    for i := 0 to |data| + 1
      invariant ScanTo(data, i) == Scanned(runs, start)
    {
      var zero := i < |data| && data[i] == 0;
      if zero && start.None? {
        start := Some(i);
      } else if !zero && start.Some? {
        runs := runs + [Run(start.value, i, LowBit(i))];
        start := None;
      }
    }
    ZeroRunsAre(data);
    runs := Sort(runs, LongerFirst);
  }

  lemma ZeroRunsAre(data: seq<byte>)
    ensures Ordered(ZeroRuns(data), LongerFirst) && forall r :: r in ZeroRuns(data) <==> Maximal(data, r)
  {
    hide Maximal, Runs, Sort;
    RunsAreMaximal(data);
    SortedIs(Runs(data), 0);
    SameMembers(Runs(data), ZeroRuns(data));
  }

  // ---- a slot in a run --------------------------------------------------------------------------

  /** Where to write, where the run ends, and how much room there is between. */
  datatype Slot = Slot(at: nat, end: nat, capacity: nat)

  datatype SlotError = SizingFailed | Ambiguous | NoSlot

  type SlotResult = Result<Slot, SlotError>

  const ALIGNS: seq<nat> := [16, 8, 4, 2, 1]

  /** (n + a - 1) & ~(a - 1), for a power of two. */
  function RoundUp(n: nat, a: nat): nat
    requires a > 0
  {
    (n + a - 1) / a * a
  }

  function SlotAt(r: Run, req: nat, a: nat): Option<Slot>
    requires a > 0
  {
    var w := RoundUp(r.start + 8, a);
    if w + req <= r.end then Some(Slot(w, r.end, r.end - w)) else None
  }

  /** The first alignment that leaves room, eight bytes into the run. */
  function SlotIn(r: Run, req: nat): Option<Slot> {
    if SlotAt(r, req, 16).Some? then SlotAt(r, req, 16)
    else if SlotAt(r, req, 8).Some? then SlotAt(r, req, 8)
    else if SlotAt(r, req, 4).Some? then SlotAt(r, req, 4)
    else if SlotAt(r, req, 2).Some? then SlotAt(r, req, 2)
    else SlotAt(r, req, 1)
  }

  method FindSlotIn(r: Run, req: nat) returns (s: Option<Slot>)
    ensures s == SlotIn(r, req)
  {
    hide SlotAt;
    for i := 0 to 5
      invariant i > 0 ==> SlotAt(r, req, 16).None?
      invariant i > 1 ==> SlotAt(r, req, 8).None?
      invariant i > 2 ==> SlotAt(r, req, 4).None?
      invariant i > 3 ==> SlotAt(r, req, 2).None?
      invariant i > 4 ==> SlotAt(r, req, 1).None?
    {
      var slot := SlotAt(r, req, ALIGNS[i]);
      if slot.Some? {
        return slot;
      }
    }
    s := None;
  }

  predicate FitsRun(r: Run, req: nat) {
    r.end - r.start >= req + 8
  }

  lemma RoundsUp(n: nat, a: nat)
    requires a in ALIGNS
    ensures n <= RoundUp(n, a) < n + a && RoundUp(n, a) % a == 0
  {
    var m := n + a - 1;
    DivMod(m, a);
    MultipleOf(m / a, a);
  }

  lemma DivMod(m: nat, a: nat)
    requires a in ALIGNS
    ensures m == m / a * a + m % a && m % a < a
  {
  }

  lemma MultipleOf(q: nat, a: nat)
    requires a in ALIGNS
    ensures q * a % a == 0
  {
    if a == 16 { Of16(q); } else if a == 8 { Of8(q); } else if a == 4 { Of4(q); } else if a == 2 { Of2(q); }
  }

  /** A run takes the request exactly if it is eight bytes longer; the slot is then inside it behind those
      eight bytes, and aligned to every alignment that leaves room. */
  lemma SlotInIff(r: Run, req: nat)
    ensures SlotIn(r, req).Some? <==> FitsRun(r, req)
    ensures SlotIn(r, req).Some? ==>
              var s := SlotIn(r, req).value;
              r.start + 8 <= s.at && s.at + req <= s.end == r.end && s.capacity == s.end - s.at
  {
    hide RoundUp;
    RoundsUp(r.start + 8, 16);
    RoundsUp(r.start + 8, 8);
    RoundsUp(r.start + 8, 4);
    RoundsUp(r.start + 8, 2);
    RoundsUp(r.start + 8, 1);
  }

  lemma SlotInAligned(r: Run, req: nat, a: nat)
    requires a in ALIGNS && SlotIn(r, req).Some? && SlotAt(r, req, a).Some?
    ensures SlotIn(r, req).value.at % a == 0
  {
    hide RoundUp;
    var n := r.start + 8;
    Multiples(n);
    RoundsUp(n, a);
  }

  lemma Multiples(n: nat)
    ensures RoundUp(n, 16) % 16 == 0 && RoundUp(n, 16) % 8 == 0 && RoundUp(n, 16) % 4 == 0 && RoundUp(n, 16) % 2 == 0
    ensures RoundUp(n, 8) % 8 == 0 && RoundUp(n, 8) % 4 == 0 && RoundUp(n, 8) % 2 == 0
    ensures RoundUp(n, 4) % 4 == 0 && RoundUp(n, 4) % 2 == 0 && RoundUp(n, 2) % 2 == 0
  {
    Of16((n + 15) / 16);
    Of8((n + 7) / 8);
    Of4((n + 3) / 4);
  }

  lemma Of16(q: nat)
    ensures q * 16 % 16 == 0 && q * 16 % 8 == 0 && q * 16 % 4 == 0 && q * 16 % 2 == 0
  {
    var t := 2 * q;
    Of8(t);
    assert q * 16 == t * 8;
    Mod16(q);
  }

  lemma Of8(q: nat)
    ensures q * 8 % 8 == 0 && q * 8 % 4 == 0 && q * 8 % 2 == 0
  {
    var t := 2 * q;
    Of4(t);
    assert q * 8 == t * 4;
    Mod8(q);
  }

  lemma Of4(q: nat)
    ensures q * 4 % 4 == 0 && q * 4 % 2 == 0
  {
    var t := 2 * q;
    Of2(t);
    assert q * 4 == t * 2;
    Mod4(q);
  }

  lemma Mod16(q: nat)
    ensures q * 16 % 16 == 0
  {
  }

  lemma Mod8(q: nat)
    ensures q * 8 % 8 == 0
  {
  }

  lemma Mod4(q: nat)
    ensures q * 4 % 4 == 0
  {
  }

  lemma Of2(q: nat)
    ensures q * 2 % 2 == 0
  {
  }

  // ---- choosing the run -------------------------------------------------------------------------

  predicate PageTail(r: Run) {
    r.end % 0x1000 == 0
  }

  /** Alignment padding: shorter than the alignment it ends on. */
  predicate PadRun(r: Run) {
    r.align >= 256 && Len(r) < r.align
  }

  /** Zero runs that end on a page, and those that end on a smaller boundary. */
  function Tails(runs: seq<Run>): seq<Run> {
    Filter(runs, PageTail)
  }

  function Pads(runs: seq<Run>): seq<Run> {
    Sort(Filter(runs, PadRun), ShorterFirst)
  }

  function FirstSlot(rs: seq<Run>, req: nat): SlotResult {
    if rs == [] then Err(NoSlot)
    else if SlotIn(rs[0], req).Some? then Ok(SlotIn(rs[0], req).value)
    else FirstSlot(rs[1..], req)
  }

  predicate SomeFits(rs: seq<Run>, req: nat) {
    exists i :: 0 <= i < |rs| && SlotIn(rs[i], req).Some?
  }

  function PageTailSlot(tails: seq<Run>, req: nat): SlotResult
    requires tails != []
  {
    if |tails| == 1 || Len(tails[1]) < Len(tails[0]) then
      if SlotIn(tails[0], req).None? then Err(SizingFailed) else Ok(SlotIn(tails[0], req).value)
    else Err(Ambiguous)
  }

  function ChosenSlot(data: seq<byte>, req: nat): SlotResult {
    var runs := ZeroRuns(data);
    var tails := Tails(runs);
    if SomeFits(tails, req) then PageTailSlot(tails, req) else FirstSlot(Pads(runs), req)
  }

  method AnyFits(rs: seq<Run>, req: nat) returns (b: bool)
    ensures b == SomeFits(rs, req)
  {
    hide SlotIn;
    for i := 0 to |rs|
      invariant forall j :: 0 <= j < i ==> SlotIn(rs[j], req).None?
    {
      var s := FindSlotIn(rs[i], req);
      if s.Some? {
        return true;
      }
    }
    b := false;
  }

  method FindPageTailSlot(data: seq<byte>, req: nat) returns (r: SlotResult)
    ensures r == ChosenSlot(data, req)
    ensures r != Err(SizingFailed)
  {
    hide SlotIn, ZeroRuns, Tails, Pads;
    NeverSizingFailed(data, req);
    var runs := FindZeroRuns(data);
    var tails := Tails(runs);
    var fitting := AnyFits(tails, req);
    if fitting {
      return PageTailSlot(tails, req);
    }
    var padding := Pads(runs);
    for i := 0 to |padding|
      invariant FirstSlot(padding, req) == FirstSlot(padding[i..], req)
    {
      var s := FindSlotIn(padding[i], req);
      if s.Some? {
        return Ok(s.value);
      }
    }
    r := Err(NoSlot);
  }

  // ---- what is chosen ---------------------------------------------------------------------------

  lemma TailsAre(data: seq<byte>)
    ensures var tails := Tails(ZeroRuns(data));
            Ordered(tails, LongerFirst) && forall r :: r in tails <==> Maximal(data, r) && PageTail(r)
  {
    hide Maximal, ZeroRuns, PageTail, Filter, LongerFirst;
    ZeroRunsAre(data);
    FilterMembers(ZeroRuns(data), PageTail);
    FilterOrdered(ZeroRuns(data), PageTail, LongerFirst);
  }

  lemma PadsAre(data: seq<byte>)
    ensures var pads := Pads(ZeroRuns(data));
            Ordered(pads, ShorterFirst) && forall r :: r in pads <==> Maximal(data, r) && PadRun(r)
  {
    hide Maximal, ZeroRuns, PadRun, Filter, Sort, ShorterFirst, LongerFirst;
    ZeroRunsAre(data);
    var pads := Filter(ZeroRuns(data), PadRun);
    FilterMembers(ZeroRuns(data), PadRun);
    SortedIs(pads, 0);
    SameMembers(pads, Sort(pads, ShorterFirst));
  }

  /** The longest page tail fits if any does, so the sizing error cannot happen. */
  lemma LongestFits(tails: seq<Run>, req: nat)
    requires Ordered(tails, LongerFirst) && SomeFits(tails, req)
    ensures tails != [] && SlotIn(tails[0], req).Some?
  {
    hide SlotIn;
    var i :| 0 <= i < |tails| && SlotIn(tails[i], req).Some?;
    SlotInIff(tails[i], req);
    SlotInIff(tails[0], req);
    if i > 0 { assert LongerFirst(tails[0], tails[i]); }
  }

  lemma NeverSizingFailed(data: seq<byte>, req: nat)
    ensures ChosenSlot(data, req) != Err(SizingFailed)
  {
    hide SlotIn, ZeroRuns, Tails, Pads;
    TailsAre(data);
    if SomeFits(Tails(ZeroRuns(data)), req) {
      LongestFits(Tails(ZeroRuns(data)), req);
    } else {
      FirstSlotIs(Pads(ZeroRuns(data)), req);
    }
  }

  lemma {:induction false} FirstSlotIs(rs: seq<Run>, req: nat)
    ensures FirstSlot(rs, req).Err? ==> FirstSlot(rs, req) == Err(NoSlot) && !SomeFits(rs, req)
    ensures FirstSlot(rs, req).Ok? ==>
              exists i :: 0 <= i < |rs| && SlotIn(rs[i], req) == Some(FirstSlot(rs, req).value) &&
                          forall j :: 0 <= j < i ==> SlotIn(rs[j], req).None?
  {
    hide SlotIn;
    if rs != [] && SlotIn(rs[0], req).None? {
      var rest := rs[1..];
      FirstSlotIs(rest, req);
      assert forall k :: 0 < k < |rs| ==> rs[k] == rest[k - 1];
      if FirstSlot(rs, req).Ok? {
        var i :| 0 <= i < |rest| && SlotIn(rest[i], req) == Some(FirstSlot(rest, req).value) &&
                 forall j :: 0 <= j < i ==> SlotIn(rest[j], req).None?;
        assert SlotIn(rs[i + 1], req) == Some(FirstSlot(rs, req).value);
      }
    }
  }

  /** Some page tail takes the request. */
  ghost predicate TailFits(data: seq<byte>, req: nat) {
    exists r :: Maximal(data, r) && PageTail(r) && FitsRun(r, req)
  }

  /** The one longest of the page tails. */
  ghost predicate UniqueLongestTail(data: seq<byte>, r: Run) {
    && Maximal(data, r) && PageTail(r)
    && forall o :: Maximal(data, o) && PageTail(o) && o != r ==> Len(o) < Len(r)
  }

  /** A shortest padding run among those that take the request. */
  ghost predicate ShortestPad(data: seq<byte>, req: nat, r: Run) {
    && Maximal(data, r) && PadRun(r) && FitsRun(r, req)
    && forall o :: Maximal(data, o) && PadRun(o) && FitsRun(o, req) ==> Len(r) <= Len(o)
  }

  lemma FitsAsTail(data: seq<byte>, req: nat)
    ensures SomeFits(Tails(ZeroRuns(data)), req) <==> TailFits(data, req)
  {
    TailsAre(data);
    hide Maximal, ZeroRuns, Tails, Pads, SlotIn, FitsRun, PageTail;
    var tails := Tails(ZeroRuns(data));
    if SomeFits(tails, req) {
      var i :| 0 <= i < |tails| && SlotIn(tails[i], req).Some?;
      SlotInIff(tails[i], req);
      assert tails[i] in tails;
    }
    if TailFits(data, req) {
      var r :| Maximal(data, r) && PageTail(r) && FitsRun(r, req);
      SlotInIff(r, req);
      assert r in tails;
    }
  }

  // ---- no run twice -----------------------------------------------------------------------------

  lemma TailsDiffer(data: seq<byte>)
    ensures Distinct(Tails(ZeroRuns(data)))
  {
    hide Maximal, Runs, Sort, Filter, PageTail, LongerFirst, Distinct;
    DistinctRuns(data);
    SortedIs(Runs(data), 0);
    DistinctSame(Runs(data), ZeroRuns(data));
    FilterDistinct(ZeroRuns(data), PageTail);
  }

  lemma DistinctRuns(data: seq<byte>)
    ensures Distinct(Runs(data))
  {
    RunsAreMaximal(data);
    hide Runs, LowBit;
    var rs := Runs(data);
    forall j, k | 0 <= j < k < |rs| ensures rs[j] != rs[k] {
      assert rs[k] in rs && Maximal(data, rs[k]);
    }
  }

  // ---- the choice -------------------------------------------------------------------------------

  /** With a fitting page tail: the slot is in the one longest of them, and two longest are an error. */
  lemma TailChoice(data: seq<byte>, req: nat)
    requires TailFits(data, req)
    ensures ChosenSlot(data, req).Ok? ==>
              exists r :: UniqueLongestTail(data, r) && SlotIn(r, req) == Some(ChosenSlot(data, req).value)
    ensures ChosenSlot(data, req).Err? ==>
              ChosenSlot(data, req) == Err(Ambiguous) && forall r :: !UniqueLongestTail(data, r)
  {
    hide Maximal, ZeroRuns, Tails, Pads, SlotIn, FitsRun, PageTail, TailFits;
    var tails := Tails(ZeroRuns(data));
    TailsAre(data);
    FitsAsTail(data, req);
    LongestFits(tails, req);
    assert tails[0] in tails;
    if |tails| > 1 { TailsDiffer(data); assert tails[1] in tails; }
    if |tails| == 1 || Len(tails[1]) < Len(tails[0]) {
      FirstIsLongest(tails);
      assert UniqueLongestTail(data, tails[0]);
    } else {
      forall r ensures !UniqueLongestTail(data, r) {
        NotUnique(data, tails, r);
      }
    }
  }

  lemma NotUnique(data: seq<byte>, tails: seq<Run>, r: Run)
    requires Ordered(tails, LongerFirst) && |tails| > 1 && tails[0] != tails[1] && Len(tails[1]) >= Len(tails[0])
    requires forall o :: o in tails <==> Maximal(data, o) && PageTail(o)
    ensures !UniqueLongestTail(data, r)
  {
    hide Maximal, PageTail;
    if r in tails {
      var i :| 0 <= i < |tails| && tails[i] == r;
      assert i > 0 ==> LongerFirst(tails[0], tails[i]);
      assert tails[0] in tails && tails[1] in tails;
    }
  }

  lemma FirstIsLongest(tails: seq<Run>)
    requires Ordered(tails, LongerFirst) && tails != []
    requires |tails| == 1 || Len(tails[1]) < Len(tails[0])
    ensures forall o :: o in tails && o != tails[0] ==> Len(o) < Len(tails[0])
  {
    forall o | o in tails && o != tails[0] ensures Len(o) < Len(tails[0]) {
      var i :| 0 <= i < |tails| && tails[i] == o;
      if i > 1 { assert LongerFirst(tails[1], tails[i]); }
    }
  }

  /** With none: a shortest padding run that takes the request, or the error that there is none. */
  lemma PadChoice(data: seq<byte>, req: nat)
    requires !TailFits(data, req)
    ensures ChosenSlot(data, req).Ok? ==>
              exists r :: ShortestPad(data, req, r) && SlotIn(r, req) == Some(ChosenSlot(data, req).value)
    ensures ChosenSlot(data, req).Err? ==>
              ChosenSlot(data, req) == Err(NoSlot) && forall r :: !ShortestPad(data, req, r)
  {
    hide Maximal, ZeroRuns, Tails, Pads, SlotIn, FitsRun, PadRun, TailFits, SomeFits;
    var pads := Pads(ZeroRuns(data));
    PadsAre(data);
    FitsAsTail(data, req);
    FirstSlotIs(pads, req);
    if ChosenSlot(data, req).Ok? {
      var i :| 0 <= i < |pads| && SlotIn(pads[i], req) == Some(FirstSlot(pads, req).value) &&
               forall j :: 0 <= j < i ==> SlotIn(pads[j], req).None?;
      FirstIsShortest(data, pads, i, req);
    } else {
      NoPadFits(data, pads, req);
    }
  }

  lemma FirstIsShortest(data: seq<byte>, pads: seq<Run>, i: nat, req: nat)
    requires Ordered(pads, ShorterFirst) && forall r :: r in pads <==> Maximal(data, r) && PadRun(r)
    requires i < |pads| && SlotIn(pads[i], req).Some? && forall j :: 0 <= j < i ==> SlotIn(pads[j], req).None?
    ensures ShortestPad(data, req, pads[i])
  {
    hide Maximal, PadRun, SlotIn, FitsRun;
    assert pads[i] in pads;
    SlotInIff(pads[i], req);
    forall o | o in pads && FitsRun(o, req) ensures Len(pads[i]) <= Len(o) {
      var k :| 0 <= k < |pads| && pads[k] == o;
      SlotInIff(o, req);
      if i < k { assert ShorterFirst(pads[i], pads[k]); }
    }
  }

  lemma NoPadFits(data: seq<byte>, pads: seq<Run>, req: nat)
    requires forall r :: r in pads <==> Maximal(data, r) && PadRun(r)
    requires !SomeFits(pads, req)
    ensures forall r :: !ShortestPad(data, req, r)
  {
    hide Maximal, PadRun, SlotIn, FitsRun;
    forall r ensures !ShortestPad(data, req, r) {
      SlotInIff(r, req);
    }
  }

  // ---- the slot is free -------------------------------------------------------------------------

  /** n is a multiple of 2 to the power k as soon as its lowest set bit is that high. */
  lemma {:induction false} LowBitDivides(n: nat, k: nat) returns (q: nat)
    requires LowBit(n) >= Pow2(k)
    ensures n == q * Pow2(k)
  {
    if k == 0 {
      q := n;
    } else {
      q := LowBitDivides(n / 2, k - 1);
      assert n == 2 * (n / 2);
      TwiceProduct(q, Pow2(k - 1));
    }
  }

  lemma TwiceProduct(q: nat, p: nat)
    ensures 2 * (q * p) == q * (2 * p)
  {
  }

  lemma PadEnds(r: Run)
    requires r.align == LowBit(r.end) && r.align >= 256
    ensures r.end % 256 == 0
  {
    assert Pow2(8) == 2 * (2 * (2 * (2 * (2 * (2 * (2 * 2))))));
    var q := LowBitDivides(r.end, 8);
  }

  lemma TailEnds(r: Run)
    requires PageTail(r)
    ensures r.end % 256 == 0
  {
    assert r.end == r.end / 0x1000 * 16 * 256;
  }

  /** The run the slot lies in. */
  ghost predicate FreeIn(data: seq<byte>, req: nat, s: Slot, r: Run) {
    && Maximal(data, r) && r.end % 256 == 0
    && r.start + 8 <= s.at && s.at + req <= s.end == r.end && s.capacity == s.end - s.at
  }

  lemma SlotIsFree(data: seq<byte>, req: nat)
    requires ChosenSlot(data, req).Ok?
    ensures exists r :: FreeIn(data, req, ChosenSlot(data, req).value, r)
  {
    hide ChosenSlot, SlotIn, TailFits, Maximal, PageTail, PadRun;
    var s := ChosenSlot(data, req).value;
    if TailFits(data, req) {
      TailChoice(data, req);
      var r :| UniqueLongestTail(data, r) && SlotIn(r, req) == Some(s);
      SlotInIff(r, req);
      TailEnds(r);
      assert FreeIn(data, req, s, r);
    } else {
      PadChoice(data, req);
      var r :| ShortestPad(data, req, r) && SlotIn(r, req) == Some(s);
      SlotInIff(r, req);
      PadRunEnds(data, r);
      assert FreeIn(data, req, s, r);
    }
  }

  lemma PadRunEnds(data: seq<byte>, r: Run)
    requires Maximal(data, r) && PadRun(r)
    ensures r.end % 256 == 0
  {
    hide LowBit;
    PadEnds(r);
  }
}
