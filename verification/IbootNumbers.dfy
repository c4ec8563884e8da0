/** The slot and the instruction words of the boot-args redirect, over the bytes of the image. */
module IbootNumbers {
  import opened Bytes
  import opened StableSort
  import opened IbootSlots
  import opened IbootRedirect

  // ---- runs and their boundaries ----------------------------------------------------------------

  /** Zeros from a to b, and something else or nothing at either side. */
  ghost predicate ZeroRun(data: seq<byte>, a: nat, b: nat) {
    && a < b <= |data| && (forall i :: a <= i < b ==> data[i] == 0)
    && (a > 0 ==> data[a - 1] != 0) && (b < |data| ==> data[b] != 0)
  }

  /** A run that ends on a page. */
  ghost predicate OnPage(data: seq<byte>, a: nat, b: nat) {
    ZeroRun(data, a, b) && b % 4096 == 0
  }

  /** q << k */
  ghost function Shifted(q: nat, k: nat): nat {
    q * Pow2(k)
  }

  /** A run that ends on a multiple of some power of two, at least 256, and is shorter than that. */
  ghost predicate InPadding(data: seq<byte>, a: nat, b: nat) {
    ZeroRun(data, a, b) && exists k: nat, q: nat :: Shifted(q, k) == b && k >= 8 && b - a < Pow2(k)
  }

  lemma {:induction false} LowBitIsPower(n: nat) returns (k: nat)
    requires n > 0
    ensures LowBit(n) == Pow2(k)
  {
    if n % 2 == 1 {
      k := 0;
    } else {
      k := LowBitIsPower(n / 2);
      k := k + 1;
    }
  }

  lemma {:induction false} DividesLowBit(n: nat, k: nat, q: nat)
    requires n > 0 && n == q * Pow2(k)
    ensures LowBit(n) >= Pow2(k)
  {
    if k == 0 {
      LowBitPositive(n);
    } else {
      TwiceProduct(q, Pow2(k - 1));
      var half := q * Pow2(k - 1);
      assert n == 2 * half && n / 2 == half && n % 2 == 0;
      DividesLowBit(half, k - 1, q);
    }
  }

  lemma {:induction false} LowBitPositive(n: nat)
    requires n > 0
    ensures LowBit(n) >= 1
  {
    if n % 2 == 0 { LowBitPositive(n / 2); }
  }

  lemma {:induction false} PowersGrow(k: nat)
    ensures k >= 8 ==> Pow2(k) >= 256
    ensures k < 8 ==> Pow2(k) <= 128
  {
    if k > 8 { PowersGrow(k - 1); }
    assert Pow2(8) == 2 * (2 * (2 * (2 * (2 * (2 * (2 * 2))))));
  }

  /** The runs of the scan, with the pages and paddings among them. */
  lemma RunInNumbers(data: seq<byte>, r: Run)
    requires r.align == LowBit(r.end)
    ensures Maximal(data, r) <==> ZeroRun(data, r.start, r.end)
    ensures Maximal(data, r) && PageTail(r) <==> OnPage(data, r.start, r.end)
    ensures Maximal(data, r) && PadRun(r) <==> InPadding(data, r.start, r.end)
  {
    hide LowBit;
    if ZeroRun(data, r.start, r.end) {
      hide ZeroRun;
      if PadRun(r) {
        var k := LowBitIsPower(r.end);
        PowersGrow(k);
        var q := LowBitDivides(r.end, k);
        assert Shifted(q, k) == r.end;
      }
      if k: nat, q: nat :| Shifted(q, k) == r.end && k >= 8 && r.end - r.start < Pow2(k) {
        PowersGrow(k);
        DividesLowBit(r.end, k, q);
      }
    }
  }

  // ---- where in a run ---------------------------------------------------------------------------

  /** The first multiple of unit at least eight bytes into the run. */
  ghost function Behind(a: nat, unit: nat): nat
    requires unit > 0
  {
    (a + 8 + unit - 1) / unit * unit
  }

  /** Of 16, 8, 4, 2 and 1 the largest unit that leaves room for size bytes decides. */
  ghost predicate PlacedIn(a: nat, b: nat, size: nat, at: nat) {
    if Behind(a, 16) + size <= b then at == Behind(a, 16)
    else if Behind(a, 8) + size <= b then at == Behind(a, 8)
    else if Behind(a, 4) + size <= b then at == Behind(a, 4)
    else if Behind(a, 2) + size <= b then at == Behind(a, 2)
    else at == a + 8 && a + 8 + size <= b
  }

  lemma UnitInNumbers(r: Run, size: nat, unit: nat)
    requires unit > 0
    ensures var at := Behind(r.start, unit);
            SlotAt(r, size, unit) == if at + size <= r.end then Some(Slot(at, r.end, r.end - at)) else None
  {
  }

  lemma PlaceInNumbers(r: Run, size: nat, s: Slot)
    ensures SlotIn(r, size) == Some(s) <==>
              PlacedIn(r.start, r.end, size, s.at) && s == Slot(s.at, r.end, r.end - s.at)
  {
    UnitInNumbers(r, size, 16);
    UnitInNumbers(r, size, 8);
    UnitInNumbers(r, size, 4);
    UnitInNumbers(r, size, 2);
    UnitInNumbers(r, size, 1);
    assert Behind(r.start, 1) == r.start + 8;
    hide SlotAt, Behind;
  }

  // ---- which run --------------------------------------------------------------------------------

  /** Among elements that may stand either way round, those before are in this relation to those behind. */
  ghost predicate Ties<T(!new)>(s: seq<T>, before: (T, T) -> bool, tie: (T, T) -> bool) {
    forall j, k :: 0 <= j < k < |s| && before(s[j], s[k]) && before(s[k], s[j]) ==> tie(s[j], s[k])
  }

  lemma {:induction false} InsertTies<T(!new)>(x: T, s: seq<T>, before: (T, T) -> bool, tie: (T, T) -> bool)
    requires Ties(s, before, tie) && forall y :: y in s && before(x, y) && before(y, x) ==> tie(x, y)
    ensures Ties(Insert(x, s, before), before, tie)
  {
    if s != [] && !before(x, s[0]) {
      var tail := Insert(x, s[1..], before);
      InsertTies(x, s[1..], before, tie);
      InsertMembers(x, s[1..], before);
      SameMembers(tail, [x] + s[1..]);
      forall y | y in tail && before(s[0], y) && before(y, s[0]) ensures tie(s[0], y) {
        assert y in [x] + s[1..];
        if y != x {
          var k :| 0 <= k < |s[1..]| && s[1..][k] == y;
          assert s[k + 1] == y;
        }
      }
      TiesCons(s[0], tail, before, tie);
    } else {
      TiesCons(x, s, before, tie);
    }
  }

  lemma TiesCons<T(!new)>(x: T, s: seq<T>, before: (T, T) -> bool, tie: (T, T) -> bool)
    requires Ties(s, before, tie) && forall y :: y in s && before(x, y) && before(y, x) ==> tie(x, y)
    ensures Ties([x] + s, before, tie)
  {
  }

  lemma {:induction false} SortTies<T(!new)>(s: seq<T>, before: (T, T) -> bool, tie: (T, T) -> bool)
    requires Ranks(before) && Ties(s, before, tie)
    ensures Ties(Sort(s, before), before, tie)
  {
    if s != [] {
      var rest := Sort(s[1..], before);
      SortTies(s[1..], before, tie);
      SortIs(s[1..], before);
      SameMembers(rest, s[1..]);
      forall y | y in rest && before(s[0], y) && before(y, s[0]) ensures tie(s[0], y) {
        var k :| 0 <= k < |s[1..]| && s[1..][k] == y;
        assert s[k + 1] == y;
      }
      InsertTies(s[0], rest, before, tie);
    }
  }

  predicate Earlier(x: Run, y: Run) {
    x.start < y.start
  }

  lemma FilterTies(s: seq<Run>, p: Run -> bool)
    requires Ties(s, ShorterFirst, Earlier)
    ensures Ties(Filter(s, p), ShorterFirst, Earlier)
  {
    var inOrder := (x: Run, y: Run) => Len(x) == Len(y) ==> Earlier(x, y);
    assert Ordered(s, inOrder);
    FilterOrdered(s, p, inOrder);
    hide Filter, Earlier;
  }

  /** Padding runs of one length are tried in the order they lie in the image. */
  lemma PadsInOrder(data: seq<byte>)
    ensures Ties(Pads(ZeroRuns(data)), ShorterFirst, Earlier)
  {
    RunsAreMaximal(data);
    RunsEarlier(data);
    hide Runs, Maximal, Sort, Filter, PadRun;
    assert Ties(Runs(data), LongerFirst, Earlier);
    SortTies(Runs(data), LongerFirst, Earlier);
    assert Ties(ZeroRuns(data), ShorterFirst, Earlier);
    FilterTies(ZeroRuns(data), PadRun);
    SortTies(Filter(ZeroRuns(data), PadRun), ShorterFirst, Earlier);
  }

  lemma RunsEarlier(data: seq<byte>)
    ensures var rs := Runs(data); forall j, k :: 0 <= j < k < |rs| ==> Earlier(rs[j], rs[k])
  {
    RunsAreMaximal(data);
    hide Runs, LowBit;
    var rs := Runs(data);
    forall j, k | 0 <= j < k < |rs| ensures Earlier(rs[j], rs[k]) {
      assert rs[j] in rs && Maximal(data, rs[j]);
    }
  }

  /** Longer than any other run that ends on a page. */
  ghost predicate LongestPage(data: seq<byte>, a: nat, b: nat) {
    OnPage(data, a, b) && forall x: nat, y: nat :: OnPage(data, x, y) && (x, y) != (a, b) ==> y - x < b - a
  }

  /** Of the padding runs with room for size bytes none is shorter, and of the shortest none lies before it. */
  ghost predicate FirstShortest(data: seq<byte>, size: nat, a: nat, b: nat) {
    && InPadding(data, a, b) && b - a >= size + 8
    && forall x: nat, y: nat :: InPadding(data, x, y) && y - x >= size + 8 ==>
         y - x > b - a || (y - x == b - a && a <= x)
  }

  ghost predicate PageHasRoom(data: seq<byte>, size: nat) {
    exists a: nat, b: nat :: OnPage(data, a, b) && b - a >= size + 8
  }

  lemma RoomInNumbers(data: seq<byte>, size: nat)
    ensures TailFits(data, size) <==> PageHasRoom(data, size)
  {
    hide Maximal, PageTail, OnPage, LowBit;
    if r :| Maximal(data, r) && PageTail(r) && FitsRun(r, size) {
      AlignIs(data, r);
      RunInNumbers(data, r);
    }
    if a: nat, b: nat :| OnPage(data, a, b) && b - a >= size + 8 {
      var r := Run(a, b, LowBit(b));
      RunInNumbers(data, r);
      assert FitsRun(r, size);
    }
  }

  lemma AlignIs(data: seq<byte>, r: Run)
    requires Maximal(data, r)
    ensures r.align == LowBit(r.end)
  {
  }

  /** If a run that ends on a page has room, the one longest of these is taken; two longest are an error. */
  lemma PageChoice(data: seq<byte>, size: nat)
    requires PageHasRoom(data, size)
    ensures match ChosenSlot(data, size)
            case Ok(s) => s.capacity == s.end - s.at
                          && exists a: nat :: LongestPage(data, a, s.end) && PlacedIn(a, s.end, size, s.at)
            case Err(e) => e == Ambiguous && forall a: nat, b: nat :: !LongestPage(data, a, b)
  {
    RoomInNumbers(data, size);
    hide PageHasRoom, TailFits, ChosenSlot, SlotIn, PlacedIn, UniqueLongestTail, LongestPage;
    TailChoice(data, size);
    var c := ChosenSlot(data, size);
    if c.Ok? {
      var r :| UniqueLongestTail(data, r) && SlotIn(r, size) == Some(c.value);
      PlaceInNumbers(r, size, c.value);
      LongestInNumbers(data, r);
    } else {
      forall a: nat, b: nat ensures !LongestPage(data, a, b) {
        if LongestPage(data, a, b) { LongestIsTail(data, a, b); }
      }
    }
  }

  lemma LongestInNumbers(data: seq<byte>, r: Run)
    requires UniqueLongestTail(data, r)
    ensures LongestPage(data, r.start, r.end)
  {
    hide Maximal, PageTail, OnPage, LowBit;
    AlignIs(data, r);
    RunInNumbers(data, r);
    forall x: nat, y: nat | OnPage(data, x, y) && (x, y) != (r.start, r.end) ensures y - x < r.end - r.start {
      var o := Run(x, y, LowBit(y));
      RunInNumbers(data, o);
      assert Len(o) < Len(r);
    }
  }

  lemma LongestIsTail(data: seq<byte>, a: nat, b: nat)
    requires LongestPage(data, a, b)
    ensures UniqueLongestTail(data, Run(a, b, LowBit(b)))
  {
    hide Maximal, PageTail, OnPage, LowBit;
    var r := Run(a, b, LowBit(b));
    RunInNumbers(data, r);
    forall o | Maximal(data, o) && PageTail(o) && o != r ensures Len(o) < Len(r) {
      AlignIs(data, o);
      RunInNumbers(data, o);
    }
  }

  /** If none has, the first of the shortest padding runs with room is; without one there is no slot. */
  lemma PaddingChoice(data: seq<byte>, size: nat)
    requires !PageHasRoom(data, size)
    ensures match ChosenSlot(data, size)
            case Ok(s) => s.capacity == s.end - s.at
                          && exists a: nat :: FirstShortest(data, size, a, s.end) && PlacedIn(a, s.end, size, s.at)
            case Err(e) => e == NoSlot && forall a: nat, b: nat :: InPadding(data, a, b) ==> b - a < size + 8
  {
    RoomInNumbers(data, size);
    FitsAsTail(data, size);
    PadsAre(data);
    PadsInOrder(data);
    var pads := Pads(ZeroRuns(data));
    FirstSlotIs(pads, size);
    hide PageHasRoom, TailFits, SlotIn, PlacedIn, InPadding, FirstShortest, Maximal, PadRun, Pads, ZeroRuns, Tails,
         SomeFits, FirstSlot, Ties, Ordered;
    var c := ChosenSlot(data, size);
    if c.Ok? {
      var i :| 0 <= i < |pads| && SlotIn(pads[i], size) == Some(c.value) &&
               forall j :: 0 <= j < i ==> SlotIn(pads[j], size).None?;
      PlaceInNumbers(pads[i], size, c.value);
      FirstInNumbers(data, pads, i, size);
    } else {
      NoneInNumbers(data, pads, size);
    }
  }

  lemma FirstInNumbers(data: seq<byte>, pads: seq<Run>, i: nat, size: nat)
    requires Ordered(pads, ShorterFirst) && Ties(pads, ShorterFirst, Earlier)
    requires forall r :: r in pads <==> Maximal(data, r) && PadRun(r)
    requires i < |pads| && SlotIn(pads[i], size).Some? && forall j :: 0 <= j < i ==> SlotIn(pads[j], size).None?
    ensures FirstShortest(data, size, pads[i].start, pads[i].end)
  {
    hide Maximal, PadRun, SlotIn, InPadding, LowBit;
    var r := pads[i];
    assert r in pads;
    AlignIs(data, r);
    RunInNumbers(data, r);
    SlotInIff(r, size);
    forall x: nat, y: nat | InPadding(data, x, y) && y - x >= size + 8
      ensures y - x > r.end - r.start || (y - x == r.end - r.start && r.start <= x)
    {
      var o := Run(x, y, LowBit(y));
      RunInNumbers(data, o);
      SlotInIff(o, size);
      var k :| 0 <= k < |pads| && pads[k] == o;
      if i < k { assert ShorterFirst(pads[i], pads[k]); }
    }
  }

  lemma NoneInNumbers(data: seq<byte>, pads: seq<Run>, size: nat)
    requires forall r :: r in pads <==> Maximal(data, r) && PadRun(r)
    requires !SomeFits(pads, size)
    ensures forall a: nat, b: nat :: InPadding(data, a, b) ==> b - a < size + 8
  {
    hide Maximal, PadRun, SlotIn, InPadding, LowBit;
    forall a: nat, b: nat | InPadding(data, a, b) ensures b - a < size + 8 {
      var r := Run(a, b, LowBit(b));
      RunInNumbers(data, r);
      SlotInIff(r, size);
      var k :| 0 <= k < |pads| && pads[k] == r;
    }
  }

  // ---- instruction words ------------------------------------------------------------------------

  /** ADRP of register r: bit 31, two bits of the page distance at 29, 10000 at 24 and its other 19 bits at 5. */
  ghost function AdrpBits(lo: nat, hi: nat, r: nat): nat {
    0x9000_0000 + lo * 0x2000_0000 + hi * 32 + r
  }

  /** ADD of a twelve-bit number, shifted by twelve if sh is 1. */
  ghost function AddBits(sh: nat, imm: nat, src: nat, dst: nat): nat {
    0x9100_0000 + sh * 0x40_0000 + imm * 1024 + src * 32 + dst
  }

  lemma AdrpInNumbers(lo: nat, hi: nat, r: nat, pc: nat)
    requires lo < 4 && hi < 0x8_0000 && r < 32
    ensures DecodeAdrpPage(AdrpBits(lo, hi, r), pc)
            == (pc / 4096 + hi * 4 + lo - if hi >= 0x4_0000 then 0x20_0000 else 0) * 4096
  {
    AdrpFields(lo, hi, r);
  }

  /** The two parts of the page distance, if it is less than 2 to the power 20 either way. */
  lemma AdrpEncodes(reg: nat, pc: nat, target: nat)
    ensures var d := target / 4096 - pc / 4096;
            EncodeAdrp(reg, pc, target) ==
            if -0x10_0000 <= d < 0x10_0000 then Some(AdrpBits(d % 4, d % 0x20_0000 / 4, reg % 32)) else None
  {
    var d := target / 4096 - pc / 4096;
    if -0x10_0000 <= d < 0x10_0000 {
      LowBits(d);
    }
  }

  lemma LowBits(d: int)
    requires -0x10_0000 <= d < 0x10_0000
    ensures Low21(d) == d % 0x20_0000 && Low21(d) % 4 == d % 4
  {
  }

  lemma AddInNumbers(sh: nat, imm: nat, src: nat, dst: nat)
    requires sh < 2 && imm < 0x1000 && src < 32 && dst < 32
    ensures DecodeAddImm12(AddBits(sh, imm, src, dst)) == if sh == 1 then imm * 4096 else imm
  {
    AddFields(sh, imm, src, dst);
  }

  lemma AddEncodes(dst: nat, src: nat, imm: nat)
    ensures EncodeAddImm(dst, src, imm) ==
            if imm < 4096 then Some(AddBits(0, imm, src % 32, dst % 32))
            else if imm % 4096 == 0 && imm < 0x100_0000 then Some(AddBits(1, imm / 4096, src % 32, dst % 32))
            else None
  {
  }

  lemma AdrpParts(w: nat, r: nat)
    requires w < 0x1_0000_0000 && r < 32 && IsAdrp(w, r)
    ensures w == AdrpBits(w / 0x2000_0000 % 4, w / 32 % 0x8_0000, r)
  {
    var high := w / 0x100_0000;
    assert high == 144 + 32 * (w / 0x2000_0000 % 4);
    assert w / 32 == high * 0x8_0000 + w / 32 % 0x8_0000;
  }

  lemma AdrpSeen(w: nat, r: nat)
    requires w < 0x1_0000_0000 && r < 32
    ensures IsAdrp(w, r) <==> exists lo: nat, hi: nat :: AdrpBits(lo, hi, r) == w && lo < 4 && hi < 0x8_0000
  {
    if IsAdrp(w, r) { AdrpParts(w, r); }
    if lo: nat, hi: nat :| AdrpBits(lo, hi, r) == w && lo < 4 && hi < 0x8_0000 { AdrpFields(lo, hi, r); }
  }

  /** A word with these ten low bits and these ten high ones. */
  lemma TwelveBetween(w: nat, high: nat, low: nat)
    requires low < 1024
    ensures (w / 0x40_0000 == high && w % 1024 == low)
            <==> exists imm: nat :: Between(high, imm, low) == w && imm < 4096
  {
    if w / 0x40_0000 == high && w % 1024 == low {
      assert Between(high, w / 1024 % 4096, low) == w;
    }
  }

  ghost function Between(high: nat, imm: nat, low: nat): nat {
    high * 0x40_0000 + imm * 1024 + low
  }

  // ---- the call site ----------------------------------------------------------------------------

  /** ADRP X2 and ADD X2,X2 with these fields at off. */
  ghost predicate PairAt(data: seq<byte>, off: nat, lo: nat, hi: nat, imm: nat)
    requires off + 8 <= |data|
  {
    && lo < 4 && hi < 0x8_0000 && imm < 4096
    && U32le(data, off) == AdrpBits(lo, hi, 2) && U32le(data, off + 4) == AddBits(0, imm, 2, 2)
  }

  /** ADD X0,SP or SUB X0,X29 of some number, MOV W1,#0x400 and BL. */
  ghost predicate CallAt(data: seq<byte>, off: nat)
    requires off + 12 <= |data|
  {
    && (exists imm: nat :: imm < 4096 && (U32le(data, off) == Between(0x244, imm, 0x3E0)
                                          || U32le(data, off) == Between(0x344, imm, 0x3A0)))
    && U32le(data, off + 4) == 0x5280_8001
    && 0x9400_0000 <= U32le(data, off + 8) < 0x9800_0000
  }

  /** A zero, "%s" and a zero, one byte before f. */
  ghost predicate FormatAt(data: seq<byte>, f: int) {
    1 <= f && f + 3 <= |data| && data[f - 1] == 0 && data[f] == 0x25 && data[f + 1] == 0x73 && data[f + 2] == 0
  }

  /** The pair, the call, and the format where the pair points. */
  ghost predicate Site(data: seq<byte>, base: nat, off: nat) {
    && off % 4 == 0 && off + 20 < |data| && CallAt(data, off + 8)
    && exists lo: nat, hi: nat, imm: nat ::
         && PairAt(data, off, lo, hi, imm)
         && FormatAt(data, ((base + off) / 4096 + hi * 4 + lo - if hi >= 0x4_0000 then 0x20_0000 else 0) * 4096
                           + imm - base)
  }

  lemma WordBound(data: seq<byte>, o: nat)
    requires o + 4 <= |data|
    ensures U32le(data, o) < 0x1_0000_0000
  {
    LEBound(data[o..o + 4]);
    assert Pow256(4) == 0x1_0000_0000;
  }

  lemma CallInNumbers(data: seq<byte>, off: nat)
    requires off + 12 <= |data|
    ensures CallAt(data, off) <==>
              && IsBuffer(U32le(data, off)) && U32le(data, off + 4) == 0x5280_8001
              && U32le(data, off + 8) / 0x400_0000 == 0x25
  {
    hide U32le, Between;
    TwelveBetween(U32le(data, off), 0x244, 0x3E0);
    TwelveBetween(U32le(data, off), 0x344, 0x3A0);
  }

  lemma AddIsBetween(imm: nat)
    ensures AddBits(0, imm, 2, 2) == Between(0x244, imm, 0x42)
  {
  }

  /** The two words of the pair, and where it points. */
  lemma PairInNumbers(data: seq<byte>, base: nat, off: nat)
    requires off + 8 <= |data|
    ensures IsAdrp(U32le(data, off), 2) && U32le(data, off + 4) / 0x40_0000 == 0x244
            && U32le(data, off + 4) % 1024 == 0x42
            <==> exists lo: nat, hi: nat, imm: nat :: PairAt(data, off, lo, hi, imm)
    ensures forall lo: nat, hi: nat, imm: nat :: PairAt(data, off, lo, hi, imm) ==>
              PointsAt(data, base, off)
              == ((base + off) / 4096 + hi * 4 + lo - if hi >= 0x4_0000 then 0x20_0000 else 0) * 4096 + imm - base
  {
    var w, v := U32le(data, off), U32le(data, off + 4);
    WordBound(data, off);
    hide U32le, AdrpBits, AddBits, IsAdrp, Between, DecodeAdrpPage, DecodeAddImm12;
    AdrpSeen(w, 2);
    TwelveBetween(v, 0x244, 0x42);
    forall imm: nat ensures AddBits(0, imm, 2, 2) == Between(0x244, imm, 0x42) { AddIsBetween(imm); }
    if IsAdrp(w, 2) && v / 0x40_0000 == 0x244 && v % 1024 == 0x42 {
      var lo: nat, hi: nat :| AdrpBits(lo, hi, 2) == w && lo < 4 && hi < 0x8_0000;
      var imm: nat :| Between(0x244, imm, 0x42) == v && imm < 4096;
      assert PairAt(data, off, lo, hi, imm);
    }
    forall lo: nat, hi: nat, imm: nat | PairAt(data, off, lo, hi, imm)
      ensures PointsAt(data, base, off)
              == ((base + off) / 4096 + hi * 4 + lo - if hi >= 0x4_0000 then 0x20_0000 else 0) * 4096 + imm - base
    {
      AdrpInNumbers(lo, hi, 2, base + off);
      AddInNumbers(0, imm, 2, 2);
    }
  }

  lemma FormatInNumbers(data: seq<byte>, f: int)
    ensures FormatAt(data, f) <==> 1 <= f && f + 3 <= |data| && data[f - 1..f + 3] == [0, 0x25, 0x73, 0]
  {
    if 1 <= f && f + 3 <= |data| {
      var s := data[f - 1..f + 3];
      assert s == [data[f - 1], data[f], data[f + 1], data[f + 2]];
    }
  }

  /** The call sites searched for are these. */
  lemma SiteInNumbers(data: seq<byte>, base: nat, off: nat)
    ensures CallSite(data, base, off) <==> Site(data, base, off)
  {
    hide U32le, IsAdrp, IsBuffer, PointsAt, PairAt, CallAt, FormatAt;
    if off + 20 < |data| {
      CallInNumbers(data, off + 8);
      PairInNumbers(data, base, off);
      FormatInNumbers(data, PointsAt(data, base, off));
    }
  }

  // ---- the patched image ------------------------------------------------------------------------

  lemma ResolvedParts(data: seq<byte>, base: nat, args: seq<byte>)
    requires Resolved(data, base, args).Ok?
    ensures var p, sites := Resolved(data, base, args).value, AllSites(data, base);
            && GoodArgs(args) && |sites| == 1 && p.site == sites[0] && p.literal == args + [0]
            && ChosenSlot(data, |args| + 1).Ok? && ChosenSlot(data, |args| + 1).value.at == p.at
            && EncodeAdrp(2, base + p.site, base + p.at) == Some(p.adrp)
            && EncodeAddImm(2, 2, (base + p.at) % 4096) == Some(p.add)
  {
    hide AllSites, ChosenSlot, CallSite, EncodeAdrp, EncodeAddImm, U32le, GoodArgs;
  }

  lemma OneSite(data: seq<byte>, base: nat, o: nat)
    requires AllSites(data, base) == [o]
    ensures Site(data, base, o) && forall q: nat :: Site(data, base, q) ==> q == o
  {
    AllSitesExact(data, base);
    hide AllSites, CallSite, Site;
    assert o in AllSites(data, base);
    SiteInNumbers(data, base, o);
    forall q: nat | Site(data, base, q) ensures q == o { SiteInNumbers(data, base, q); }
  }

  lemma WordsWritten(data: seq<byte>, base: nat, args: seq<byte>, p: Redirect)
    requires Resolved(data, base, args) == Ok(p)
    ensures Applicable(data, p)
    ensures U32le(Applied(data, p), p.site) == p.adrp && U32le(Applied(data, p), p.site + 4) == p.add
    ensures Applied(data, p)[p.at..p.at + |p.literal|] == p.literal
  {
    hide Resolved, Patch, U32le, ChosenSlot, AllSites, EncodeAdrp, EncodeAddImm, GoodArgs;
    ResolvedParts(data, base, args);
    RedirectApart(data, base, args);
    WordsDecode(base, p.site, p.at);
    AppliedWords(data, p);
  }

  /** The two words written. */
  lemma NewWords(base: nat, site: nat, at: nat, p: Redirect)
    requires EncodeAdrp(2, base + site, base + at) == Some(p.adrp)
    requires EncodeAddImm(2, 2, (base + at) % 4096) == Some(p.add)
    ensures var d := (base + at) / 4096 - (base + site) / 4096; p.adrp == AdrpBits(d % 4, d % 0x20_0000 / 4, 2)
    ensures p.add == AddBits(0, (base + at) % 4096, 2, 2)
  {
    hide EncodeAdrp, EncodeAddImm, AdrpBits, AddBits;
    AdrpEncodes(2, base + site, base + at);
    AddEncodes(2, 2, (base + at) % 4096);
  }

  /** Both words and the literal are in place, at the one site and in the slot. */
  lemma PatchInNumbers(data: seq<byte>, base: nat, args: seq<byte>)
    requires Resolved(data, base, args).Ok?
    ensures var p := Resolved(data, base, args).value;
            var d := (base + p.at) / 4096 - (base + p.site) / 4096;
            && Site(data, base, p.site) && (forall q: nat :: Site(data, base, q) ==> q == p.site)
            && ChosenSlot(data, |args| + 1).Ok? && ChosenSlot(data, |args| + 1).value.at == p.at
            && Applicable(data, p)
            && U32le(Applied(data, p), p.site) == AdrpBits(d % 4, d % 0x20_0000 / 4, 2)
            && U32le(Applied(data, p), p.site + 4) == AddBits(0, (base + p.at) % 4096, 2, 2)
            && Applied(data, p)[p.at..p.at + |args| + 1] == args + [0]
    ensures args != [] && forall c :: c in args ==> 1 <= c < 128 && c != 0x25
  {
    hide Resolved, AllSites, ChosenSlot, EncodeAdrp, EncodeAddImm, U32le, AdrpBits, AddBits, Site, Applied, Applicable;
    var p := Resolved(data, base, args).value;
    ResolvedParts(data, base, args);
    assert AllSites(data, base) == [p.site];
    OneSite(data, base, p.site);
    WordsWritten(data, base, args, p);
    NewWords(base, p.site, p.at, p);
  }

  /** Arguments are refused that are empty or have a zero, a percent sign or what is not ASCII in them. */
  lemma ArgsInNumbers(data: seq<byte>, base: nat, args: seq<byte>)
    ensures Resolved(data, base, args) == Err(BadArgs)
            <==> args == [] || exists c :: c in args && (c == 0 || c == 0x25 || c >= 128)
  {
    hide AllSites, ChosenSlot, CallSite, EncodeAdrp, EncodeAddImm, U32le;
  }
}
