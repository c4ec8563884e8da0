/** The stable sort behind list.sort, sorted and chunks.sort(), over any order. */
module StableSort {

  /** Of any two elements one may stand before the other, and this carries on. */
  ghost predicate Ranks<T(!new)>(before: (T, T) -> bool) {
    && (forall x, y :: before(x, y) || before(y, x))
    && forall x, y, z :: before(x, y) && before(y, z) ==> before(x, z)
  }

  /** Only equal elements may stand either way round. */
  ghost predicate Separates<T(!new)>(before: (T, T) -> bool) {
    forall x, y :: before(x, y) && before(y, x) ==> x == y
  }

  function Insert<T>(x: T, s: seq<T>, before: (T, T) -> bool): seq<T> {
    if s == [] || before(x, s[0]) then [x] + s else [s[0]] + Insert(x, s[1..], before)
  }

  function Sort<T>(s: seq<T>, before: (T, T) -> bool): seq<T> {
    if s == [] then [] else Insert(s[0], Sort(s[1..], before), before)
  }

  predicate Ordered<T>(s: seq<T>, before: (T, T) -> bool) {
    forall j, k :: 0 <= j < k < |s| ==> before(s[j], s[k])
  }

  /** The elements with a property, in the order they stand. */
  function Filter<T>(s: seq<T>, p: T -> bool): seq<T> {
    if s == [] then [] else (if p(s[0]) then [s[0]] else []) + Filter(s[1..], p)
  }

  lemma SameMembers<T>(a: seq<T>, b: seq<T>)
    requires multiset(a) == multiset(b)
    ensures forall x :: x in a <==> x in b
  {
    assert forall x :: x in a <==> x in multiset(a);
    assert forall x :: x in b <==> x in multiset(b);
  }

  lemma OrderedCons<T>(x: T, s: seq<T>, before: (T, T) -> bool)
    requires Ordered(s, before) && forall y :: y in s ==> before(x, y)
    ensures Ordered([x] + s, before)
  {
  }

  lemma {:induction false} InsertMembers<T>(x: T, s: seq<T>, before: (T, T) -> bool)
    ensures multiset(Insert(x, s, before)) == multiset([x] + s)
  {
    if s != [] && !before(x, s[0]) {
      InsertMembers(x, s[1..], before);
      assert s == [s[0]] + s[1..];
    }
  }

  lemma {:induction false} InsertOrdered<T(!new)>(x: T, s: seq<T>, before: (T, T) -> bool)
    requires Ranks(before) && Ordered(s, before)
    ensures Ordered(Insert(x, s, before), before)
  {
    if s == [] || before(x, s[0]) {
      forall y | y in s ensures before(x, y) {
        assert s[0] == y || before(s[0], y);
      }
      OrderedCons(x, s, before);
    } else {
      var tail := Insert(x, s[1..], before);
      InsertOrdered(x, s[1..], before);
      InsertMembers(x, s[1..], before);
      SameMembers(tail, [x] + s[1..]);
      hide Insert;
      forall y | y in tail ensures before(s[0], y) {
        assert y in [x] + s[1..];
      }
      OrderedCons(s[0], tail, before);
    }
  }

  /** The sort keeps what there is and orders it. */
  lemma {:induction false} SortIs<T(!new)>(s: seq<T>, before: (T, T) -> bool)
    requires Ranks(before)
    ensures Ordered(Sort(s, before), before) && multiset(Sort(s, before)) == multiset(s)
  {
    if s != [] {
      SortIs(s[1..], before);
      InsertOrdered(s[0], Sort(s[1..], before), before);
      InsertMembers(s[0], Sort(s[1..], before), before);
      hide Insert;
      assert s == [s[0]] + s[1..];
    }
  }

  /** Elements that may stand either way round stay as they stood. */
  lemma {:induction false} InsertStable<T(!new)>(x: T, s: seq<T>, before: (T, T) -> bool, p: T -> bool)
    requires forall y :: p(x) && p(y) ==> before(x, y)
    ensures Filter(Insert(x, s, before), p) == Filter([x] + s, p)
  {
    assert ([x] + s)[1..] == s;
    if s != [] && !before(x, s[0]) {
      var tail := Insert(x, s[1..], before);
      InsertStable(x, s[1..], before, p);
      assert ([s[0]] + tail)[1..] == tail && ([x] + s[1..])[1..] == s[1..];
    }
  }

  lemma {:induction false} SortStable<T(!new)>(s: seq<T>, before: (T, T) -> bool, p: T -> bool)
    requires forall x, y :: p(x) && p(y) ==> before(x, y)
    ensures Filter(Sort(s, before), p) == Filter(s, p)
  {
    if s != [] {
      var tail := Sort(s[1..], before);
      SortStable(s[1..], before, p);
      InsertStable(s[0], tail, before, p);
      assert ([s[0]] + tail)[1..] == tail;
    }
  }

  /** Under an order that separates, the sorted sequence depends on the elements only. */
  lemma {:induction false} OrderedUnique<T(!new)>(a: seq<T>, b: seq<T>, before: (T, T) -> bool)
    requires Separates(before) && Ordered(a, before) && Ordered(b, before) && multiset(a) == multiset(b)
    ensures a == b
  {
    assert |a| == |multiset(a)| == |multiset(b)| == |b|;
    if a != [] {
      SameMembers(a, b);
      FirstIsFirst(a, b, before);
      TailMembers(a);
      TailMembers(b);
      OrderedUnique(a[1..], b[1..], before);
    }
  }

  lemma TailMembers<T>(s: seq<T>)
    requires s != []
    ensures s == [s[0]] + s[1..] && multiset(s[1..]) == multiset(s) - multiset{s[0]}
  {
    assert s == [s[0]] + s[1..];
  }

  lemma FirstIsFirst<T(!new)>(a: seq<T>, b: seq<T>, before: (T, T) -> bool)
    requires Separates(before) && Ordered(a, before) && Ordered(b, before) && a != [] && b != []
    requires forall x :: x in a <==> x in b
    ensures a[0] == b[0]
  {
    assert a[0] in b && b[0] in a;
    var i :| 0 <= i < |b| && b[i] == a[0];
    var j :| 0 <= j < |a| && a[j] == b[0];
    if i > 0 && j > 0 { assert before(b[0], b[i]) && before(a[0], a[j]); }
  }

  lemma SortUnique<T(!new)>(a: seq<T>, b: seq<T>, before: (T, T) -> bool)
    requires Ranks(before) && Separates(before) && multiset(a) == multiset(b)
    ensures Sort(a, before) == Sort(b, before)
  {
    SortIs(a, before);
    SortIs(b, before);
    OrderedUnique(Sort(a, before), Sort(b, before), before);
  }

  // ---- what a filter keeps ----------------------------------------------------------------------

  ghost predicate Distinct<T(!new)>(s: seq<T>) {
    forall j, k :: 0 <= j < k < |s| ==> s[j] != s[k]
  }

  lemma DistinctCons<T(!new)>(x: T, s: seq<T>)
    ensures Distinct([x] + s) <==> Distinct(s) && x !in s
  {
    var all := [x] + s;
    assert forall k :: 0 <= k < |s| ==> s[k] == all[k + 1];
    if x in s {
      var k :| 0 <= k < |s| && s[k] == x;
      assert all[0] == all[k + 1];
    }
  }

  lemma FilterStep<T>(s: seq<T>, p: T -> bool)
    requires s != []
    ensures s == [s[0]] + s[1..]
    ensures Filter(s, p) == if p(s[0]) then [s[0]] + Filter(s[1..], p) else Filter(s[1..], p)
  {
  }

  lemma {:induction false} FilterMembers<T(!new)>(s: seq<T>, p: T -> bool)
    ensures forall x :: x in Filter(s, p) <==> x in s && p(x)
  {
    if s != [] {
      FilterMembers(s[1..], p);
      FilterStep(s, p);
      hide Filter;
    }
  }

  lemma {:induction false} FilterOrdered<T(!new)>(s: seq<T>, p: T -> bool, before: (T, T) -> bool)
    requires Ordered(s, before)
    ensures Ordered(Filter(s, p), before)
  {
    if s != [] {
      var rest := Filter(s[1..], p);
      FilterOrdered(s[1..], p, before);
      FilterMembers(s[1..], p);
      FilterStep(s, p);
      hide Filter;
      assert forall y :: y in s[1..] ==> before(s[0], y);
      hide Ordered;
      OrderedCons(s[0], rest, before);
    }
  }

  lemma {:induction false} FilterDistinct<T(!new)>(s: seq<T>, p: T -> bool)
    requires Distinct(s)
    ensures Distinct(Filter(s, p))
  {
    if s != [] {
      hide Distinct;
      DistinctCons(s[0], s[1..]);
      FilterStep(s, p);
      FilterDistinct(s[1..], p);
      FilterMembers(s[1..], p);
      DistinctCons(s[0], Filter(s[1..], p));
      hide Filter;
    }
  }

  lemma {:induction false} DistinctCounts<T(!new)>(s: seq<T>)
    ensures Distinct(s) <==> forall x :: multiset(s)[x] <= 1
  {
    if s != [] {
      DistinctCounts(s[1..]);
      DistinctCons(s[0], s[1..]);
      hide Distinct;
      assert s == [s[0]] + s[1..];
      assert multiset(s) == multiset{s[0]} + multiset(s[1..]);
      assert forall x :: multiset(s)[x] == multiset(s[1..])[x] + if x == s[0] then 1 else 0;
      assert s[0] in s[1..] <==> s[0] in multiset(s[1..]);
    }
  }

  lemma DistinctSame<T(!new)>(a: seq<T>, b: seq<T>)
    requires multiset(a) == multiset(b) && Distinct(a)
    ensures Distinct(b)
  {
    hide Distinct;
    DistinctCounts(a);
    DistinctCounts(b);
  }
}
