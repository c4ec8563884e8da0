/** What the touch driver keeps over whole runs. */
module TouchRuns {
  import opened Bytes
  import opened TouchSlots
  import opened TouchDriver

  ghost predicate Distinct(fs: seq<Finger>) {
    forall i, j :: 0 <= i < j < |fs| ==> fs[i].id != fs[j].id
  }

  ghost function DownIds(fs: seq<Finger>): set<int> {
    set f | f in fs && IsDown(f) :: f.id as int
  }

  /** The slot table between frames: nothing reported on yet. */
  ghost predicate SlotsOk(s: State) {
    |s.table.slots| == MAX_FINGERS && UniqueKeys(s.table.slots) && NothingUsed(s.table.slots)
  }

  /** And every contact is one the driver remembers as down. */
  ghost predicate Inv(s: State) {
    SlotsOk(s) && Active(s.table.slots) <= s.down
  }

  ghost function Contacts(s: State): set<int> {
    Active(s.table.slots)
  }

  // ---- one frame --------------------------------------------------------------------------------

  /** The contacts a pass leaves: those reported down that got a slot. */
  lemma PassThenSync(t: Table, rs: seq<Report>)
    requires UniqueKeys(t.slots) && NothingUsed(t.slots) && DistinctKeys(rs)
    ensures var t', a, n := Sync(ApplyAll(t, rs)), Active(t.slots), |t.slots|;
            && |t'.slots| == n && UniqueKeys(t'.slots) && NothingUsed(t'.slots)
            && Active(t'.slots) == SeatedDown(a, rs, n)
            && t'.log == t.log + OpenedBy(a, rs, n)
  {
    PassEffect(t, rs);
    hide *;
    SyncEffect(ApplyAll(t, rs));
  }

  lemma ReportsDistinct(fs: seq<Finger>, down: set<byte>, prev: set<byte>)
    requires Distinct(fs)
    ensures DistinctKeys(PlainReports(fs)) && DistinctKeys(TapReports(fs, down, prev))
  {
  }

  /** The contacts in the second pass of a frame. */
  ghost function BeforeLastPass(s: State, fs: seq<Finger>): set<int> {
    if AnyMissed(fs, s.down, s.prev) then SeatedDown(Contacts(s), TapReports(fs, s.down, s.prev), MAX_FINGERS)
    else Contacts(s)
  }

  lemma FrameContacts(s: State, fs: seq<Finger>)
    requires SlotsOk(s) && Distinct(fs)
    ensures Contacts(Frame(s, fs)) == SeatedDown(BeforeLastPass(s, fs), PlainReports(fs), MAX_FINGERS)
    ensures var t' := Frame(s, fs).table; |t'.slots| == MAX_FINGERS && UniqueKeys(t'.slots) && NothingUsed(t'.slots)
  {
    ReportsDistinct(fs, s.down, s.prev);
    hide ApplyAll, Sync, SeatedDown, OpenedBy, Active, UniqueKeys, NothingUsed, PlainReports, TapReports;
    hide DistinctKeys, AnyMissed;
    if AnyMissed(fs, s.down, s.prev) {
      PassThenSync(s.table, TapReports(fs, s.down, s.prev));
      PassThenSync(Sync(ApplyAll(s.table, TapReports(fs, s.down, s.prev))), PlainReports(fs));
    } else {
      PassThenSync(s.table, PlainReports(fs));
    }
  }

  /** Who is seated in a pass, finger by finger. */
  lemma {:induction false} SeatedDownIs(a: set<int>, rs: seq<Report>, n: nat)
    ensures forall k :: k in SeatedDown(a, rs, n) <==>
              exists i :: 0 <= i < |rs| && rs[i].key == k && rs[i].down && Seated(a, rs[..i], k, n)
    decreases |rs|
  {
    if rs != [] {
      var m := |rs| - 1;
      var before := rs[..m];
      SeatedDownIs(a, before, n);
      assert forall i :: 0 <= i < m ==> rs[i] == before[i] && rs[..i] == before[..i];
      hide Seated;
      forall k ensures k in SeatedDown(a, rs, n) <==>
                         exists i :: 0 <= i < |rs| && rs[i].key == k && rs[i].down && Seated(a, rs[..i], k, n)
      {
        if k in SeatedDown(a, before, n) {
          var i :| 0 <= i < m && before[i].key == k && before[i].down && Seated(a, before[..i], k, n);
          assert rs[i].key == k && rs[i].down && Seated(a, rs[..i], k, n);
        }
        if i :| 0 <= i < |rs| && rs[i].key == k && rs[i].down && Seated(a, rs[..i], k, n) {
          if i < m {
            assert before[i].key == k && before[i].down && Seated(a, before[..i], k, n);
          }
        }
        if rs[m].key == k && rs[m].down && Seated(a, before, k, n) {
          assert rs[m].key == k && rs[..m] == before;
        }
      }
    }
  }

  /** Every finger down in the frame finds a slot, a being the contacts before the pass. */
  ghost predicate RoomForAll(a: set<int>, fs: seq<Finger>) {
    forall i :: 0 <= i < |fs| && IsDown(fs[i]) ==> Seated(a, PlainReports(fs)[..i], fs[i].id, MAX_FINGERS)
  }

  lemma SeatedDownVersusDownIds(a: set<int>, fs: seq<Finger>)
    requires Distinct(fs)
    ensures var kept := SeatedDown(a, PlainReports(fs), MAX_FINGERS);
            kept <= DownIds(fs) && (kept == DownIds(fs) <==> RoomForAll(a, fs))
  {
    var rs := PlainReports(fs);
    var kept := SeatedDown(a, rs, MAX_FINGERS);
    SeatedDownIs(a, rs, MAX_FINGERS);
    hide Seated, SeatedDown;
    forall k | k in kept ensures k in DownIds(fs) {
      var i :| 0 <= i < |rs| && rs[i].key == k && rs[i].down && Seated(a, rs[..i], k, MAX_FINGERS);
      assert fs[i] in fs && IsDown(fs[i]) && fs[i].id == k;
    }
    if RoomForAll(a, fs) {
      forall k | k in DownIds(fs) ensures k in kept {
        var f :| f in fs && IsDown(f) && f.id == k;
        var i :| 0 <= i < |fs| && fs[i] == f;
        assert rs[i].key == k && rs[i].down && Seated(a, rs[..i], k, MAX_FINGERS);
      }
    }
    if kept == DownIds(fs) {
      forall i | 0 <= i < |fs| && IsDown(fs[i])
        ensures Seated(a, rs[..i], fs[i].id, MAX_FINGERS)
      {
        assert fs[i].id as int in kept;
        var j :| 0 <= j < |rs| && rs[j].key == fs[i].id && rs[j].down && Seated(a, rs[..j], fs[i].id, MAX_FINGERS);
        assert j == i;
      }
    }
  }

  lemma {:induction false} FewKeys(rs: seq<Report>)
    ensures |Keys(rs)| <= |rs|
    decreases |rs|
  {
    if rs == [] {
      assert Keys(rs) == {};
    } else {
      KeysSnoc(rs);
      FewKeys(rs[..|rs| - 1]);
    }
  }

  /** With the contacts among the frame's own fingers, at most 16 of them, there is always room. */
  lemma RoomWhenAmongFrame(a: set<int>, fs: seq<Finger>)
    requires Distinct(fs) && |fs| <= MAX_FINGERS && a <= Keys(PlainReports(fs))
    ensures RoomForAll(a, fs)
  {
    var rs := PlainReports(fs);
    forall i | 0 <= i < |fs| && IsDown(fs[i])
      ensures Seated(a, rs[..i], fs[i].id, MAX_FINGERS)
    {
      var k: int := fs[i].id;
      if k !in a {
        var others := a + Keys(rs[..i]);
        assert k !in Keys(rs[..i]);
        forall x | x in others ensures x in Keys(rs) - {k} {
          if x in Keys(rs[..i]) {
            var j :| 0 <= j < i && rs[..i][j].key == x;
            assert rs[j].key == x;
          }
        }
        assert rs[i].key in Keys(rs);
        Subset(others, Keys(rs) - {k});
        FewKeys(rs);
      }
    }
  }

  lemma Subset(a: set<int>, b: set<int>)
    requires a <= b
    ensures |a| <= |b|
  {
    assert b == a + (b - a);
  }

  /** After a frame the contacts are the fingers in state 3 or 4, exactly when each of them that had no
      contact before found a slot; a frame with a missed tap always meets this, since its first pass
      already dropped the contacts it does not mention. */
  lemma FrameShowsDownFingers(s: State, fs: seq<Finger>)
    requires SlotsOk(s) && Distinct(fs) && |fs| <= MAX_FINGERS
    ensures Contacts(Frame(s, fs)) <= DownIds(fs)
    ensures Contacts(Frame(s, fs)) == DownIds(fs) <==> AnyMissed(fs, s.down, s.prev) || RoomForAll(Contacts(s), fs)
  {
    FrameContacts(s, fs);
    var a := BeforeLastPass(s, fs);
    SeatedDownVersusDownIds(a, fs);
    if AnyMissed(fs, s.down, s.prev) {
      var tap := TapReports(fs, s.down, s.prev);
      SeatedDownAmong(Contacts(s), tap, MAX_FINGERS);
      assert Keys(tap) == Keys(PlainReports(fs)) by { SameKeys(fs, s.down, s.prev); }
      RoomWhenAmongFrame(a, fs);
    }
  }

  lemma SameKeys(fs: seq<Finger>, down: set<byte>, prev: set<byte>)
    ensures Keys(TapReports(fs, down, prev)) == Keys(PlainReports(fs))
    ensures forall i :: 0 <= i <= |fs| ==> Keys(TapReports(fs, down, prev)[..i]) == Keys(PlainReports(fs)[..i])
  {
    var p, q := TapReports(fs, down, prev), PlainReports(fs);
    forall i | 0 <= i <= |fs| ensures Keys(p[..i]) == Keys(q[..i]) {
      forall k ensures k in Keys(p[..i]) <==> k in Keys(q[..i]) {
        if j :| 0 <= j < i && p[..i][j].key == k { assert q[..i][j].key == k; }
        if j :| 0 <= j < i && q[..i][j].key == k { assert p[..i][j].key == k; }
      }
    }
    assert p[..|fs|] == p && q[..|fs|] == q;
  }

  /** The usual case: the contacts and the frame's fingers together fit the slots. */
  lemma RoomWhenFew(a: set<int>, fs: seq<Finger>)
    requires Distinct(fs) && |a + Keys(PlainReports(fs))| <= MAX_FINGERS
    ensures RoomForAll(a, fs)
  {
    var rs := PlainReports(fs);
    forall i | 0 <= i < |fs| && IsDown(fs[i])
      ensures Seated(a, rs[..i], fs[i].id, MAX_FINGERS)
    {
      SeatedWhenFew(a, fs, i);
    }
  }

  lemma SeatedWhenFew(a: set<int>, fs: seq<Finger>, i: nat)
    requires Distinct(fs) && i < |fs| && |a + Keys(PlainReports(fs))| <= MAX_FINGERS
    ensures Seated(a, PlainReports(fs)[..i], fs[i].id, MAX_FINGERS)
  {
    var rs := PlainReports(fs);
    var k: int := fs[i].id;
    if k !in a {
      assert k !in Keys(rs[..i]) && rs[i].key in Keys(rs);
      forall x | x in Keys(rs[..i]) ensures x in Keys(rs) {
        var j :| 0 <= j < i && rs[..i][j].key == x;
        assert rs[j].key == x;
      }
      Subset(a + Keys(rs[..i]), a + Keys(rs) - {k});
    }
  }

  // ---- whole runs -------------------------------------------------------------------------------

  lemma {:induction false} DownAfterHasDownIds(fs: seq<Finger>, down: set<byte>)
    requires Distinct(fs)
    ensures forall i :: 0 <= i < |fs| ==> (fs[i].id in DownAfter(fs, down) <==> IsDown(fs[i]))
    decreases |fs|
  {
    if fs != [] {
      var before := fs[..|fs| - 1];
      assert forall i :: 0 <= i < |before| ==> fs[i] == before[i];
      DownAfterHasDownIds(before, down);
    }
  }

  /** A frame ends with every contact remembered as down, whatever the bitmaps said before. */
  lemma FrameRestores(s: State, fs: seq<Finger>)
    requires SlotsOk(s) && Distinct(fs)
    ensures Inv(Frame(s, fs))
  {
    FrameContacts(s, fs);
    DownAfterHasDownIds(fs, s.down);
    SeatedDownVersusDownIds(BeforeLastPass(s, fs), fs);
    hide SeatedDown, BeforeLastPass, UniqueKeys, NothingUsed, DownAfter;
    forall k | k in Contacts(Frame(s, fs)) ensures k in Frame(s, fs).down {
      var f :| f in fs && IsDown(f) && f.id == k;
      var i :| 0 <= i < |fs| && fs[i] == f;
    }
  }

  /** The release timeout leaves no contact and an empty down bitmap; when it fires, prev is empty too. */
  lemma TimeoutReleases(s: State)
    requires Inv(s)
    ensures Inv(Timeout(s)) && Contacts(Timeout(s)) == {} && Timeout(s).down == {}
    ensures s.down != {} ==> Timeout(s).prev == {}
  {
    SyncEffect(s.table);
    assert Kept(s.table.slots) == {};
  }

  /** Reloading the firmware clears the bitmaps but not the slots: the invariant survives exactly when no
      finger was on the glass. Otherwise the contacts stay, and the timeout will not let go of them. */
  lemma BootKeepsContacts(s: State)
    requires Inv(s)
    ensures SlotsOk(Booted(s)) && Contacts(Booted(s)) == Contacts(s)
    ensures Inv(Booted(s)) <==> Contacts(s) == {}
    ensures Timeout(Booted(s)) == Booted(s)
  {
  }

  datatype Event = Touches(fs: seq<Finger>) | Silence | Reload

  function Step(s: State, e: Event): State {
    match e
    case Touches(fs) => Frame(s, fs)
    case Silence => Timeout(s)
    case Reload => Booted(s)
  }

  function Run(s: State, es: seq<Event>): State
    decreases |es|
  {
    if es == [] then s else Step(Run(s, es[..|es| - 1]), es[|es| - 1])
  }

  ghost predicate WellFormed(es: seq<Event>) {
    forall e :: e in es && e.Touches? ==> Distinct(e.fs)
  }

  /** No firmware reload since the last frame. */
  predicate Settled(es: seq<Event>)
    decreases |es|
  {
    es == [] || match es[|es| - 1] case Touches(_) => true case Reload => false case Silence => Settled(es[..|es| - 1])
  }

  /** In every run from the driver's first state, as long as no reload came after the last frame, the
      contacts of the input core are among the fingers the driver remembers as down. */
  lemma {:induction false} RunKeepsInv(s: State, es: seq<Event>)
    requires Inv(s) && WellFormed(es)
    ensures SlotsOk(Run(s, es)) && (Settled(es) ==> Inv(Run(s, es)))
    decreases |es|
  {
    if es != [] {
      var before, e := es[..|es| - 1], es[|es| - 1];
      RunKeepsInv(s, before);
      var s1 := Run(s, before);
      match e {
        case Touches(fs) =>
          assert e in es;
          FrameRestores(s1, fs);
        case Silence =>
          if Settled(before) { TimeoutReleases(s1); } else { SyncEffect(s1.table); }
        case Reload =>
      }
    }
  }

  // ---- the case without room --------------------------------------------------------------------

  /** n fingers going down, with ids from first on. */
  function Hand(first: nat, n: nat): (fs: seq<Finger>)
    requires first + n <= 256
    ensures |fs| == n
  {
    seq(n, i requires 0 <= i < n => Finger(first + i, STATE_DOWN, 1, 1))
  }

  const FIRST := State(Table(Repeat(Slot(0, false, false, 0, 0), MAX_FINGERS), [], 0), {}, {})

  lemma {:induction false} KeysCount(rs: seq<Report>)
    requires DistinctKeys(rs)
    ensures |Keys(rs)| == |rs|
    decreases |rs|
  {
    if rs == [] {
      assert Keys(rs) == {};
    } else {
      KeysSnoc(rs);
      KeysCount(rs[..|rs| - 1]);
    }
  }

  lemma AllDownIds(fs: seq<Finger>)
    requires forall i :: 0 <= i < |fs| ==> IsDown(fs[i])
    ensures DownIds(fs) == Keys(PlainReports(fs))
  {
    var rs := PlainReports(fs);
    forall k ensures k in DownIds(fs) <==> k in Keys(rs) {
      if f :| f in fs && IsDown(f) && f.id == k {
        var i :| 0 <= i < |fs| && fs[i] == f;
        assert rs[i].key == k;
      }
      if i :| 0 <= i < |rs| && rs[i].key == k { assert fs[i] in fs && IsDown(fs[i]); }
    }
  }

  lemma FirstIsInv()
    ensures Inv(FIRST) && Contacts(FIRST) == {}
  {
  }

  /** Sixteen fingers at once fill the table ... */
  lemma SixteenFingersFit()
    ensures Inv(Frame(FIRST, Hand(0, 16)))
    ensures |Contacts(Frame(FIRST, Hand(0, 16)))| == MAX_FINGERS
  {
    var fs := Hand(0, 16);
    FirstIsInv();
    AllDownIds(fs);
    ReportsDistinct(fs, {}, {});
    KeysCount(PlainReports(fs));
    hide Inv, Contacts, Frame, Keys, DownIds;
    assert {} + Keys(PlainReports(fs)) == Keys(PlainReports(fs));
    RoomWhenFew({}, fs);
    FrameRestores(FIRST, fs);
    FrameShowsDownFingers(FIRST, fs);
  }

  /** ... and if one other finger has replaced them by the next poll, it finds no slot and is not shown. */
  lemma SeventeenthFingerLost(s: State, f: Finger)
    requires Inv(s) && |Contacts(s)| == MAX_FINGERS && f.id !in s.down && IsDown(f)
    ensures Contacts(Frame(s, [f])) == {} && DownIds([f]) == {f.id as int}
  {
    var fs := [f];
    FrameShowsDownFingers(s, fs);
    assert !AnyMissed(fs, s.down, s.prev);
    var a, before := Contacts(s), PlainReports(fs)[..0];
    assert a + Keys(before) == a;
    assert !Seated(a, before, fs[0].id, MAX_FINGERS);
    assert DownIds(fs) == {f.id as int};
  }

  lemma {:induction false} DownOnlyThese(fs: seq<Finger>, down: set<byte>, id: byte)
    requires id !in down && forall f :: f in fs ==> f.id != id
    ensures id !in DownAfter(fs, down)
    decreases |fs|
  {
    if fs != [] {
      assert fs[|fs| - 1] in fs;
      DownOnlyThese(fs[..|fs| - 1], down, id);
    }
  }

  /** Two polls from the start are enough: sixteen fingers, then only another one, and nothing is shown. */
  lemma SecondPollShowsNothing()
    ensures Contacts(Frame(Frame(FIRST, Hand(0, 16)), [Finger(16, STATE_DOWN, 1, 1)])) == {}
  {
    SixteenFingersFit();
    DownOnlyThese(Hand(0, 16), {}, 16);
    hide Inv, Contacts, Hand;
    SeventeenthFingerLost(Frame(FIRST, Hand(0, 16)), Finger(16, STATE_DOWN, 1, 1));
  }
}
