/** What the bytes of a touch report mean: the driver's state after it, in the numbers of the report. */
module TouchReports {
  import opened Bytes
  import opened TouchSlots
  import opened TouchDriver
  import opened TouchRuns

  /** Records of 30 bytes from byte 32 on: as many as the length at byte 16 announces and the report holds. */
  ghost predicate Holds(p: seq<byte>, n: nat) {
    && |p| >= 32
    && var announced := p[19] as int * 16777216 + p[18] as int * 65536 + p[17] as int * 256 + p[16];
       n == if announced / 30 <= (|p| - 32) / 30 then announced / 30 else (|p| - 32) / 30
  }

  /** A record starts with the finger's id and its state; states 3 and 4 are down. */
  ghost predicate Touching(p: seq<byte>, k: nat)
    requires 33 + 30 * k < |p|
  {
    p[33 + 30 * k] == 3 || p[33 + 30 * k] == 4
  }

  /** The ids of the first n records. */
  ghost function FirstIds(p: seq<byte>, n: nat): set<int>
    requires 32 + 30 * n <= |p|
  {
    set k | 0 <= k < n :: p[32 + 30 * k] as int
  }

  ghost predicate DistinctIds(p: seq<byte>, n: nat)
    requires 32 + 30 * n <= |p|
  {
    forall j, k :: 0 <= j < k < n ==> p[32 + 30 * j] != p[32 + 30 * k]
  }

  /** Record k lifts a finger that was never down, and not merely as the last frame of a touch seen before. */
  ghost predicate LostTap(s: State, p: seq<byte>, k: nat)
    requires 33 + 30 * k < |p|
  {
    !Touching(p, k) && p[32 + 30 * k] !in s.down && (p[33 + 30 * k] != 0 || p[32 + 30 * k] !in s.prev)
  }

  // ---- from bytes to fingers --------------------------------------------------------------------

  lemma CountInNumbers(p: seq<byte>, n: nat)
    requires Holds(p, n)
    ensures FingerCount(p) == n && 32 + 30 * n <= |p|
  {
    U32leInNumbers(p, 16);
  }

  lemma FingersInNumbers(p: seq<byte>, position: (seq<byte>, nat) -> (nat, nat), n: nat)
    requires 32 + 30 * n <= |p|
    ensures var fs := Fingers(p, position, n);
            forall k :: 0 <= k < n ==>
              && fs[k].id == p[32 + 30 * k] && (IsDown(fs[k]) <==> Touching(p, k))
              && (fs[k].x, fs[k].y) == position(p, 32 + 30 * k)
    ensures forall s: State, k :: 0 <= k < n ==>
              (Missed(Fingers(p, position, n)[k], s.down, s.prev) <==> LostTap(s, p, k))
    ensures DistinctIds(p, n) ==> Distinct(Fingers(p, position, n))
  {
  }

  /** A finger seen down comes out with its id in the down bitmap, one seen up without, and others keep theirs;
      the previous ids are those of this report. */
  lemma BitmapsInNumbers(s: State, p: seq<byte>, position: (seq<byte>, nat) -> (nat, nat), n: nat)
    requires Holds(p, n) && 32 + 30 * n <= |p| && DistinctIds(p, n)
    ensures var s' := AfterReport(s, p, position);
            && (forall k :: 0 <= k < n ==> (p[32 + 30 * k] in s'.down <==> Touching(p, k)))
            && (forall id: byte :: id !in FirstIds(p, n) ==> (id in s'.down <==> id in s.down))
            && (forall id: byte :: id in s'.prev <==> id in FirstIds(p, n))
  {
    hide Sync, ApplyAll, PlainReports, TapReports, AnyMissed;
    CountInNumbers(p, n);
    FingersInNumbers(p, position, n);
    var fs := Fingers(p, position, n);
    DownAfterHasDownIds(fs, s.down);
    forall id: byte | id !in FirstIds(p, n) ensures id in DownAfter(fs, s.down) <==> id in s.down {
      DownElsewhere(fs, s.down, id);
    }
    forall id: byte ensures id in Ids(fs) <==> id in FirstIds(p, n) {
      if k :| 0 <= k < n && p[32 + 30 * k] == id { assert fs[k] in fs; }
    }
  }

  lemma {:induction false} DownElsewhere(fs: seq<Finger>, down: set<byte>, id: byte)
    requires forall f :: f in fs ==> f.id != id
    ensures id in DownAfter(fs, down) <==> id in down
    decreases |fs|
  {
    if fs != [] {
      assert fs[|fs| - 1] in fs;
      DownElsewhere(fs[..|fs| - 1], down, id);
    }
  }

  /** Record k is of a finger with contact, or the contacts and the ids before it leave one of 16 slots. */
  ghost predicate SlotLeft(a: set<int>, p: seq<byte>, k: nat)
    requires 33 + 30 * k < |p|
  {
    p[32 + 30 * k] in a || |a + FirstIds(p, k)| < 16
  }

  /** After a report of at most 16 records only fingers in state 3 or 4 have contact; and all of them do exactly
      if the report shows a lost tap or leaves a slot for each. */
  lemma ContactsInNumbers(s: State, p: seq<byte>, position: (seq<byte>, nat) -> (nat, nat), n: nat)
    requires SlotsOk(s) && Holds(p, n) && 32 + 30 * n <= |p| && DistinctIds(p, n) && n <= 16
    ensures var a, a' := Contacts(s), Contacts(AfterReport(s, p, position));
            && (forall id :: id in a' ==> exists k :: 0 <= k < n && p[32 + 30 * k] == id && Touching(p, k))
            && ((forall k :: 0 <= k < n && Touching(p, k) ==> p[32 + 30 * k] as int in a')
                <==> (exists k :: 0 <= k < n && LostTap(s, p, k))
                     || (forall k :: 0 <= k < n && Touching(p, k) ==> SlotLeft(a, p, k)))
  {
    hide Frame, Contacts, Missed;
    CountInNumbers(p, n);
    FingersInNumbers(p, position, n);
    var fs := Fingers(p, position, n);
    FrameShowsDownFingers(s, fs);
    DownIdsInNumbers(p, position, n);
    RoomInNumbers(Contacts(s), p, position, n);
    assert AnyMissed(fs, s.down, s.prev) <==> exists k :: 0 <= k < n && LostTap(s, p, k) by {
      if k :| 0 <= k < n && LostTap(s, p, k) { assert fs[k] in fs && Missed(fs[k], s.down, s.prev); }
    }
  }

  lemma DownIdsInNumbers(p: seq<byte>, position: (seq<byte>, nat) -> (nat, nat), n: nat)
    requires 32 + 30 * n <= |p|
    ensures forall id :: id in DownIds(Fingers(p, position, n)) <==>
                           exists k :: 0 <= k < n && p[32 + 30 * k] == id && Touching(p, k)
  {
    FingersInNumbers(p, position, n);
    var fs := Fingers(p, position, n);
    hide Fingers;
    forall id ensures id in DownIds(fs) <==> exists k :: 0 <= k < n && p[32 + 30 * k] == id && Touching(p, k) {
      if f :| f in fs && IsDown(f) && f.id == id {
        var k :| 0 <= k < |fs| && fs[k] == f;
        assert p[32 + 30 * k] == id && Touching(p, k);
      }
      if k :| 0 <= k < n && p[32 + 30 * k] == id && Touching(p, k) { assert fs[k] in fs && IsDown(fs[k]); }
    }
  }

  lemma RoomInNumbers(a: set<int>, p: seq<byte>, position: (seq<byte>, nat) -> (nat, nat), n: nat)
    requires 32 + 30 * n <= |p|
    ensures RoomForAll(a, Fingers(p, position, n))
            <==> forall k :: 0 <= k < n && Touching(p, k) ==> SlotLeft(a, p, k)
  {
    FingersInNumbers(p, position, n);
    var fs := Fingers(p, position, n);
    hide Fingers;
    var rs := PlainReports(fs);
    forall k | 0 <= k < n ensures Seated(a, rs[..k], fs[k].id, MAX_FINGERS) <==> SlotLeft(a, p, k) {
      forall id ensures id in Keys(rs[..k]) <==> id in FirstIds(p, k) {
        if j :| 0 <= j < k && rs[..k][j].key == id { assert p[32 + 30 * j] == id; }
        if j :| 0 <= j < k && p[32 + 30 * j] as int == id { assert rs[..k][j].key == id; }
      }
      assert Keys(rs[..k]) == FirstIds(p, k);
    }
  }

  // ---- coordinates ------------------------------------------------------------------------------

  /** Every contact reported on stands at the coordinates of a report on it. */
  ghost predicate Placed(slots: seq<Slot>, rs: seq<Report>) {
    forall i :: 0 <= i < |slots| && slots[i].active && slots[i].used ==>
                  exists j :: && 0 <= j < |rs| && rs[j].down && rs[j].key == slots[i].key
                              && rs[j].x == slots[i].x && rs[j].y == slots[i].y
  }

  lemma {:induction false} PassPlaces(t: Table, rs: seq<Report>)
    requires NothingUsed(t.slots)
    ensures Placed(ApplyAll(t, rs).slots, rs)
    decreases |rs|
  {
    if rs != [] {
      var before, r := rs[..|rs| - 1], rs[|rs| - 1];
      PassPlaces(t, before);
      assert rs[|rs| - 1] == r && forall j :: 0 <= j < |before| ==> rs[j] == before[j];
    }
  }

  /** Every contact after a report stands where the report's record of that finger says. */
  lemma PlacesInNumbers(s: State, p: seq<byte>, position: (seq<byte>, nat) -> (nat, nat), n: nat)
    requires SlotsOk(s) && Holds(p, n) && 32 + 30 * n <= |p| && DistinctIds(p, n)
    ensures forall slot :: slot in AfterReport(s, p, position).table.slots && slot.active ==>
              exists k :: && 0 <= k < n && p[32 + 30 * k] == slot.key && Touching(p, k)
                          && (slot.x, slot.y) == position(p, 32 + 30 * k)
  {
    CountInNumbers(p, n);
    FingersInNumbers(p, position, n);
    var fs := Fingers(p, position, n);
    var taps := TapReports(fs, s.down, s.prev);
    var t1 := if AnyMissed(fs, s.down, s.prev) then Sync(ApplyAll(s.table, taps)) else s.table;
    PassPlaces(t1, PlainReports(fs));
  }
}
