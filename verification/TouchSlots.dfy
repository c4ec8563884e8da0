/** The part of the Linux input core the touch driver relies on: a table of multitouch slots, found by
    key, with slots that a frame does not mention dropped at its end. */
module TouchSlots {
  import opened Bytes

  /** Stands for INT_MIN, a coordinate no report ever carries. */
  const FORGOTTEN := -0x8000_0000

  /** used: reported on since the last sync. x and y: the last values sent for this slot. */
  datatype Slot = Slot(key: int, active: bool, used: bool, x: int, y: int)

  datatype Report = Report(key: int, x: nat, y: nat, down: bool)

  /** log: the keys tracking ids were handed out for, in order. partial: how many of these contacts began
      without both coordinates, because the core drops a value equal to the slot's last one. */
  datatype Table = Table(slots: seq<Slot>, log: seq<int>, partial: nat)

  // ---- the abstract view ------------------------------------------------------------------------

  ghost predicate UniqueKeys(slots: seq<Slot>) {
    forall i, j :: 0 <= i < j < |slots| && slots[i].active && slots[j].active ==> slots[i].key != slots[j].key
  }

  /** The contacts user space sees. */
  ghost function Active(slots: seq<Slot>): set<int> {
    set i | 0 <= i < |slots| && slots[i].active :: slots[i].key
  }

  /** Those of them reported on since the last sync. */
  ghost function Kept(slots: seq<Slot>): set<int> {
    set i | 0 <= i < |slots| && slots[i].active && slots[i].used :: slots[i].key
  }

  function Taken(slots: seq<Slot>): (n: nat)
    ensures n <= |slots|
  {
    if slots == [] then 0 else (if slots[0].active || slots[0].used then 1 else 0) + Taken(slots[1..])
  }

  /** Slots that can be given out hold no old coordinates. */
  ghost predicate FreeForgotten(slots: seq<Slot>) {
    forall i :: 0 <= i < |slots| && !slots[i].active && !slots[i].used ==>
      slots[i].x == FORGOTTEN && slots[i].y == FORGOTTEN
  }

  // ---- the operations ---------------------------------------------------------------------------

  function FirstActive(slots: seq<Slot>, key: int): (i: nat)
    ensures i <= |slots|
    ensures i < |slots| ==> slots[i].active && slots[i].key == key
    ensures forall j :: 0 <= j < i ==> !(slots[j].active && slots[j].key == key)
  {
    if slots == [] || (slots[0].active && slots[0].key == key) then 0 else 1 + FirstActive(slots[1..], key)
  }

  function FirstFree(slots: seq<Slot>): (i: nat)
    ensures i <= |slots|
    ensures i < |slots| ==> !slots[i].active && !slots[i].used
    ensures forall j :: 0 <= j < i ==> slots[j].active || slots[j].used
  {
    if slots == [] || (!slots[0].active && !slots[0].used) then 0 else 1 + FirstFree(slots[1..])
  }

  /** The slot of a key: the active one with it, else the first free one, else none (|slots|). */
  function SlotByKey(slots: seq<Slot>, key: int): (i: nat)
    ensures i <= |slots|
  {
    var a := FirstActive(slots, key);
    if a < |slots| then a else FirstFree(slots)
  }

  /** One report: get_slot_by_key, report_slot_state and, when down, the coordinates. */
  function Apply(t: Table, r: Report): (t': Table)
    ensures |t'.slots| == |t.slots|
  {
    var i := SlotByKey(t.slots, r.key);
    if i == |t.slots| then t
    else
      var s := t.slots[i];
      if !r.down then t.(slots := t.slots[i := s.(key := r.key, active := false, used := true)])
      else
        var slots := t.slots[i := Slot(r.key, true, true, r.x, r.y)];
        if s.active then t.(slots := slots)
        else Table(slots, t.log + [r.key], t.partial + if r.x != s.x && r.y != s.y then 0 else 1)
  }

  function ApplyAll(t: Table, rs: seq<Report>): (t': Table)
    ensures |t'.slots| == |t.slots|
    decreases |rs|
  {
    if rs == [] then t else Apply(ApplyAll(t, rs[..|rs| - 1]), rs[|rs| - 1])
  }

  /** sync_frame: slots not reported on are dropped, and a slot without contact forgets its coordinates. */
  function SyncSlot(s: Slot): Slot {
    if s.active && s.used then s.(used := false) else Slot(s.key, false, false, FORGOTTEN, FORGOTTEN)
  }

  function Sync(t: Table): Table {
    t.(slots := seq(|t.slots|, i requires 0 <= i < |t.slots| => SyncSlot(t.slots[i])))
  }

  // ---- counting slots ---------------------------------------------------------------------------

  lemma {:induction false} TakenAt(slots: seq<Slot>, i: nat, s: Slot)
    requires i < |slots|
    ensures Taken(slots[i := s]) == Taken(slots) - (if slots[i].active || slots[i].used then 1 else 0)
                                    + (if s.active || s.used then 1 else 0)
  {
    if i > 0 {
      assert slots[i := s][1..] == slots[1..][i - 1 := s];
      TakenAt(slots[1..], i - 1, s);
    } else {
      assert slots[i := s][1..] == slots[1..];
    }
  }

  lemma {:induction false} FreeIffNotFull(slots: seq<Slot>)
    ensures FirstFree(slots) < |slots| <==> Taken(slots) < |slots|
  {
    if slots != [] { FreeIffNotFull(slots[1..]); }
  }

  /** With nothing reported on yet, the slots taken are as many as the contacts. */
  lemma {:induction false} TakenIsActive(slots: seq<Slot>)
    requires UniqueKeys(slots) && forall i :: 0 <= i < |slots| ==> !slots[i].used
    ensures Taken(slots) == |Active(slots)|
  {
    if slots == [] {
      assert Active(slots) == {};
    } else {
      var s, rest := slots[0], slots[1..];
      TakenIsActive(rest);
      forall k ensures k in Active(slots) <==> k in Active(rest) || (s.active && k == s.key) {
        if k in Active(rest) {
          var i :| 0 <= i < |rest| && rest[i].active && rest[i].key == k;
          assert slots[i + 1] == rest[i];
        }
        if k in Active(slots) {
          var i :| 0 <= i < |slots| && slots[i].active && slots[i].key == k;
          assert i > 0 ==> rest[i - 1] == slots[i];
        }
      }
      if s.active {
        forall i | 0 <= i < |rest| && rest[i].active ensures rest[i].key != s.key {
          assert slots[i + 1] == rest[i];
        }
        assert Active(slots) == Active(rest) + {s.key};
      } else {
        assert Active(slots) == Active(rest);
      }
    }
  }

  // ---- what one report does ---------------------------------------------------------------------

  /** Writing key k to slot i, which no other active slot has. */
  lemma SetSlot(slots: seq<Slot>, i: nat, s: Slot)
    requires i < |slots| && UniqueKeys(slots) && s.used
    requires forall j :: 0 <= j < |slots| && slots[j].active && slots[j].key == s.key ==> j == i
    requires slots[i].active ==> slots[i].key == s.key
    ensures var slots' := slots[i := s];
            && UniqueKeys(slots')
            && Active(slots') == (if s.active then Active(slots) + {s.key} else Active(slots) - {s.key})
            && Kept(slots') == (if s.active then Kept(slots) + {s.key} else Kept(slots) - {s.key})
  {
    var slots' := slots[i := s];
    forall k ensures k in Active(slots') <==> (k in Active(slots) && k != s.key) || (s.active && k == s.key) {
      if k in Active(slots') {
        var j :| 0 <= j < |slots'| && slots'[j].active && slots'[j].key == k;
      }
      if k in Active(slots) && k != s.key {
        var j :| 0 <= j < |slots| && slots[j].active && slots[j].key == k;
        assert slots'[j] == slots[j];
      }
      if s.active && k == s.key { assert slots'[i].key == k; }
    }
    forall k ensures k in Kept(slots') <==> (k in Kept(slots) && k != s.key) || (s.active && k == s.key) {
      if k in Kept(slots') {
        var j :| 0 <= j < |slots'| && slots'[j].active && slots'[j].used && slots'[j].key == k;
      }
      if k in Kept(slots) && k != s.key {
        var j :| 0 <= j < |slots| && slots[j].active && slots[j].used && slots[j].key == k;
        assert slots'[j] == slots[j];
      }
      if s.active && k == s.key { assert slots'[i].key == k; }
    }
  }

  /** What one report does to the contacts: an active key, or any key while a slot is free, gets its slot;
      otherwise the report is lost. Only a key without contact is opened. */
  lemma ApplyEffect(t: Table, r: Report)
    requires UniqueKeys(t.slots)
    ensures var t', a, n := Apply(t, r), Active(t.slots), |t.slots|;
            if r.key !in a && Taken(t.slots) == n then t' == t
            else
              && UniqueKeys(t'.slots)
              && Active(t'.slots) == (if r.down then a + {r.key} else a - {r.key})
              && Kept(t'.slots) == (if r.down then Kept(t.slots) + {r.key} else Kept(t.slots) - {r.key})
              && Taken(t'.slots) == Taken(t.slots) + (if r.key in a then 0 else 1)
              && t'.log == t.log + if r.down && r.key !in a then [r.key] else []
  {
    var slots := t.slots;
    var i := SlotByKey(slots, r.key);
    assert FirstActive(slots, r.key) < |slots| <==> r.key in Active(slots) by {
      if r.key in Active(slots) {
        var j :| 0 <= j < |slots| && slots[j].active && slots[j].key == r.key;
      }
    }
    FreeIffNotFull(slots);
    if i < |slots| {
      var s' := Apply(t, r).slots[i];
      TakenAt(slots, i, s');
      SetSlot(slots, i, s');
    }
  }

  /** A contact that begins in a slot that forgot its coordinates sends both. */
  lemma {:induction false} ApplyAllSends(t: Table, rs: seq<Report>)
    requires FreeForgotten(t.slots)
    ensures FreeForgotten(ApplyAll(t, rs).slots) && ApplyAll(t, rs).partial == t.partial
    decreases |rs|
  {
    if rs != [] {
      ApplyAllSends(t, rs[..|rs| - 1]);
    }
  }

  // ---- a frame's reports ------------------------------------------------------------------------

  ghost predicate DistinctKeys(rs: seq<Report>) {
    forall i, j :: 0 <= i < j < |rs| ==> rs[i].key != rs[j].key
  }

  ghost function Keys(rs: seq<Report>): set<int> {
    set i | 0 <= i < |rs| :: rs[i].key
  }

  /** A report on key k gets a slot after the reports before it: k has contact already, or the contacts
      there were and the keys reported on so far leave one of the n slots. */
  ghost predicate Seated(a: set<int>, before: seq<Report>, k: int, n: nat) {
    k in a || |a + Keys(before)| < n
  }

  /** The keys reported down that got a slot. */
  ghost function SeatedDown(a: set<int>, rs: seq<Report>, n: nat): set<int>
    decreases |rs|
  {
    if rs == [] then {}
    else
      var before, r := rs[..|rs| - 1], rs[|rs| - 1];
      SeatedDown(a, before, n) + if r.down && Seated(a, before, r.key, n) then {r.key} else {}
  }

  ghost function OpenedBy(a: set<int>, rs: seq<Report>, n: nat): seq<int>
    decreases |rs|
  {
    if rs == [] then []
    else
      var before, r := rs[..|rs| - 1], rs[|rs| - 1];
      OpenedBy(a, before, n) + if r.down && r.key !in a && Seated(a, before, r.key, n) then [r.key] else []
  }

  ghost predicate NothingUsed(slots: seq<Slot>) {
    forall i :: 0 <= i < |slots| ==> !slots[i].used
  }

  lemma {:induction false} SeatedDownAmong(a: set<int>, rs: seq<Report>, n: nat)
    ensures SeatedDown(a, rs, n) <= Keys(rs)
    decreases |rs|
  {
    if rs != [] {
      var before := rs[..|rs| - 1];
      SeatedDownAmong(a, before, n);
      forall k | k in Keys(before) ensures k in Keys(rs) {
        var i :| 0 <= i < |before| && before[i].key == k;
        assert rs[i] == before[i];
      }
      assert rs[|rs| - 1].key in Keys(rs);
    }
  }

  lemma KeysSnoc(rs: seq<Report>)
    requires rs != []
    ensures Keys(rs) == Keys(rs[..|rs| - 1]) + {rs[|rs| - 1].key}
    ensures DistinctKeys(rs) ==> rs[|rs| - 1].key !in Keys(rs[..|rs| - 1]) && DistinctKeys(rs[..|rs| - 1])
  {
    var before := rs[..|rs| - 1];
    forall k ensures k in Keys(rs) <==> k in Keys(before) || k == rs[|rs| - 1].key {
      if k in Keys(before) {
        var i :| 0 <= i < |before| && before[i].key == k;
        assert rs[i].key == k;
      }
      if k in Keys(rs) {
        var i :| 0 <= i < |rs| && rs[i].key == k;
        assert i < |before| ==> before[i].key == k;
      }
      assert k == rs[|rs| - 1].key ==> rs[|rs| - 1].key in Keys(rs);
    }
  }

  lemma SizeOfUnion(a: set<int>, b: set<int>, k: int)
    ensures |a + (b + {k})| == |a + b| + (if k in a + b then 0 else 1)
  {
    assert a + (b + {k}) == a + b + {k};
    if k in a + b { assert a + b + {k} == a + b; }
  }

  lemma EmptyPass(t: Table)
    requires UniqueKeys(t.slots) && NothingUsed(t.slots)
    ensures Taken(t.slots) == Min(|t.slots|, |Active(t.slots) + Keys([])|) && Kept(t.slots) == {}
  {
    TakenIsActive(t.slots);
    assert Active(t.slots) + Keys([]) == Active(t.slots);
  }

  /** A whole pass of reports, from a table with nothing reported on yet. */
  lemma {:induction false} PassEffect(t: Table, rs: seq<Report>)
    requires UniqueKeys(t.slots) && NothingUsed(t.slots) && DistinctKeys(rs)
    ensures var t', a, n := ApplyAll(t, rs), Active(t.slots), |t.slots|;
            && UniqueKeys(t'.slots)
            && Taken(t'.slots) == Min(n, |a + Keys(rs)|)
            && Kept(t'.slots) == SeatedDown(a, rs, n)
            && (forall k :: k !in Keys(rs) ==> (k in Active(t'.slots) <==> k in a))
            && t'.log == t.log + OpenedBy(a, rs, n)
    decreases |rs|
  {
    hide Active, Kept, Taken, UniqueKeys, Apply, Keys, DistinctKeys;
    var a, n := Active(t.slots), |t.slots|;
    if rs == [] {
      EmptyPass(t);
    } else {
      var before, r := rs[..|rs| - 1], rs[|rs| - 1];
      KeysSnoc(rs);
      PassEffect(t, before);
      SeatedDownAmong(a, before, n);
      PassStep(ApplyAll(t, before), a, Keys(before), r);
    }
  }

  lemma PassStep(t1: Table, a: set<int>, b: set<int>, r: Report)
    requires UniqueKeys(t1.slots) && r.key !in b && Kept(t1.slots) <= b
    requires Taken(t1.slots) == Min(|t1.slots|, |a + b|)
    requires forall k :: k !in b ==> (k in Active(t1.slots) <==> k in a)
    ensures var t' := Apply(t1, r);
            var seated := r.key in a || |a + b| < |t1.slots|;
            && UniqueKeys(t'.slots)
            && Taken(t'.slots) == Min(|t1.slots|, |a + (b + {r.key})|)
            && Kept(t'.slots) == Kept(t1.slots) + (if r.down && seated then {r.key} else {})
            && (forall k :: k !in b + {r.key} ==> (k in Active(t'.slots) <==> k in a))
            && t'.log == t1.log + if r.down && r.key !in a && seated then [r.key] else []
  {
    hide Active, Kept, Taken, UniqueKeys, Apply;
    ApplyEffect(t1, r);
    SizeOfUnion(a, b, r.key);
  }

  lemma SyncEffect(t: Table)
    requires UniqueKeys(t.slots)
    ensures var t' := Sync(t);
            && |t'.slots| == |t.slots| && t'.log == t.log
            && Active(t'.slots) == Kept(t.slots)
            && UniqueKeys(t'.slots) && NothingUsed(t'.slots) && FreeForgotten(t'.slots) && t'.partial == t.partial
  {
    var slots, slots' := t.slots, Sync(t).slots;
    forall k ensures k in Active(slots') <==> k in Kept(slots) {
      if k in Kept(slots) {
        var i :| 0 <= i < |slots| && slots[i].active && slots[i].used && slots[i].key == k;
        assert slots'[i].active && slots'[i].key == k;
      }
      if k in Active(slots') {
        var i :| 0 <= i < |slots'| && slots'[i].active && slots'[i].key == k;
        assert slots[i].active && slots[i].used && slots[i].key == k;
      }
    }
  }

  // ---- coordinates of the first contacts --------------------------------------------------------

  /** Free slots hold zeros, as the core allocates them. */
  ghost predicate FreeZero(slots: seq<Slot>) {
    forall i :: 0 <= i < |slots| && !slots[i].active && !slots[i].used ==> slots[i].x == 0 && slots[i].y == 0
  }

  /** Contacts that a pass opens at a coordinate 0. */
  ghost function OpenedAtEdge(a: set<int>, rs: seq<Report>, n: nat): nat
    decreases |rs|
  {
    if rs == [] then 0
    else
      var before, r := rs[..|rs| - 1], rs[|rs| - 1];
      OpenedAtEdge(a, before, n) +
      if r.down && r.key !in a && Seated(a, before, r.key, n) && (r.x == 0 || r.y == 0) then 1 else 0
  }

  lemma ApplyPartial(t: Table, r: Report)
    requires FreeZero(t.slots)
    ensures FreeZero(Apply(t, r).slots)
    ensures var opens := r.down && r.key !in Active(t.slots) && Taken(t.slots) < |t.slots|;
            Apply(t, r).partial == t.partial + if opens && (r.x == 0 || r.y == 0) then 1 else 0
  {
    assert FirstActive(t.slots, r.key) < |t.slots| <==> r.key in Active(t.slots) by {
      if r.key in Active(t.slots) {
        var j :| 0 <= j < |t.slots| && t.slots[j].active && t.slots[j].key == r.key;
      }
    }
    FreeIffNotFull(t.slots);
    hide Taken, Active;
  }

  /** The contacts of a pass over such slots that begin without both coordinates are those. */
  lemma {:induction false} PassPartial(t: Table, rs: seq<Report>)
    requires UniqueKeys(t.slots) && NothingUsed(t.slots) && DistinctKeys(rs) && FreeZero(t.slots)
    ensures FreeZero(ApplyAll(t, rs).slots)
    ensures ApplyAll(t, rs).partial == t.partial + OpenedAtEdge(Active(t.slots), rs, |t.slots|)
    decreases |rs|
  {
    hide Active, Kept, Taken, UniqueKeys, NothingUsed, Apply, Keys, DistinctKeys, FreeZero, SeatedDown, OpenedBy;
    if rs != [] {
      var before, r := rs[..|rs| - 1], rs[|rs| - 1];
      KeysSnoc(rs);
      PassEffect(t, before);
      PassPartial(t, before);
      ApplyPartial(ApplyAll(t, before), r);
    }
  }
}
