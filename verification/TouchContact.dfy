/** One finger's contact from its first polled frame to its last: it is opened in the input core once. */
module TouchContact {
  import opened Bytes
  import opened TouchSlots
  import opened TouchDriver
  import opened TouchRuns

  ghost function Count(log: seq<int>, k: int): nat {
    multiset(log)[k]
  }

  lemma CountConcat(a: seq<int>, b: seq<int>, k: int)
    ensures Count(a + b, k) == Count(a, k) + Count(b, k)
  {
  }

  lemma CountFew(x: int, k: int)
    ensures Count([], k) == 0 && Count([x], k) == if x == k then 1 else 0
  {
  }

  /** A pass opens the contact of report j once if it is down, new and finds a slot, and no other. */
  lemma {:induction false} OpenedCount(a: set<int>, rs: seq<Report>, n: nat, k: int)
    requires DistinctKeys(rs)
    ensures k !in Keys(rs) ==> Count(OpenedBy(a, rs, n), k) == 0
    ensures forall j :: 0 <= j < |rs| && rs[j].key == k ==>
              Count(OpenedBy(a, rs, n), k) == if rs[j].down && k !in a && Seated(a, rs[..j], k, n) then 1 else 0
    decreases |rs|
  {
    hide Seated, Keys, Count;
    if rs == [] {
      CountFew(k, k);
    } else {
      var m := |rs| - 1;
      var before, r := rs[..m], rs[m];
      KeysSnoc(rs);
      OpenedCount(a, before, n, k);
      var last := if r.down && r.key !in a && Seated(a, before, r.key, n) then [r.key] else [];
      CountConcat(OpenedBy(a, before, n), last, k);
      CountFew(r.key, k);
      forall j | 0 <= j < |rs| && rs[j].key == k
        ensures Count(OpenedBy(a, rs, n), k) == if rs[j].down && k !in a && Seated(a, rs[..j], k, n) then 1 else 0
      {
        if j < m {
          assert before[j] == rs[j] && before[..j] == rs[..j];
        }
      }
    }
  }

  lemma SeatedDownHas(a: set<int>, rs: seq<Report>, n: nat, j: nat)
    requires DistinctKeys(rs) && j < |rs|
    ensures rs[j].key in SeatedDown(a, rs, n) <==> rs[j].down && Seated(a, rs[..j], rs[j].key, n)
  {
    SeatedDownIs(a, rs, n);
    hide Seated, SeatedDown;
    var k := rs[j].key;
    if k in SeatedDown(a, rs, n) {
      var i :| 0 <= i < |rs| && rs[i].key == k && rs[i].down && Seated(a, rs[..i], k, n);
      assert i == j;
    }
  }

  // ---- one frame, seen from one finger ----------------------------------------------------------

  /** Whether finger j of the frame finds a slot in the frame's first pass. */
  ghost predicate Room(s: State, fs: seq<Finger>, j: nat)
    requires j < |fs|
  {
    Seated(Contacts(s), PlainReports(fs)[..j], fs[j].id, MAX_FINGERS)
  }

  /** Opened in the core during the frame. */
  ghost function Openings(s: State, fs: seq<Finger>, k: int): int {
    Count(Frame(s, fs).table.log, k) - Count(s.table.log, k)
  }

  lemma FrameLog(s: State, fs: seq<Finger>)
    requires SlotsOk(s) && Distinct(fs)
    ensures var first := if AnyMissed(fs, s.down, s.prev)
                         then OpenedBy(Contacts(s), TapReports(fs, s.down, s.prev), MAX_FINGERS) else [];
            Frame(s, fs).table.log
            == s.table.log + first + OpenedBy(BeforeLastPass(s, fs), PlainReports(fs), MAX_FINGERS)
  {
    ReportsDistinct(fs, s.down, s.prev);
    hide ApplyAll, Sync, SeatedDown, OpenedBy, Active, UniqueKeys, NothingUsed, PlainReports, TapReports;
    hide DistinctKeys, AnyMissed;
    if AnyMissed(fs, s.down, s.prev) {
      PassThenSync(s.table, TapReports(fs, s.down, s.prev));
      PassThenSync(Sync(ApplyAll(s.table, TapReports(fs, s.down, s.prev))), PlainReports(fs));
    } else {
      PassThenSync(s.table, PlainReports(fs));
      assert s.table.log + [] == s.table.log;
    }
  }

  /** Finger j is reported down and finds a slot, in the pass for missed taps or in the last one. */
  ghost predicate OffersSeat(s: State, fs: seq<Finger>, j: nat)
    requires j < |fs|
  {
    var tap, plain, k := TapReports(fs, s.down, s.prev), PlainReports(fs), fs[j].id;
    || (AnyMissed(fs, s.down, s.prev) && tap[j].down && Seated(Contacts(s), tap[..j], k, MAX_FINGERS))
    || (plain[j].down && Seated(BeforeLastPass(s, fs), plain[..j], k, MAX_FINGERS))
  }

  /** What a pass does to the contact of its report j. */
  lemma PassOnFinger(a: set<int>, rs: seq<Report>, j: nat)
    requires DistinctKeys(rs) && j < |rs|
    ensures var k, seated := rs[j].key, Seated(a, rs[..j], rs[j].key, MAX_FINGERS);
            && Count(OpenedBy(a, rs, MAX_FINGERS), k) == (if rs[j].down && k !in a && seated then 1 else 0)
            && (k in SeatedDown(a, rs, MAX_FINGERS) <==> rs[j].down && seated)
            && (k in a ==> seated)
  {
    hide OpenedBy, SeatedDown, DistinctKeys, Seated, Count;
    OpenedCount(a, rs, MAX_FINGERS, rs[j].key);
    SeatedDownHas(a, rs, MAX_FINGERS, j);
    InContactIsSeated(a, rs[..j], rs[j].key);
  }

  lemma OpeningsInPasses(s: State, fs: seq<Finger>, k: int)
    requires SlotsOk(s) && Distinct(fs)
    ensures var tap, plain := TapReports(fs, s.down, s.prev), PlainReports(fs);
            Openings(s, fs, k) == (if AnyMissed(fs, s.down, s.prev)
                                   then Count(OpenedBy(Contacts(s), tap, MAX_FINGERS), k) else 0)
                                  + Count(OpenedBy(BeforeLastPass(s, fs), plain, MAX_FINGERS), k)
  {
    hide OpenedBy, BeforeLastPass, Frame, SlotsOk, Count, AnyMissed, Contacts;
    FrameLog(s, fs);
    var first := if AnyMissed(fs, s.down, s.prev)
                 then OpenedBy(Contacts(s), TapReports(fs, s.down, s.prev), MAX_FINGERS) else [];
    CountConcat(s.table.log + first, OpenedBy(BeforeLastPass(s, fs), PlainReports(fs), MAX_FINGERS), k);
    CountConcat(s.table.log, first, k);
    CountFew(k, k);
  }

  lemma FrameBits(s: State, fs: seq<Finger>, j: nat)
    requires SlotsOk(s) && Distinct(fs) && j < |fs|
    ensures SlotsOk(Frame(s, fs))
    ensures fs[j].id in Frame(s, fs).down <==> IsDown(fs[j])
    ensures fs[j].id in Frame(s, fs).prev
    ensures Missed(fs[j], s.down, s.prev) ==> AnyMissed(fs, s.down, s.prev)
  {
    FrameContacts(s, fs);
    DownAfterHasDownIds(fs, s.down);
    assert fs[j] in fs;
    hide DownAfter, ApplyAll, Sync, PlainReports, TapReports, UniqueKeys, NothingUsed;
  }

  /** All a frame does to the contact of its finger j, with or without room for it: it is opened exactly if it
      had no contact and is offered a seat, and has contact afterwards exactly if it is down and seated. */
  lemma FrameOnFinger(s: State, fs: seq<Finger>, j: nat)
    requires SlotsOk(s) && Distinct(fs) && j < |fs|
    ensures var f := fs[j];
            var k: int := f.id;
            var s', open0 := Frame(s, fs), k in Contacts(s);
            && SlotsOk(s')
            && (f.id in s'.down <==> IsDown(f)) && f.id in s'.prev
            && (k in Contacts(s') <==> IsDown(f) && OffersSeat(s, fs, j))
            && Openings(s, fs, k) == (if !open0 && OffersSeat(s, fs, j) then 1 else 0)
            && (OffersSeat(s, fs, j) ==> IsDown(f) || Unseen(f, s.down, s.prev))
            && (IsDown(f) && open0 ==> OffersSeat(s, fs, j))
            && (Room(s, fs, j) && (IsDown(f) || Missed(f, s.down, s.prev)) ==> OffersSeat(s, fs, j))
  {
    hide OpenedBy, SeatedDown, Frame, Keys, DistinctKeys, SlotsOk, Seated, Count, Openings, Contacts, AnyMissed;
    FrameBits(s, fs, j);
    FrameContacts(s, fs);
    ReportsDistinct(fs, s.down, s.prev);
    OpeningsInPasses(s, fs, fs[j].id);
    SameSeat(Contacts(s), fs, s.down, s.prev, j);
    PassOnFinger(Contacts(s), TapReports(fs, s.down, s.prev), j);
    PassOnFinger(BeforeLastPass(s, fs), PlainReports(fs), j);
  }

  lemma SameSeat(a: set<int>, fs: seq<Finger>, down: set<byte>, prev: set<byte>, j: nat)
    requires j < |fs|
    ensures Seated(a, TapReports(fs, down, prev)[..j], fs[j].id, MAX_FINGERS)
            <==> Seated(a, PlainReports(fs)[..j], fs[j].id, MAX_FINGERS)
  {
    SameKeys(fs, down, prev);
  }

  lemma InContactIsSeated(a: set<int>, before: seq<Report>, k: int)
    ensures k in a ==> Seated(a, before, k, MAX_FINGERS)
  {
  }

  // ---- a whole contact --------------------------------------------------------------------------

  predicate Present(fs: seq<Finger>, id: byte) {
    exists i :: 0 <= i < |fs| && fs[i].id == id
  }

  function IndexOf(fs: seq<Finger>, id: byte): (i: nat)
    requires Present(fs, id)
    ensures i < |fs| && fs[i].id == id
  {
    if fs[0].id == id then 0
    else
      assert Present(fs[1..], id) by {
        var i :| 0 <= i < |fs| && fs[i].id == id;
        assert fs[1..][i - 1].id == id;
      }
      1 + IndexOf(fs[1..], id)
  }

  /** The state id is in, frame by frame. */
  function StateIn(fs: seq<Finger>, id: byte): byte
    requires Present(fs, id)
  {
    fs[IndexOf(fs, id)].state
  }

  datatype Phase = NotSeen | Touching | Lifted | Gone

  /** The phase after a polled frame, for the firmware's frames 3, 4, ..., 4, 7, 0 of which any may be
      missing; None if the state does not fit. */
  function Next(phase: Phase, state: byte): Option<Phase> {
    if state == STATE_DOWN || state == STATE_MOVED then
      if phase.NotSeen? || phase.Touching? then Some(Touching) else None
    else if state == 7 then
      if phase.NotSeen? || phase.Touching? then Some(Lifted) else None
    else if state == 0 && !phase.Gone? then Some(Gone)
    else None
  }

  function Polls(s: State, frames: seq<seq<Finger>>): State
    decreases |frames|
  {
    if frames == [] then s else Polls(Frame(s, frames[0]), frames[1..])
  }

  /** Every frame has id, in states that go on from the phase as one contact does. */
  predicate OneContact(frames: seq<seq<Finger>>, id: byte, phase: Phase)
    decreases |frames|
  {
    frames == [] ||
    (Present(frames[0], id) && Next(phase, StateIn(frames[0], id)).Some? &&
     OneContact(frames[1..], id, Next(phase, StateIn(frames[0], id)).value))
  }

  ghost predicate AllDistinct(frames: seq<seq<Finger>>) {
    forall fs :: fs in frames ==> Distinct(fs)
  }

  /** What the driver and the core know of id in a phase, c openings into the contact. */
  ghost predicate Knows(s: State, id: byte, phase: Phase, c: int) {
    && SlotsOk(s) && 0 <= c <= 1
    && match phase
       case NotSeen => id !in s.down && id !in s.prev && id as int !in Contacts(s) && c == 0
       case Touching => id in s.down && (c == 1 <==> id as int in Contacts(s))
       case Lifted => id !in s.down && id in s.prev && id as int !in Contacts(s)
       case Gone => id !in s.down && id as int !in Contacts(s)
  }

  lemma OnePoll(s: State, fs: seq<Finger>, id: byte, phase: Phase, c: int)
    requires Knows(s, id, phase, c) && Distinct(fs) && Present(fs, id)
    requires Next(phase, StateIn(fs, id)).Some?
    ensures Knows(Frame(s, fs), id, Next(phase, StateIn(fs, id)).value, c + Openings(s, fs, id))
    ensures c + Openings(s, fs, id) == 1 <==> c == 1 || OffersSeat(s, fs, IndexOf(fs, id))
  {
    FrameOnFinger(s, fs, IndexOf(fs, id));
    hide Openings, Room, OffersSeat, Frame, Contacts, SlotsOk;
  }

  /** In the i-th polled frame id is offered a seat. */
  ghost predicate SeatAt(s: State, frames: seq<seq<Finger>>, id: byte, i: nat)
    requires i < |frames|
  {
    Present(frames[i], id) && OffersSeat(Polls(s, frames[..i]), frames[i], IndexOf(frames[i], id))
  }

  ghost predicate SeatSomewhere(s: State, frames: seq<seq<Finger>>, id: byte) {
    exists i :: 0 <= i < |frames| && SeatAt(s, frames, id, i)
  }

  lemma SeatSplits(s: State, frames: seq<seq<Finger>>, id: byte)
    requires frames != [] && Present(frames[0], id)
    ensures SeatSomewhere(s, frames, id)
            <==> OffersSeat(s, frames[0], IndexOf(frames[0], id)) || SeatSomewhere(Frame(s, frames[0]), frames[1..], id)
  {
    hide OffersSeat, Frame, Present, IndexOf;
    var s', rest := Frame(s, frames[0]), frames[1..];
    assert frames[..0] == [] && (OffersSeat(s, frames[0], IndexOf(frames[0], id)) <==> SeatAt(s, frames, id, 0));
    forall i | 0 <= i < |rest| ensures SeatAt(s, frames, id, i + 1) <==> SeatAt(s', rest, id, i) {
      assert frames[..i + 1][1..] == rest[..i] && frames[i + 1] == rest[i];
    }
    if SeatSomewhere(s, frames, id) {
      var i :| 0 <= i < |frames| && SeatAt(s, frames, id, i);
      if i > 0 { assert SeatAt(s', rest, id, i - 1); }
    }
    if SeatSomewhere(s', rest, id) {
      var i :| 0 <= i < |rest| && SeatAt(s', rest, id, i);
      assert SeatAt(s, frames, id, i + 1);
    }
  }

  lemma {:induction false} ContactPolled(s: State, frames: seq<seq<Finger>>, id: byte, phase: Phase, c: int)
    requires Knows(s, id, phase, c) && AllDistinct(frames) && OneContact(frames, id, phase)
    ensures var total := c + Count(Polls(s, frames).table.log, id) - Count(s.table.log, id);
            c <= total <= 1 && (total == 1 <==> c == 1 || SeatSomewhere(s, frames, id))
    decreases |frames|
  {
    if frames == [] {
      assert 0 <= c <= 1;
    } else {
      var fs := frames[0];
      assert fs in frames;
      OnePoll(s, fs, id, phase, c);
      FrameOnFinger(s, fs, IndexOf(fs, id)) by { assert SlotsOk(s); }
      SeatSplits(s, frames, id);
      hide Frame, Knows, Count, Present, Next, IndexOf, SeatSomewhere, OffersSeat, Contacts;
      ContactPolled(Frame(s, fs), frames[1..], id, Next(phase, StateIn(fs, id)).value, c + Openings(s, fs, id));
    }
  }

  /** A finger not known to the driver touches, moves, lifts (one frame) and is gone. Whatever nonempty
      part of these frames is polled, and whatever other fingers are in them, the input core opens at
      most one contact for it, and exactly one if and only if some polled frame offers it a seat; the first
      one does if its first pass leaves a slot. */
  lemma ContactOpensOnce(s: State, frames: seq<seq<Finger>>, id: byte)
    requires Inv(s) && id !in s.down && id !in s.prev
    requires frames != [] && AllDistinct(frames) && OneContact(frames, id, NotSeen)
    ensures var begun := Count(Polls(s, frames).table.log, id) - Count(s.table.log, id);
            && 0 <= begun <= 1 && (begun == 1 <==> SeatSomewhere(s, frames, id))
            && (Room(s, frames[0], IndexOf(frames[0], id)) ==> begun == 1)
  {
    ContactPolled(s, frames, id, NotSeen, 0);
    var fs := frames[0];
    assert fs in frames;
    FrameOnFinger(s, fs, IndexOf(fs, id));
    SeatSplits(s, frames, id);
    hide Frame, Contacts, SlotsOk, Polls, SeatSomewhere, OffersSeat, Room, Count, Openings;
  }

  /** There is room in particular when the contacts and the frame's fingers together fit the slots. */
  lemma RoomInRoomyFrame(s: State, fs: seq<Finger>, j: nat)
    requires Distinct(fs) && j < |fs| && |Contacts(s) + Keys(PlainReports(fs))| <= MAX_FINGERS
    ensures Room(s, fs, j)
  {
    SeatedWhenFew(Contacts(s), fs, j);
  }

  /** A tap first seen when it is over, lifted or gone, is shown down and then up within one frame. */
  lemma MissedTapIsShown(s: State, fs: seq<Finger>, id: byte)
    requires Inv(s) && id !in s.down && id !in s.prev
    requires Distinct(fs) && Present(fs, id) && StateIn(fs, id) in {7, 0} && Room(s, fs, IndexOf(fs, id))
    ensures Openings(s, fs, id) == 1 && id as int !in Contacts(Frame(s, fs))
    ensures AnyMissed(fs, s.down, s.prev) && id as int in BeforeLastPass(s, fs)
  {
    var j := IndexOf(fs, id);
    FrameOnFinger(s, fs, j);
    assert fs[j] in fs && Missed(fs[j], s.down, s.prev);
    var tap := TapReports(fs, s.down, s.prev);
    ReportsDistinct(fs, s.down, s.prev);
    SameKeys(fs, s.down, s.prev);
    SeatedDownHas(Contacts(s), tap, MAX_FINGERS, j);
  }

  /** One lift frame is essential: a second frame in state 7 is taken for another missed tap. */
  lemma SecondLiftFrameOpensAgain(s: State, fs: seq<Finger>, gs: seq<Finger>, id: byte)
    requires Inv(s) && id !in s.down && id !in s.prev
    requires Distinct(fs) && Present(fs, id) && StateIn(fs, id) == 7 && Room(s, fs, IndexOf(fs, id))
    requires Distinct(gs) && Present(gs, id) && StateIn(gs, id) == 7 && Room(Frame(s, fs), gs, IndexOf(gs, id))
    ensures Count(Frame(Frame(s, fs), gs).table.log, id) == Count(s.table.log, id) + 2
  {
    FrameOnFinger(s, fs, IndexOf(fs, id));
    FrameOnFinger(Frame(s, fs), gs, IndexOf(gs, id));
    hide Room, Frame, Contacts, SlotsOk, Inv;
  }

  // ---- contacts with any number of lift frames --------------------------------------------------

  /** In every polled frame there is a slot for id. */
  ghost predicate RoomThroughout(s: State, frames: seq<seq<Finger>>, id: byte)
    decreases |frames|
  {
    frames == [] ||
    (Present(frames[0], id) && Room(s, frames[0], IndexOf(frames[0], id)) &&
     RoomThroughout(Frame(s, frames[0]), frames[1..], id))
  }

  predicate AllHave(frames: seq<seq<Finger>>, id: byte) {
    forall i :: 0 <= i < |frames| ==> Present(frames[i], id)
  }

  predicate Touches(state: byte) {
    state == STATE_DOWN || state == STATE_MOVED
  }

  /** How many frames have id there (state not 0) after a frame that had it lifted or gone. */
  function Returns(frames: seq<seq<Finger>>, id: byte, before: byte): nat
    requires AllHave(frames, id)
    decreases |frames|
  {
    if frames == [] then 0
    else
      var state := StateIn(frames[0], id);
      assert AllHave(frames[1..], id);
      (if state != 0 && !Touches(before) then 1 else 0) + Returns(frames[1..], id, state)
  }

  /** What the driver and the core know after a frame with a slot for id and id in this state. */
  ghost predicate Remembers(s: State, id: byte, state: byte) {
    && SlotsOk(s) && id in s.prev
    && (id in s.down <==> Touches(state)) && (id as int in Contacts(s) <==> Touches(state))
  }

  lemma RoomyFrame(s: State, fs: seq<Finger>, id: byte)
    requires SlotsOk(s) && Distinct(fs) && Present(fs, id) && Room(s, fs, IndexOf(fs, id))
    ensures Remembers(Frame(s, fs), id, StateIn(fs, id))
    ensures id as int !in Contacts(s) ==>
              Openings(s, fs, id) ==
              if Touches(StateIn(fs, id)) || (id !in s.down && (StateIn(fs, id) != 0 || id !in s.prev)) then 1 else 0
    ensures id as int in Contacts(s) ==> Openings(s, fs, id) == 0
  {
    hide Frame, Contacts, SlotsOk, Room, OffersSeat, Openings;
    FrameOnFinger(s, fs, IndexOf(fs, id));
  }

  lemma {:induction false} ReturnsOpen(s: State, frames: seq<seq<Finger>>, id: byte, before: byte)
    requires Remembers(s, id, before) && AllDistinct(frames) && AllHave(frames, id) && RoomThroughout(s, frames, id)
    ensures Count(Polls(s, frames).table.log, id) - Count(s.table.log, id) == Returns(frames, id, before)
    decreases |frames|
  {
    if frames != [] {
      var fs := frames[0];
      assert fs in frames && AllHave(frames[1..], id);
      RoomyFrame(s, fs, id);
      hide Frame, Contacts, SlotsOk, Room, Present, StateIn, Count;
      ReturnsOpen(Frame(s, fs), frames[1..], id, StateIn(fs, id));
    }
  }

  /** Of a finger new to the driver, with a slot for it in every polled frame, whatever its states are: the first
      frame opens a contact, and so does every later one that still has it after one that had it lifted. */
  lemma OpeningsExactly(s: State, frames: seq<seq<Finger>>, id: byte)
    requires Inv(s) && id !in s.down && id !in s.prev
    requires frames != [] && AllDistinct(frames) && AllHave(frames, id) && RoomThroughout(s, frames, id)
    ensures AllHave(frames[1..], id)
    ensures Count(Polls(s, frames).table.log, id) - Count(s.table.log, id)
            == 1 + Returns(frames[1..], id, StateIn(frames[0], id))
  {
    var fs := frames[0];
    assert fs in frames && AllHave(frames[1..], id);
    assert id as int !in Contacts(s);
    hide Inv;
    RoomyFrame(s, fs, id);
    hide Frame, Contacts, Room, Present, StateIn, Count;
    ReturnsOpen(Frame(s, fs), frames[1..], id, StateIn(fs, id));
  }

  /** The phase after a polled frame when the firmware sends any number of lift frames. */
  function NextOfMany(phase: Phase, state: byte): Option<Phase> {
    if phase.Lifted? && state == 7 then Some(Lifted) else Next(phase, state)
  }

  /** One contact of the shape 3, 4.., 7.., 0 of which any part is polled. */
  predicate ManyLifts(frames: seq<seq<Finger>>, id: byte, phase: Phase)
    requires AllHave(frames, id)
    decreases |frames|
  {
    frames == [] ||
    (assert AllHave(frames[1..], id);
     NextOfMany(phase, StateIn(frames[0], id)).Some? &&
     ManyLifts(frames[1..], id, NextOfMany(phase, StateIn(frames[0], id)).value))
  }

  /** How many polled frames have the finger lifted. */
  function LiftFrames(frames: seq<seq<Finger>>, id: byte): nat
    requires AllHave(frames, id)
    decreases |frames|
  {
    if frames == [] then 0
    else
      assert AllHave(frames[1..], id);
      (if StateIn(frames[0], id) == 7 then 1 else 0) + LiftFrames(frames[1..], id)
  }

  lemma {:induction false} ReturnsAreLifts(frames: seq<seq<Finger>>, id: byte, before: byte, phase: Phase)
    requires AllHave(frames, id) && ManyLifts(frames, id, phase)
    requires match phase
             case NotSeen => false
             case Touching => Touches(before)
             case Lifted => before == 7
             case Gone => before == 0
    ensures Returns(frames, id, before) ==
            if phase.Touching? then Max(1, LiftFrames(frames, id)) - 1 else LiftFrames(frames, id)
    decreases |frames|
  {
    if frames != [] {
      assert AllHave(frames[1..], id);
      hide StateIn, AllHave;
      ReturnsAreLifts(frames[1..], id, StateIn(frames[0], id), NextOfMany(phase, StateIn(frames[0], id)).value);
    }
  }

  /** One contact with any number of lift frames, of which any nonempty part is polled: the core opens it once
      for each polled lift frame, and once if there is none; so exactly once if and only if at most one is. */
  lemma LiftFramesOpen(s: State, frames: seq<seq<Finger>>, id: byte)
    requires Inv(s) && id !in s.down && id !in s.prev
    requires frames != [] && AllDistinct(frames) && AllHave(frames, id) && RoomThroughout(s, frames, id)
    requires ManyLifts(frames, id, NotSeen)
    ensures var begun := Count(Polls(s, frames).table.log, id) - Count(s.table.log, id);
            begun == Max(1, LiftFrames(frames, id)) && (begun == 1 <==> LiftFrames(frames, id) <= 1)
  {
    OpeningsExactly(s, frames, id);
    hide StateIn, AllHave, Inv, RoomThroughout, Polls, Count;
    ReturnsAreLifts(frames[1..], id, StateIn(frames[0], id), NextOfMany(NotSeen, StateIn(frames[0], id)).value);
  }

  // ---- coordinates ------------------------------------------------------------------------------

  /** Once a frame has been synced, every contact that begins sends both its coordinates. */
  lemma ContactsBeginComplete(s: State, fs: seq<Finger>)
    requires SlotsOk(s) && Distinct(fs)
    ensures FreeForgotten(Frame(s, fs).table.slots)
    ensures FreeForgotten(s.table.slots) ==> Frame(s, fs).table.partial == s.table.partial
  {
    var tap := TapReports(fs, s.down, s.prev);
    ReportsDistinct(fs, s.down, s.prev);
    PassEffect(s.table, tap);
    SyncEffect(ApplyAll(s.table, tap));
    var t1 := if AnyMissed(fs, s.down, s.prev) then Sync(ApplyAll(s.table, tap)) else s.table;
    PassEffect(t1, PlainReports(fs));
    SyncEffect(ApplyAll(t1, PlainReports(fs)));
    if FreeForgotten(s.table.slots) {
      ApplyAllSends(s.table, tap);
      ApplyAllSends(t1, PlainReports(fs));
    }
    hide ApplyAll, Sync, FreeForgotten, UniqueKeys, NothingUsed, PlainReports, TapReports, DistinctKeys, AnyMissed;
  }

  /** Before the first frame the slots still hold the core's zeros: of the contacts it begins, exactly those
      opened in its first pass with a coordinate 0 lack it. */
  lemma FirstFramePartial(fs: seq<Finger>)
    requires Distinct(fs)
    ensures var rs := if AnyMissed(fs, {}, {}) then TapReports(fs, {}, {}) else PlainReports(fs);
            Frame(FIRST, fs).table.partial == OpenedAtEdge({}, rs, MAX_FINGERS)
  {
    var tap, plain, t := TapReports(fs, {}, {}), PlainReports(fs), FIRST.table;
    FirstIsInv();
    ReportsDistinct(fs, {}, {});
    assert FreeZero(t.slots);
    hide ApplyAll, FreeForgotten, FreeZero, PlainReports, TapReports, DistinctKeys, AnyMissed, OpenedAtEdge;
    if AnyMissed(fs, {}, {}) {
      PassPartial(t, tap);
      PassEffect(t, tap);
      SyncEffect(ApplyAll(t, tap));
      var t1 := Sync(ApplyAll(t, tap));
      ApplyAllSends(t1, plain);
      PassEffect(t1, plain);
      SyncEffect(ApplyAll(t1, plain));
    } else {
      PassPartial(t, plain);
      PassEffect(t, plain);
      SyncEffect(ApplyAll(t, plain));
    }
  }

  /** So a single first touch lacks one exactly if it is at a coordinate 0. */
  lemma FirstTouchAtEdge(id: byte, x: nat, y: nat)
    ensures Frame(FIRST, [Finger(id, STATE_DOWN, x, y)]).table.partial == if x == 0 || y == 0 then 1 else 0
  {
    var fs := [Finger(id, STATE_DOWN, x, y)];
    var rs := PlainReports(fs);
    FirstFramePartial(fs);
    assert !AnyMissed(fs, {}, {});
    assert rs[..0] == [] && {} + Keys([]) == {};
    hide Frame;
    assert OpenedAtEdge({}, rs, MAX_FINGERS) == OpenedAtEdge({}, [], MAX_FINGERS) + if x == 0 || y == 0 then 1 else 0;
  }
}
