/** The frame state machine of apple_hidspi_touch.c: the down and prev bitmaps over the slot table,
    missed-tap synthesis and the release timeout. */
module TouchDriver {
  import opened Bytes
  import opened TouchSlots

  const MAX_FINGERS := 16
  const FINGERS_OFFSET := 32
  const FINGER_LEN := 30
  const STATE_DOWN := 3
  const STATE_MOVED := 4

  /** One finger record: x and y are the values sent after clamping. */
  datatype Finger = Finger(id: byte, state: byte, x: nat, y: nat)

  datatype State = State(table: Table, down: set<byte>, prev: set<byte>)

  // ---- frames -----------------------------------------------------------------------------------

  predicate IsDown(f: Finger) {
    f.state == STATE_DOWN || f.state == STATE_MOVED
  }

  /** Never reported down although it is lifted, and not merely the normal last frame of a touch. */
  predicate Unseen(f: Finger, down: set<byte>, prev: set<byte>) {
    f.id !in down && (f.state != 0 || f.id !in prev)
  }

  predicate Missed(f: Finger, down: set<byte>, prev: set<byte>) {
    !IsDown(f) && Unseen(f, down, prev)
  }

  function PlainReports(fs: seq<Finger>): (rs: seq<Report>)
    ensures |rs| == |fs|
    ensures forall i :: 0 <= i < |fs| ==> rs[i] == Report(fs[i].id, fs[i].x, fs[i].y, IsDown(fs[i]))
  {
    seq(|fs|, i requires 0 <= i < |fs| => Report(fs[i].id, fs[i].x, fs[i].y, IsDown(fs[i])))
  }

  /** The extra pass: missed fingers are reported down as well. */
  function TapReports(fs: seq<Finger>, down: set<byte>, prev: set<byte>): (rs: seq<Report>)
    ensures |rs| == |fs|
    ensures forall i :: 0 <= i < |fs| ==>
              rs[i] == Report(fs[i].id, fs[i].x, fs[i].y, IsDown(fs[i]) || Unseen(fs[i], down, prev))
  {
    seq(|fs|, i requires 0 <= i < |fs| =>
          Report(fs[i].id, fs[i].x, fs[i].y, IsDown(fs[i]) || Unseen(fs[i], down, prev)))
  }

  function Ids(fs: seq<Finger>): set<byte> {
    set f | f in fs :: f.id
  }

  predicate AnyMissed(fs: seq<Finger>, down: set<byte>, prev: set<byte>) {
    exists f :: f in fs && Missed(f, down, prev)
  }

  /** The down bitmap after the fingers were reported one by one. */
  function DownAfter(fs: seq<Finger>, down: set<byte>): set<byte>
    decreases |fs|
  {
    if fs == [] then down
    else
      var before, f := DownAfter(fs[..|fs| - 1], down), fs[|fs| - 1];
      if IsDown(f) then before + {f.id} else before - {f.id}
  }

  /** report_touches on the fingers of one frame. */
  function Frame(s: State, fs: seq<Finger>): State {
    var missed := AnyMissed(fs, s.down, s.prev);
    var t1 := if missed then Sync(ApplyAll(s.table, TapReports(fs, s.down, s.prev))) else s.table;
    State(Sync(ApplyAll(t1, PlainReports(fs))), DownAfter(fs, s.down), Ids(fs))
  }

  /** No frame for a while: everything is let go. */
  function Timeout(s: State): State {
    if s.down != {} then State(Sync(s.table), {}, {}) else s
  }

  /** boot() clears the bitmaps and leaves the slots alone. */
  function Booted(s: State): State {
    State(s.table, {}, {})
  }

  /** How many fingers a report of these bytes is read as having. */
  function FingerCount(p: seq<byte>): (n: nat)
    requires |p| >= FINGERS_OFFSET
    ensures FINGERS_OFFSET + n * FINGER_LEN <= |p|
  {
    Min(U32le(p, 16) / FINGER_LEN, (|p| - FINGERS_OFFSET) / FINGER_LEN)
  }

  /** The records of a report; position gives the coordinates sent for the record at an offset. */
  function Fingers(p: seq<byte>, position: (seq<byte>, nat) -> (nat, nat), n: nat): (fs: seq<Finger>)
    requires FINGERS_OFFSET + n * FINGER_LEN <= |p|
    ensures |fs| == n
  {
    seq(n, i requires 0 <= i < n && FINGERS_OFFSET + i * FINGER_LEN + 1 < |p| =>
          var o := FINGERS_OFFSET + i * FINGER_LEN;
          var xy := position(p, o);
          Finger(p[o], p[o + 1], xy.0, xy.1))
  }

  /** report_touches on the bytes of an input report; a short one changes nothing. */
  function AfterReport(s: State, p: seq<byte>, position: (seq<byte>, nat) -> (nat, nat)): State {
    if |p| < FINGERS_OFFSET then s else Frame(s, Fingers(p, position, FingerCount(p)))
  }

  class AhTouch {
    var table: Table
    var down: set<byte>
    var prev: set<byte>
    const position: (seq<byte>, nat) -> (nat, nat)

    constructor (position: (seq<byte>, nat) -> (nat, nat))
      ensures Now() == State(Table(Repeat(Slot(0, false, false, 0, 0), MAX_FINGERS), [], 0), {}, {})
      ensures this.position == position
    {
      this.position := position;
      table := Table(Repeat(Slot(0, false, false, 0, 0), MAX_FINGERS), [], 0);
      down, prev := {}, {};
    }

    function Now(): State
      reads this
    {
      State(table, down, prev)
    }

    method ReportFinger(f: Finger, isDown: bool)
      modifies this`table
      ensures table == Apply(old(table), Report(f.id, f.x, f.y, isDown))
    {
      var slot := SlotByKey(table.slots, f.id);
      if slot == |table.slots| {
        return;
      }
      var s := table.slots[slot];
      if !isDown {
        table := table.(slots := table.slots[slot := s.(key := f.id, active := false, used := true)]);
        return;
      }
      table := table.(slots := table.slots[slot := Slot(f.id, true, true, f.x, f.y)]);
      if !s.active {
        var sendsBoth := f.x != s.x && f.y != s.y;
        table := table.(log := table.log + [f.id], partial := table.partial + if sendsBoth then 0 else 1);
      }
    }

    method SyncFrame()
      modifies this`table
      ensures table == Sync(old(table))
    {
      var i := 0;
      ghost var before := table;
      while i < |table.slots|
        invariant i <= |table.slots| == |before.slots| && table == before.(slots := table.slots)
        invariant forall j :: 0 <= j < |table.slots| ==>
                    table.slots[j] == if j < i then SyncSlot(before.slots[j]) else before.slots[j]
      {
        table := table.(slots := table.slots[i := SyncSlot(table.slots[i])]);
        i := i + 1;
      }
      assert table.slots == Sync(before).slots;
    }

    method AnyTapMissed(fs: seq<Finger>) returns (missed: bool)
      ensures missed == AnyMissed(fs, down, prev)
    {
      missed := false;
      for i := 0 to |fs|
        invariant missed <==> exists j :: 0 <= j < i && Missed(fs[j], down, prev)
      {
        if Missed(fs[i], down, prev) {
          missed := true;
        }
      }
    }

    /** The extra pass for taps whose down frames fell between two polls. */
    method ReportTaps(fs: seq<Finger>)
      modifies this`table
      ensures table == Sync(ApplyAll(old(table), TapReports(fs, down, prev)))
    {
      ghost var rs := TapReports(fs, down, prev);
      for i := 0 to |fs|
        invariant table == ApplyAll(old(table), rs[..i])
      {
        assert rs[..i + 1][..i] == rs[..i];
        ReportFinger(fs[i], IsDown(fs[i]) || Unseen(fs[i], down, prev));
      }
      assert rs[..|fs|] == rs;
      SyncFrame();
    }

    method MarkPrev(fs: seq<Finger>)
      modifies this`prev
      ensures prev == Ids(fs)
    {
      prev := {};
      for i := 0 to |fs|
        invariant prev == Ids(fs[..i])
      {
        assert fs[..i + 1] == fs[..i] + [fs[i]];
        prev := prev + {fs[i].id};
      }
      assert fs[..|fs|] == fs;
    }

    method ReportAndTrack(fs: seq<Finger>)
      modifies this`table, this`down
      ensures table == Sync(ApplyAll(old(table), PlainReports(fs))) && down == DownAfter(fs, old(down))
    {
      ghost var rs := PlainReports(fs);
      for i := 0 to |fs|
        invariant table == ApplyAll(old(table), rs[..i]) && down == DownAfter(fs[..i], old(down))
      {
        assert rs[..i + 1][..i] == rs[..i] && fs[..i + 1][..i] == fs[..i];
        ReportFinger(fs[i], IsDown(fs[i]));
        down := if IsDown(fs[i]) then down + {fs[i].id} else down - {fs[i].id};
      }
      assert rs[..|fs|] == rs && fs[..|fs|] == fs;
      SyncFrame();
    }

    method ReportFingers(fs: seq<Finger>)
      modifies this
      ensures Now() == Frame(old(Now()), fs)
    {
      var missed := AnyTapMissed(fs);
      if missed {
        ReportTaps(fs);
      }
      MarkPrev(fs);
      ReportAndTrack(fs);
    }

    method ReportTouches(p: seq<byte>)
      modifies this
      ensures Now() == AfterReport(old(Now()), p, position)
    {
      if |p| < FINGERS_OFFSET {
        return;
      }
      var n := FingerCount(p);
      ReportFingers(Fingers(p, position, n));
    }

    /** The release timeout of ahtouch_thread. */
    method Release()
      modifies this
      ensures Now() == Timeout(old(Now()))
    {
      if down != {} {
        SyncFrame();
        down, prev := {}, {};
      }
    }

    method Boot()
      modifies this
      ensures Now() == Booted(old(Now()))
    {
      down, prev := {}, {};
    }
  }
}
