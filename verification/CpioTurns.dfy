/** The loop of cpio_members turn by turn: exactly when it never ends. */
module CpioTurns {
  import opened Bytes
  import opened CpioFormat
  import opened Loops

  /** Where the reader is after the member at p. */
  function NextAt(d: seq<byte>, p: int): Option<int> {
    if HeaderAt(d, p) && MemberAt(d, p).Yield? then Some(MemberAt(d, p).next) else None
  }

  function Step(d: seq<byte>): int -> Option<int> {
    p => NextAt(d, p)
  }

  /** The reader's turn n comes, and yields m. */
  ghost predicate TurnYields(d: seq<byte>, n: nat, m: Member) {
    match After(Step(d), 0, n)
    case None => false
    case Some(p) => HeaderAt(d, p) && MemberAt(d, p).Yield? && MemberAt(d, p).member == m
  }

  lemma OneTurn(d: seq<byte>, k: nat, p: int)
    requires After(Step(d), 0, k) == Some(p)
    ensures After(Step(d), 0, k + 1) == NextAt(d, p)
  {
    hide NextAt;
  }

  lemma OneYield(d: seq<byte>, k: nat, p: int)
    requires After(Step(d), 0, k) == Some(p) && HeaderAt(d, p) && MemberAt(d, p).Yield?
    ensures TurnYields(d, k, MemberAt(d, p).member)
  {
    hide HeaderAt, MemberAt, Step, After;
  }

  /** One more member in front. */
  lemma YieldsCons(d: seq<byte>, k: nat, m: Member, ms: seq<Member>)
    requires TurnYields(d, k, m) && forall i :: 0 <= i < |ms| ==> TurnYields(d, k + 1 + i, ms[i])
    ensures forall i :: 0 <= i < |[m] + ms| ==> TurnYields(d, k + i, ([m] + ms)[i])
  {
    hide TurnYields;
    forall i | 0 <= i < |[m] + ms| ensures TurnYields(d, k + i, ([m] + ms)[i]) {
      if i > 0 { assert TurnYields(d, k + 1 + (i - 1), ms[i - 1]); }
    }
  }

  lemma {:induction false} TurnsFrom(d: seq<byte>, k: nat, p: int, seen: set<int>)
    requires Positions(d, seen) && Visited(Step(d), 0, k, seen) && After(Step(d), 0, k) == Some(p)
    ensures var r := MembersFrom(d, p, seen);
            && (r.ending.Endless? <==> Forever(Step(d), 0))
            && (forall i :: 0 <= i < |r.members| ==> TurnYields(d, k + i, r.members[i]))
            && (!r.ending.Endless? ==> After(Step(d), 0, k + |r.members| + 1).None?)
    decreases 2 * |d| + 1 - |seen|
  {
    hide MemberAt, HeaderAt, Positions, Visited, Forever, After, Step, TurnYields;
    OneTurn(d, k, p);
    if !HeaderAt(d, p) || !(p in seen || MemberAt(d, p).Yield?) {
      Ends(Step(d), 0, k + 1);
    } else if p in seen {
      SeenAgain(Step(d), 0, k, seen, p);
    } else {
      var m, next := MemberAt(d, p).member, MemberAt(d, p).next;
      OneMore(d, p, seen);
      VisitedMore(Step(d), 0, k, seen, p);
      TurnsFrom(d, k + 1, next, seen + {p});
      OneYield(d, k, p);
      YieldsCons(d, k, m, MembersFrom(d, next, seen + {p}).members);
    }
  }

  /** The reader goes on for ever exactly if the listing says so; its first turns yield the members listed, and
      if it ends, it ends behind them. */
  lemma EndlessIffForever(d: seq<byte>)
    ensures Contents(d).ending.Endless? <==> Forever(Step(d), 0)
    ensures forall i :: 0 <= i < |Contents(d).members| ==> TurnYields(d, i, Contents(d).members[i])
    ensures !Contents(d).ending.Endless? ==> After(Step(d), 0, |Contents(d).members| + 1).None?
  {
    hide Forever, TurnYields, NextAt, Step, After, MembersFrom, Visited, Positions;
    NoPositions(d);
    StartsFresh(Step(d), 0);
    TurnsFrom(d, 0, 0, {});
    var ms := Contents(d).members;
    forall i | 0 <= i < |ms| ensures TurnYields(d, i, ms[i]) {
      assert TurnYields(d, 0 + i, ms[i]);
    }
  }

  // ---- an archive that is read for ever ---------------------------------------------------------

  /** One header with the size -0000070 and a name of one byte: the next record is this one. */
  const LOOP: seq<byte> :=
    seq(110, i requires 0 <= i < 110 =>
          if i < 6 then NEWC[i]
          else if i == 54 then 0x2D else if i == 60 then 0x37 else if i == 101 then 0x31
          else 0x30)

  lemma ZeroField(s: seq<byte>)
    requires |s| == 8 && forall i :: 0 <= i < 8 ==> s[i] == 0x30
    ensures ReadNumber(s) == Some(0)
  {
    HexFieldReads(0);
    HexIsPlain(0, 8);
    ZeroHex(8);
    assert s == Hex(0, 8);
  }

  lemma {:induction false} ZeroHex(k: nat)
    ensures |Hex(0, k)| == k && forall i :: 0 <= i < k ==> Hex(0, k)[i] == 0x30
  {
    if k > 0 { ZeroHex(k - 1); }
  }

  lemma SizeField(s: seq<byte>)
    requires s == [0x2D, 0x30, 0x30, 0x30, 0x30, 0x30, 0x37, 0x30]
    ensures ReadNumber(s) == Some(-112)
  {
    var t := s[1..];
    assert SkipBlanks(s) == s && SkipPrefix(t) == t;
    assert t == [0x30, 0x30, 0x30, 0x30, 0x30, 0x37, 0x30];
    Seven(t);
  }

  lemma Seven(t: seq<byte>)
    requires t == [0x30, 0x30, 0x30, 0x30, 0x30, 0x37, 0x30]
    ensures ReadDigits(t, 0, Nothing) == Some(112)
  {
    assert Pow16(7) > 112 by { assert Pow16(7) == 16 * (16 * Pow16(5)); }
    hide Hex, ReadDigits, Pow16;
    ZeroHex(5);
    HexStep(112, 7);
    HexStep(7, 6);
    assert t == Hex(112, 7);
    DigitsRead(112, 7, 0, Nothing, []);
    NoDigitsLeft(0 * Pow16(7) + 112);
    assert t + [] == t;
  }

  lemma HexStep(n: nat, k: nat)
    requires k > 0
    ensures Hex(n, k) == Hex(n / 16, k - 1) + [HexDigit(n % 16)]
  {
  }

  lemma OneField(s: seq<byte>)
    requires s == [0x30, 0x30, 0x30, 0x30, 0x30, 0x30, 0x30, 0x31]
    ensures ReadNumber(s) == Some(1)
  {
    HexFieldReads(1);
    assert s == Hex(1, 8) by {
      ZeroHex(7);
      assert Hex(1, 8) == Hex(0, 7) + [0x31];
    }
  }

  function LoopField(n: nat): int {
    if n == 6 then -112 else if n == 11 then 1 else 0
  }

  lemma LoopFieldReads(n: nat)
    requires n < 13
    ensures ReadNumber(Part(LOOP, 8 * n + 6, 8 * n + 14)) == Some(LoopField(n))
  {
    var s := LOOP[8 * n + 6..8 * n + 14];
    hide ReadNumber;
    if n == 6 {
      SizeField(s);
    } else if n == 11 {
      OneField(s);
    } else {
      ZeroField(s);
    }
  }

  lemma {:induction false} LoopFields(n: nat)
    requires n <= 13
    ensures FieldsAt(LOOP, 0, n).Some?
    ensures forall i :: 0 <= i < n ==> FieldsAt(LOOP, 0, n).value[i] == LoopField(i)
  {
    hide ReadNumber, Part;
    if n > 0 {
      LoopFields(n - 1);
      LoopFieldReads(n - 1);
    }
  }

  lemma LoopReturns()
    ensures NextAt(LOOP, 0) == Some(0)
  {
    LoopFields(13);
    assert Part(LOOP, 0, 6) == LOOP[0..6] == NEWC;
    assert Part(LOOP, 110, 110) == LOOP[110..110] == [];
    hide FieldsAt, Part;
    assert Align4(111) == 112;
  }

  /** The reader of that archive never ends. */
  lemma ArchiveReadForEver()
    ensures Contents(LOOP).ending.Endless? && Forever(Step(LOOP), 0)
  {
    LoopReturns();
    hide NextAt, Contents;
    OneTurn(LOOP, 0, 0);
    Returns(Step(LOOP), 0, 0, 1);
    EndlessIffForever(LOOP);
  }
}
