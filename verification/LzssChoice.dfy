/** What the two encoders choose and what the bytes of a stream mean, said of the input and in numbers only. */
module LzssChoice {
  import opened Bytes
  import opened LzssFormat
  import opened LzssStream
  import E = LzssEncoder
  import O = LzssLegacy

  // ---- the candidates ---------------------------------------------------------------------------

  /** The same three bytes stand at p and at i. */
  predicate SameThree(data: seq<byte>, p: nat, i: nat) {
    && p + 2 < |data| && i + 2 < |data|
    && data[p] == data[i] && data[p + 1] == data[i + 1] && data[p + 2] == data[i + 2]
  }

  /** The places between p and i where they stand as well. */
  ghost function Between(data: seq<byte>, p: nat, i: nat): set<nat> {
    set q: nat | p < q < i && SameThree(data, q, i)
  }

  /** One of the last 32 earlier places of the three bytes at i. */
  ghost predicate Recent(data: seq<byte>, p: nat, i: nat) {
    p < i && SameThree(data, p, i) && |Between(data, p, i)| < 32
  }

  /** The occurrences of a key between p and j. */
  ghost function KeysBetween(data: seq<byte>, k: int, p: nat, j: nat): set<nat> {
    set q: nat | p < q < j && E.HasKey(data, k, q)
  }

  lemma KeysGrow(data: seq<byte>, k: int, p: nat, j: nat)
    ensures KeysBetween(data, k, p, j + 1)
            == KeysBetween(data, k, p, j) + if p < j && E.HasKey(data, k, j) then {j} else {}
    ensures |KeysBetween(data, k, p, j + 1)|
            == |KeysBetween(data, k, p, j)| + if p < j && E.HasKey(data, k, j) then 1 else 0
  {
    hide E.HasKey;
    var old', new' := KeysBetween(data, k, p, j), KeysBetween(data, k, p, j + 1);
    if p < j && E.HasKey(data, k, j) {
      assert new' == old' + {j} && j !in old';
    } else {
      assert new' == old' == old' + {};
    }
  }

  predicate Increasing(s: seq<nat>) {
    forall a, b :: 0 <= a < b < |s| ==> s[a] < s[b]
  }

  /** Occurrences stand in order, and behind the one at p come as many as there are between p and j. */
  lemma {:induction false} OccurrencesInOrder(data: seq<byte>, k: int, j: nat)
    ensures var occ := E.Occurrences(data, k, j);
            && Increasing(occ)
            && (forall a :: 0 <= a < |occ| ==> |KeysBetween(data, k, occ[a], j)| == |occ| - 1 - a)
            && forall p: nat :: p < j && E.HasKey(data, k, p) ==> p in occ
  {
    hide E.HasKey, KeysBetween;
    if j == 0 {
      assert E.Occurrences(data, k, 0) == [];
    } else {
      OccurrencesInOrder(data, k, j - 1);
      var occ, before := E.Occurrences(data, k, j), E.Occurrences(data, k, j - 1);
      assert occ == before + if E.HasKey(data, k, j - 1) then [j - 1] else [];
      forall a | 0 <= a < |before|
        ensures occ[a] == before[a] < j - 1 && |KeysBetween(data, k, occ[a], j)| == |occ| - 1 - a
      {
        assert before[a] in before;
        KeysGrow(data, k, occ[a], j - 1);
      }
      KeysGrow(data, k, j - 1, j - 1);
      NoneBetween(data, k, j - 1);
    }
  }

  lemma NoneBetween(data: seq<byte>, k: int, p: nat)
    ensures KeysBetween(data, k, p, p) == {}
  {
  }

  lemma SameThreeIsKey(data: seq<byte>, p: nat, i: nat)
    requires i + 2 < |data|
    ensures SameThree(data, p, i) <==> E.HasKey(data, E.Key(data, i), p)
  {
    if E.HasKey(data, E.Key(data, i), p) { E.KeyDeterminesBytes(data, p, i); }
  }

  lemma BetweenIsKeys(data: seq<byte>, p: nat, i: nat)
    requires i + 2 < |data|
    ensures Between(data, p, i) == KeysBetween(data, E.Key(data, i), p, i)
  {
    hide SameThree, E.HasKey;
    forall q: nat ensures SameThree(data, q, i) <==> E.HasKey(data, E.Key(data, i), q) { SameThreeIsKey(data, q, i); }
  }

  /** The last 32 occurrences of the key at i are the recent places of its three bytes. */
  lemma RecentIsLast(data: seq<byte>, p: nat, i: nat)
    requires i + 2 < |data|
    ensures Recent(data, p, i) <==> p in E.LastN(E.Occurrences(data, E.Key(data, i), i), E.MAXCHAIN)
  {
    hide SameThree, Between, KeysBetween, E.Occurrences, E.HasKey;
    var k := E.Key(data, i);
    var occ := E.Occurrences(data, k, i);
    OccurrencesInOrder(data, k, i);
    BetweenIsKeys(data, p, i);
    SameThreeIsKey(data, p, i);
    var last := E.LastN(occ, E.MAXCHAIN);
    var cut := if |occ| <= 32 then 0 else |occ| - 32;
    assert last == occ[cut..];
    if p in occ {
      var a :| 0 <= a < |occ| && occ[a] == p;
      if a >= cut { assert last[a - cut] == p; }
    }
  }

  lemma LastInOrder(data: seq<byte>, i: nat)
    requires i + 2 < |data|
    ensures Increasing(E.LastN(E.Occurrences(data, E.Key(data, i), i), E.MAXCHAIN))
  {
    hide E.Occurrences, KeysBetween;
    OccurrencesInOrder(data, E.Key(data, i), i);
  }

  // ---- lzss_ok.compress -------------------------------------------------------------------------

  /** m bytes, at most 18, from i on are those from p on. */
  predicate Matches(data: seq<byte>, p: nat, i: nat, m: nat) {
    p < i && m <= 18 && i + m <= |data| && forall k :: i <= k < i + m ==> data[k] == data[k - (i - p)]
  }

  ghost predicate Candidate(data: seq<byte>, p: nat, i: nat) {
    Recent(data, p, i) && i - p <= 4095
  }

  /** What is emitted at i: a reference to the longest match among the candidates, to the latest of these, or the
      byte itself if there is no candidate. */
  ghost predicate Chosen(data: seq<byte>, i: nat, t: Token)
    requires i < |data|
  {
    match t
    case Lit(c) => c == data[i] && forall p: nat :: !Candidate(data, p, i)
    case Ref(pos, len) => exists p: nat :: Longest(data, p, i, len) && pos == (4078 + p) % 4096
  }

  ghost predicate Longest(data: seq<byte>, p: nat, i: nat, len: nat) {
    && Candidate(data, p, i) && Matches(data, p, i, len)
    && forall q: nat, m: nat :: Candidate(data, q, i) && Matches(data, q, i, m) ==> m < len || (m == len && q <= p)
  }

  lemma AvailIs(data: seq<byte>, i: nat)
    requires i <= |data|
    ensures E.Avail(data, i) == Min(18, |data| - i)
  {
  }

  lemma MatchesUpTo(data: seq<byte>, p: nat, i: nat, m: nat)
    requires p < i < |data|
    ensures Matches(data, p, i, m) <==> m <= E.MatchLen(data, i, i - p, E.Avail(data, i))
  {
    hide E.MatchLen, E.Avail;
    AvailIs(data, i);
    var avail := E.Avail(data, i);
    var r := E.MatchLen(data, i, i - p, avail);
    if r < avail { assert data[i + r] != data[i + r - (i - p)]; }
  }

  lemma BetterMeans(data: seq<byte>, i: nat, avail: nat, p: nat, best: E.Best)
    requires i + avail <= |data|
    ensures var b := E.Better(data, i, avail, p, best);
            b == best || (b.len > best.len && E.InWindow(i, p) && b == E.Best(E.MatchLen(data, i, i - p, avail), i - p))
    ensures E.InWindow(i, p) ==> E.MatchLen(data, i, i - p, avail) <= E.Better(data, i, avail, p, best).len
  {
    hide E.MatchLen;
  }

  /** What the pick is: the longest match, of the latest candidate that has one so long. */
  lemma {:induction false} PickIsLatest(data: seq<byte>, i: nat, avail: nat, cands: seq<nat>, best: E.Best)
    requires i + avail <= |data| && Increasing(cands)
    ensures var b := E.Pick(data, i, avail, cands, best);
            && (b == best || b.len > best.len)
            && (b != best ==>
                  exists p :: && p in cands && E.InWindow(i, p)
                              && b == E.Best(E.MatchLen(data, i, i - p, avail), i - p))
            && forall q :: q in cands && E.InWindow(i, q) ==>
                 var m := E.MatchLen(data, i, i - q, avail); m < b.len || (m == b.len && (b == best || q <= i - b.d))
  {
    hide E.Better, E.MatchLen, E.InWindow;
    if cands != [] {
      var m := |cands| - 1;
      var last := cands[m];
      assert cands == cands[..m] + [last];
      BetterMeans(data, i, avail, last, best);
      PickIsLatest(data, i, avail, cands[..m], E.Better(data, i, avail, last, best));
    }
  }

  lemma CandidatesAre(data: seq<byte>, i: nat)
    requires i + 2 < |data|
    ensures forall p: nat ::
              Candidate(data, p, i)
              <==> p in E.LastN(E.Occurrences(data, E.Key(data, i), i), E.MAXCHAIN) && E.InWindow(i, p)
  {
    hide Recent, E.LastN, E.Occurrences, E.Key;
    forall p: nat ensures Recent(data, p, i) <==> p in E.LastN(E.Occurrences(data, E.Key(data, i), i), E.MAXCHAIN) {
      RecentIsLast(data, p, i);
    }
    forall p: nat | Recent(data, p, i) ensures p < i { RecentIsBefore(data, p, i); }
  }

  lemma RecentIsBefore(data: seq<byte>, p: nat, i: nat)
    requires Recent(data, p, i)
    ensures p < i && SameThree(data, p, i)
  {
    hide SameThree;
  }

  lemma CandidateMatches(data: seq<byte>, p: nat, i: nat)
    requires i < |data| && Candidate(data, p, i)
    ensures p < i && Matches(data, p, i, 3) && 3 <= E.MatchLen(data, i, i - p, E.Avail(data, i))
  {
    hide E.MatchLen, Between;
    assert Matches(data, p, i, 3);
    MatchesUpTo(data, p, i, 3);
  }

  /** The token at i by the pick. */
  lemma TokenIsPick(data: seq<byte>, i: nat)
    requires i + 2 < |data|
    ensures var b := E.Pick(data, i, E.Avail(data, i),
                            E.LastN(E.Occurrences(data, E.Key(data, i), i), E.MAXCHAIN), E.Best(0, 0));
            && (b.len < 3 ==> E.GreedyToken(data, i) == Lit(data[i]))
            && (b.len >= 3 && b.d <= i ==> E.GreedyToken(data, i) == Ref((4078 + (i - b.d)) % 4096, b.len))
  {
    hide E.Pick, E.LastN, E.Occurrences, E.Key, PosAt;
    forall d: nat | d <= i ensures PosAt(i, d) == (4078 + (i - d)) % 4096 { PosIs(i, d); }
  }

  lemma LastAreLongest(data: seq<byte>, i: nat, p: nat, len: nat)
    requires i < |data| && Candidate(data, p, i) && p < i && len == E.MatchLen(data, i, i - p, E.Avail(data, i))
    requires forall q: nat :: Candidate(data, q, i) && q < i ==>
               var m := E.MatchLen(data, i, i - q, E.Avail(data, i)); m < len || (m == len && q <= p)
    ensures Longest(data, p, i, len)
  {
    hide Candidate, Matches, E.MatchLen, E.Avail;
    MatchesUpTo(data, p, i, len);
    forall q: nat, m: nat | Candidate(data, q, i) && Matches(data, q, i, m)
      ensures m < len || (m == len && q <= p)
    {
      MatchesBefore(data, q, i, m);
      MatchesUpTo(data, q, i, m);
    }
  }

  lemma MatchesBefore(data: seq<byte>, q: nat, i: nat, m: nat)
    requires Matches(data, q, i, m)
    ensures q < i
  {
  }

  lemma TokenWhenShort(data: seq<byte>, i: nat)
    requires i < |data| <= i + 2
    ensures E.GreedyToken(data, i) == Lit(data[i]) && forall p: nat :: !Candidate(data, p, i)
  {
    hide Between, E.Pick, E.Occurrences;
  }

  lemma TokenIsChosen(data: seq<byte>, i: nat)
    requires i + 2 < |data|
    ensures Chosen(data, i, E.GreedyToken(data, i))
  {
    hide Candidate, Longest, E.MatchLen, E.Pick, E.Occurrences, E.Key, E.LastN, E.GreedyToken;
    var avail, cands := E.Avail(data, i), E.LastN(E.Occurrences(data, E.Key(data, i), i), E.MAXCHAIN);
    LastInOrder(data, i);
    CandidatesAre(data, i);
    PickIsLatest(data, i, avail, cands, E.Best(0, 0));
    TokenIsPick(data, i);
    var b := E.Pick(data, i, avail, cands, E.Best(0, 0));
    forall q: nat | Candidate(data, q, i)
      ensures q < i && E.MatchLen(data, i, i - q, avail) >= 3
    {
      CandidateMatches(data, q, i);
    }
    if b != E.Best(0, 0) {
      LastAreLongest(data, i, i - b.d, b.len);
    }
  }

  lemma ChosenUnique(data: seq<byte>, i: nat, t: Token, u: Token)
    requires i < |data| && Chosen(data, i, t) && Chosen(data, i, u)
    ensures t == u
  {
    hide Candidate, Matches;
    if t.Ref? && u.Ref? {
      var p: nat :| Longest(data, p, i, t.len) && t.pos == (4078 + p) % 4096;
      var q: nat :| Longest(data, q, i, u.len) && u.pos == (4078 + q) % 4096;
      assert p == q;
    }
  }

  /** The token at i is the one that the input alone calls for. */
  lemma TokenIffChosen(data: seq<byte>, i: nat, t: Token)
    requires i < |data|
    ensures t == E.GreedyToken(data, i) <==> Chosen(data, i, t)
  {
    hide Chosen, E.GreedyToken, Candidate;
    if i + 2 < |data| { TokenIsChosen(data, i); } else { ShortIsChosen(data, i); }
    if Chosen(data, i, t) { ChosenUnique(data, i, t, E.GreedyToken(data, i)); }
  }

  lemma ShortIsChosen(data: seq<byte>, i: nat)
    requires i < |data| <= i + 2
    ensures Chosen(data, i, E.GreedyToken(data, i))
  {
    hide E.GreedyToken, Candidate;
    TokenWhenShort(data, i);
  }

  /** The tokens of data from i on: each is the chosen one at its place. */
  ghost predicate AllChosen(data: seq<byte>, i: nat, ts: seq<Token>)
    decreases |ts|
  {
    if ts == [] then i == |data|
    else i < |data| && Chosen(data, i, ts[0]) && AllChosen(data, i + TokenLen(ts[0]), ts[1..])
  }

  /** And the encoder's tokens are exactly these. */
  lemma {:induction false} GreedyIffChosen(data: seq<byte>, i: nat, ts: seq<Token>)
    requires i <= |data|
    ensures ts == E.Greedy(data, i) <==> AllChosen(data, i, ts)
    decreases |data| - i
  {
    hide Chosen, E.GreedyToken;
    if i < |data| && ts != [] {
      var t := E.GreedyToken(data, i);
      TokenIffChosen(data, i, ts[0]);
      assert ts == [ts[0]] + ts[1..];
      GreedyIffChosen(data, i + TokenLen(t), ts[1..]);
    }
  }

  // ---- create_lzss_payload.lzss_compress --------------------------------------------------------

  /** The byte that the ring holds, before anything from i on was written, in the cell where byte x goes: the last
      byte before i in that cell, or a space. */
  function RingByte(data: seq<byte>, i: nat, x: nat): byte
    requires i <= |data|
  {
    var y := (i - 1) - ((i - 1) - x) % 4096;
    if y >= 0 then data[y] else 32
  }

  /** m bytes, at most 18, from i on are what the ring holds from the cell of p on. */
  predicate RingMatches(data: seq<byte>, p: nat, i: nat, m: nat) {
    m <= 18 && i + m <= |data| && forall x :: i <= x < i + m ==> data[x] == RingByte(data, i, p + (x - i))
  }

  /** What is emitted at i: a reference to the longest such match of three bytes or more among the recent places,
      to the earliest of these, or the byte itself. */
  ghost predicate OldChosen(data: seq<byte>, i: nat, t: Token)
    requires i < |data|
  {
    match t
    case Lit(c) => c == data[i] && forall p: nat :: Recent(data, p, i) ==> !RingMatches(data, p, i, 3)
    case Ref(pos, len) => exists p: nat :: OldLongest(data, p, i, len) && pos == (4078 + p) % 4096
  }

  ghost predicate OldLongest(data: seq<byte>, p: nat, i: nat, len: nat) {
    && Recent(data, p, i) && 3 <= len && RingMatches(data, p, i, len)
    && forall q: nat, m: nat :: Recent(data, q, i) && RingMatches(data, q, i, m) ==> m < len || (m == len && p <= q)
  }

  /** The ring positions of the occurrences, one by one. */
  lemma {:induction false} RingPlaces(data: seq<byte>, k: int, j: nat)
    ensures var occ, rs := E.Occurrences(data, k, j), O.RingOccurrences(data, k, j);
            |rs| == |occ| && forall a :: 0 <= a < |occ| ==> rs[a] == (4078 + occ[a]) % 4096
  {
    hide E.HasKey;
    if j > 0 { RingPlaces(data, k, j - 1); }
  }

  /** What the ring comparison sees. */
  lemma RingSees(data: seq<byte>, i: nat, p: nat, k: nat)
    requires i + k < |data|
    ensures O.RingAgrees(data, i, (4078 + p) % 4096, k) <==> data[i + k] == RingByte(data, i, p + k)
  {
    var x := ((4078 + p) % 4096 + k) % 4096;
    assert x == (4078 + (p + k)) % 4096;
    SameCell(i, p + k);
  }

  lemma SameCell(i: nat, x: nat)
    ensures Age(i, (4078 + x) % 4096) == ((i - 1) - x) % 4096 + 1
  {
    var v := i + 4078 - 1;
    assert (v - (4078 + x) % 4096) % 4096 == (v - (4078 + x)) % 4096;
  }

  lemma RingMatchesUpTo(data: seq<byte>, p: nat, i: nat, m: nat)
    requires i < |data|
    ensures RingMatches(data, p, i, m) <==> m <= O.RingMatch(data, i, (4078 + p) % 4096, 0, E.Avail(data, i))
  {
    hide O.RingAgrees, RingByte, O.RingMatch;
    var avail, pos := E.Avail(data, i), (4078 + p) % 4096;
    var r := O.RingMatch(data, i, pos, 0, avail);
    MatchStops(data, i, pos, 0, avail);
    forall x | i <= x < i + avail
      ensures x < i + r ==> data[x] == RingByte(data, i, p + (x - i))
      ensures x == i + r ==> data[x] != RingByte(data, i, p + (x - i))
    {
      RingSees(data, i, p, x - i);
    }
    if r < avail { assert data[i + r] != RingByte(data, i, p + (i + r - i)); }
  }

  lemma {:induction false} MatchStops(data: seq<byte>, i: nat, pos: nat, ml: nat, avail: nat)
    requires i + avail <= |data| && ml <= avail
    ensures var r := O.RingMatch(data, i, pos, ml, avail); r < avail ==> !O.RingAgrees(data, i, pos, r)
    decreases avail - ml
  {
    hide O.RingAgrees;
    if ml < avail && O.RingAgrees(data, i, pos, ml) { MatchStops(data, i, pos, ml + 1, avail); }
  }

  lemma OldBetterMeans(data: seq<byte>, i: nat, avail: nat, pos: nat, best: O.Best)
    requires i + avail <= |data|
    ensures var b := O.Better(data, i, avail, pos, best);
            b == best || (b.len > best.len && b == O.Best(O.RingMatch(data, i, pos, 0, avail), pos))
    ensures O.RingMatch(data, i, pos, 0, avail) <= O.Better(data, i, avail, pos, best).len
  {
    hide O.RingMatch;
  }

  /** The older pick is the longest match of the earliest candidate that has one so long. */
  lemma {:induction false} PickIsEarliest(data: seq<byte>, i: nat, avail: nat, cands: seq<nat>, best: O.Best)
    returns (a: nat)
    requires i + avail <= |data|
    ensures var b := O.Pick(data, i, avail, cands, best);
            && (b == best || b.len > best.len)
            && (b != best ==> a < |cands| && b == O.Best(O.RingMatch(data, i, cands[a], 0, avail), cands[a]))
            && forall c :: 0 <= c < |cands| ==>
                 var m := O.RingMatch(data, i, cands[c], 0, avail); m < b.len || (m == b.len && (b == best || a <= c))
    decreases |cands|
  {
    hide O.Better, O.RingMatch;
    a := 0;
    if cands != [] {
      var first := O.Better(data, i, avail, cands[0], best);
      OldBetterMeans(data, i, avail, cands[0], best);
      var rest := PickIsEarliest(data, i, avail, cands[1..], first);
      var b := O.Pick(data, i, avail, cands, best);
      a := if b == first then 0 else rest + 1;
      assert forall c :: 1 <= c < |cands| ==> cands[c] == cands[1..][c - 1];
    }
  }

  lemma RecentAt(data: seq<byte>, i: nat, last: seq<nat>)
    requires i + 2 < |data| && last == E.LastN(E.Occurrences(data, E.Key(data, i), i), E.MAXCHAIN)
    ensures forall c :: 0 <= c < |last| ==> Recent(data, last[c], i)
    ensures forall p: nat :: Recent(data, p, i) ==> p in last
    ensures Increasing(last)
  {
    hide Recent, E.LastN, E.Occurrences, E.Key;
    forall p: nat ensures Recent(data, p, i) <==> p in last { RecentIsLast(data, p, i); }
    LastInOrder(data, i);
  }

  /** The older encoder's candidates, as ring positions. */
  lemma OldCandidates(data: seq<byte>, i: nat)
    requires i + 2 < |data|
    ensures var last := E.LastN(E.Occurrences(data, E.Key(data, i), i), E.MAXCHAIN);
            var rs := E.LastN(O.RingOccurrences(data, E.Key(data, i), i), E.MAXCHAIN);
            |rs| == |last| && forall c :: 0 <= c < |last| ==> rs[c] == (4078 + last[c]) % 4096
  {
    hide E.Occurrences, O.RingOccurrences, E.Key;
    RingPlaces(data, E.Key(data, i), i);
  }

  lemma OldTokenIsPick(data: seq<byte>, i: nat)
    requires i < |data|
    ensures i + 2 >= |data| ==> O.LegacyToken(data, i) == Lit(data[i])
    ensures i + 2 < |data| ==>
              var b := O.Pick(data, i, E.Avail(data, i),
                              E.LastN(O.RingOccurrences(data, E.Key(data, i), i), E.MAXCHAIN), O.Best(2, 0));
              O.LegacyToken(data, i) == if b.len >= 3 then Ref(b.pos, b.len) else Lit(data[i])
  {
    hide O.Pick, E.LastN, O.RingOccurrences, E.Key;
  }

  lemma OldTokenIsChosen(data: seq<byte>, i: nat)
    requires i + 2 < |data|
    ensures OldChosen(data, i, O.LegacyToken(data, i))
  {
    hide Recent, RingMatches, O.RingMatch, O.Pick, E.Occurrences, O.RingOccurrences, E.Key, E.LastN, O.LegacyToken;
    hide E.Avail;
    var avail, last := E.Avail(data, i), E.LastN(E.Occurrences(data, E.Key(data, i), i), E.MAXCHAIN);
    var rs := E.LastN(O.RingOccurrences(data, E.Key(data, i), i), E.MAXCHAIN);
    RecentAt(data, i, last);
    OldCandidates(data, i);
    OldTokenIsPick(data, i);
    var a := PickIsEarliest(data, i, avail, rs, O.Best(2, 0));
    var b := O.Pick(data, i, avail, rs, O.Best(2, 0));
    forall q: nat, m: nat | Recent(data, q, i) && RingMatches(data, q, i, m)
      ensures m <= b.len && (m == b.len && b != O.Best(2, 0) ==> last[a] <= q)
    {
      var c :| 0 <= c < |last| && last[c] == q;
      assert rs[c] == (4078 + q) % 4096;
      RingMatchesUpTo(data, q, i, m);
    }
    if b != O.Best(2, 0) {
      RingMatchesUpTo(data, last[a], i, b.len);
      assert OldLongest(data, last[a], i, b.len);
    }
  }

  lemma OldShortIsChosen(data: seq<byte>, i: nat)
    requires i < |data| <= i + 2
    ensures OldChosen(data, i, O.LegacyToken(data, i))
  {
    hide Recent, O.LegacyToken;
    OldTokenIsPick(data, i);
  }

  lemma OldChosenUnique(data: seq<byte>, i: nat, t: Token, u: Token)
    requires i < |data| && OldChosen(data, i, t) && OldChosen(data, i, u)
    ensures t == u
  {
    hide Recent, RingByte;
    if t.Ref? && u.Ref? {
      var p: nat :| OldLongest(data, p, i, t.len) && t.pos == (4078 + p) % 4096;
      var q: nat :| OldLongest(data, q, i, u.len) && u.pos == (4078 + q) % 4096;
      assert p == q;
    }
  }

  /** The older encoder's token at i is the one that the input alone calls for. */
  lemma OldTokenIffChosen(data: seq<byte>, i: nat, t: Token)
    requires i < |data|
    ensures t == O.LegacyToken(data, i) <==> OldChosen(data, i, t)
  {
    hide OldChosen, O.LegacyToken;
    if i + 2 < |data| { OldTokenIsChosen(data, i); } else { OldShortIsChosen(data, i); }
    if OldChosen(data, i, t) { OldChosenUnique(data, i, t, O.LegacyToken(data, i)); }
  }

  ghost predicate AllOldChosen(data: seq<byte>, i: nat, ts: seq<Token>)
    decreases |ts|
  {
    if ts == [] then i == |data|
    else i < |data| && OldChosen(data, i, ts[0]) && AllOldChosen(data, i + TokenLen(ts[0]), ts[1..])
  }

  /** The older encoder's tokens are exactly the chosen ones. */
  lemma {:induction false} LegacyIffChosen(data: seq<byte>, i: nat, ts: seq<Token>)
    requires i <= |data|
    ensures ts == O.Legacy(data, i) <==> AllOldChosen(data, i, ts)
    decreases |data| - i
  {
    hide OldChosen, O.LegacyToken;
    if i < |data| { O.LegacyUnfolds(data, i); }
    if i < |data| && ts != [] {
      var t := O.LegacyToken(data, i);
      OldTokenIffChosen(data, i, ts[0]);
      O.LegacyTokenMatches(data, i);
      assert ts == [ts[0]] + ts[1..];
      LegacyIffChosen(data, i + TokenLen(t), ts[1..]);
    }
  }

  // ---- the bytes of a stream --------------------------------------------------------------------

  /** A reference is two bytes: the low eight bits of its ring position, then its high four above length - 3. */
  lemma TokenInNumbers(t: Token)
    requires ValidToken(t)
    ensures t.Lit? ==> TokenBytes(t) == [t.c]
    ensures t.Ref? ==> |TokenBytes(t)| == 2 && t.pos < 4096 && 3 <= t.len <= 18
    ensures t.Ref? ==>
              var low: int, high: int := TokenBytes(t)[0], TokenBytes(t)[1];
              low + 256 * (high / 16) == t.pos && high % 16 + 3 == t.len
  {
    if t.Ref? {
      var b0: int, b1: int := t.pos % 256, t.pos / 256 * 16 + (t.len - 3);
      assert b1 / 16 == t.pos / 256 && b1 % 16 == t.len - 3;
    }
  }

  /** Bit k of the flag byte, counted from the lowest, is set exactly for a literal, and no bit above them is. */
  lemma {:induction false} FlagsInNumbers(ts: seq<Token>, k: nat)
    requires k < |ts|
    ensures Flags(ts) < Pow2(|ts|) && (Flags(ts) / Pow2(k) % 2 == 1 <==> ts[k].Lit?)
    decreases |ts|
  {
    var rest := Flags(ts[1..]);
    if k > 0 {
      FlagsInNumbers(ts[1..], k - 1);
      HalfFirst(Flags(ts), k);
      assert Flags(ts) / 2 == rest;
    }
  }

  lemma HalfFirst(n: nat, k: nat)
    requires k > 0
    ensures n / Pow2(k) == n / 2 / Pow2(k - 1)
  {
    var p := Pow2(k - 1);
    var q, r := n / 2 / p, n / 2 % p;
    assert n / 2 == q * p + r;
    assert q * Pow2(k) == 2 * (q * p);
    QuotientIs(n, Pow2(k), q);
  }

  lemma QuotientIs(n: nat, b: nat, q: nat)
    requires b > 0 && q * b <= n < q * b + b
    ensures n / b == q
  {
    if n / b < q { ProductGrows(n / b + 1, q, b); } else if n / b > q { ProductGrows(q + 1, n / b, b); }
  }

  lemma ProductGrows(x: nat, y: nat, b: nat)
    requires x <= y
    ensures x * b <= y * b && (x + 1) * b == x * b + b
  {
  }

  /** From place n on each byte is the one d before it, or the initial byte if there is none. */
  predicate GivesAgain(r: seq<byte>, n: nat, d: nat, fill: byte)
    requires 1 <= d
  {
    forall j :: n <= j < |r| ==> r[j] == ByteBefore(r, j, d, fill)
  }

  function ByteBefore(r: seq<byte>, j: nat, d: nat, fill: byte): byte
    requires 1 <= d && j < |r|
  {
    if d <= j then r[j - d] else fill
  }

  /** The bytes of a reference give the output again from d back, d between 1 and 4096, reaching into what they
      give themselves; the initial byte stands in front of the output. */
  lemma ReferenceInNumbers(fill: byte, src: seq<byte>, i: nat, out: seq<byte>)
    requires i + 1 < |src|
    ensures var low: int, high: int := src[i], src[i + 1];
            var pos, len := low + 256 * (high / 16), high % 16 + 3;
            var d := (4078 + |out| - pos - 1) % 4096 + 1;
            var r := Expand(fill, out, RefAt(src, i));
            |r| == |out| + len && r[..|out|] == out && GivesAgain(r, |out|, d, fill)
  {
    var low: int, high: int := src[i], src[i + 1];
    var pos, len := low + 256 * (high / 16), high % 16 + 3;
    assert RefAt(src, i) == Ref(pos, len);
    CopyInNumbers(fill, out, pos, 4078 + |out| - pos - 1, len);
  }

  lemma {:induction false} CopyInNumbers(fill: byte, out: seq<byte>, x: nat, v: int, len: nat)
    requires v == 4078 + |out| - x - 1
    ensures GivesAgain(Copy(fill, out, x, len), |out|, v % 4096 + 1, fill)
    decreases len
  {
    hide Cell;
    if len > 0 {
      var d, next := v % 4096 + 1, out + [Cell(fill, out, x % 4096)];
      CopyInNumbers(fill, next, x + 1, v, len - 1);
      CellInNumbers(fill, out, x, v);
      var r := Copy(fill, next, x + 1, len - 1);
      assert r == Copy(fill, out, x, len);
      FirstByte(r, out, next, d);
      assert r[|out|] == if d <= |out| then r[|out| - d] else fill;
    }
  }

  lemma FirstByte(r: seq<byte>, out: seq<byte>, next: seq<byte>, d: nat)
    requires |next| == |out| + 1 && next[..|out|] == out && |next| <= |r| && r[..|next|] == next && 1 <= d
    ensures r[|out|] == next[|out|] && (d <= |out| ==> r[|out| - d] == out[|out| - d])
  {
    assert r[|out|] == r[..|next|][|out|];
    if d <= |out| { assert r[|out| - d] == r[..|next|][|out| - d] == next[..|out|][|out| - d]; }
  }

  lemma CellInNumbers(fill: byte, out: seq<byte>, x: nat, v: int)
    requires v == 4078 + |out| - x - 1
    ensures var d := v % 4096 + 1; Cell(fill, out, x % 4096) == if d <= |out| then out[|out| - d] else fill
  {
    AgeInNumbers(|out|, x);
  }

  lemma AgeInNumbers(n: nat, x: nat)
    ensures Age(n, x % 4096) == (4078 + n - x - 1) % 4096 + 1
  {
    assert (n + 4078 - 1 - x % 4096) % 4096 == (4078 + n - x - 1) % 4096;
  }
}
