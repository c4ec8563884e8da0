/** create_lzss_payload.lzss_compress: the older encoder, which compares the input with a ring that it
    does not update during a match while the decoder's ring is updated byte by byte. */
module LzssLegacy {
  import opened Bytes
  import opened LzssFormat
  import opened LzssDecoders
  import opened LzssStream
  import E = LzssEncoder

  const CAP := 2 * E.MAXCHAIN
  const DROP := E.MAXCHAIN

  /** The ring positions of the earlier occurrences of a key. */
  function RingOccurrences(data: seq<byte>, k: int, i: nat): (rs: seq<nat>)
    ensures forall r :: r in rs ==> r < N
  {
    if i == 0 then []
    else RingOccurrences(data, k, i - 1) + if E.HasKey(data, k, i - 1) then [WritePos(i - 1)] else []
  }

  /** Cell pos + k of the ring, as it is before the match at i, holds the input byte at i + k. */
  predicate RingAgrees(data: seq<byte>, i: nat, pos: nat, k: nat) {
    i + k < |data| && Cell(SPACE, data[..i], (pos + k) % N) == data[i + k]
  }

  function RingMatch(data: seq<byte>, i: nat, pos: nat, ml: nat, avail: nat): (r: nat)
    requires i + avail <= |data| && ml <= avail
    ensures ml <= r <= avail
    ensures forall k :: ml <= k < r ==> RingAgrees(data, i, pos, k)
    decreases avail - ml
  {
    if ml < avail && RingAgrees(data, i, pos, ml) then RingMatch(data, i, pos, ml + 1, avail) else ml
  }

  datatype Best = Best(len: nat, pos: nat)

  function Better(data: seq<byte>, i: nat, avail: nat, pos: nat, best: Best): Best
    requires i + avail <= |data|
  {
    var ml := RingMatch(data, i, pos, 0, avail);
    if ml > best.len then Best(ml, pos) else best
  }

  /** The longest ring match among the candidates, oldest first, the oldest winning ties. */
  function Pick(data: seq<byte>, i: nat, avail: nat, cands: seq<nat>, best: Best): Best
    requires i + avail <= |data|
    decreases |cands|
  {
    if cands == [] then best
    else Pick(data, i, avail, cands[1..], Better(data, i, avail, cands[0], best))
  }

  lemma {:induction false} PickSaturated(data: seq<byte>, i: nat, avail: nat, cands: seq<nat>, best: Best)
    requires i + avail <= |data| && best.len >= avail
    ensures Pick(data, i, avail, cands, best) == best
    decreases |cands|
  {
    if cands != [] { PickSaturated(data, i, avail, cands[1..], best); }
  }

  lemma {:induction false} PickFromCands(data: seq<byte>, i: nat, avail: nat, cands: seq<nat>, best: Best)
    requires i + avail <= |data|
    ensures var b := Pick(data, i, avail, cands, best);
            b.len >= best.len &&
            (b == best || (b.pos in cands && b.len == RingMatch(data, i, b.pos, 0, avail)))
    decreases |cands|
  {
    if cands != [] { PickFromCands(data, i, avail, cands[1..], Better(data, i, avail, cands[0], best)); }
  }

  function BestMatch(data: seq<byte>, i: nat): (b: Best)
    requires i < |data|
  {
    var avail := E.Avail(data, i);
    if avail < 3 then Best(THR, 0)
    else Pick(data, i, avail, E.LastN(RingOccurrences(data, E.Key(data, i), i), E.MAXCHAIN), Best(THR, 0))
  }

  /** A reference was compared with the ring as it was before the match. */
  predicate MatchesOldRing(data: seq<byte>, i: nat, t: Token) {
    ValidToken(t) && i + TokenLen(t) <= |data| &&
    match t
    case Lit(c) => c == data[i]
    case Ref(pos, len) => forall k :: 0 <= k < len ==> RingAgrees(data, i, pos, k)
  }

  function LegacyToken(data: seq<byte>, i: nat): (t: Token)
    requires i < |data|
  {
    var b := BestMatch(data, i);
    if b.len >= THR + 1 then Ref(b.pos, b.len) else Lit(data[i])
  }

  lemma LegacyTokenMatches(data: seq<byte>, i: nat)
    requires i < |data|
    ensures MatchesOldRing(data, i, LegacyToken(data, i))
  {
    var avail := E.Avail(data, i);
    if avail >= 3 {
      var occ := RingOccurrences(data, E.Key(data, i), i);
      var cands := E.LastN(occ, E.MAXCHAIN);
      PickFromCands(data, i, avail, cands, Best(THR, 0));
      var b := BestMatch(data, i);
      hide Pick, RingOccurrences, RingAgrees;
      if b != Best(THR, 0) { assert b.pos in occ; }
    }
  }

  function Legacy(data: seq<byte>, i: nat): (ts: seq<Token>)
    requires i <= |data|
    decreases |data| - i
  {
    if i == |data| then []
    else
      LegacyTokenMatches(data, i);
      var t := LegacyToken(data, i);
      [t] + Legacy(data, i + TokenLen(t))
  }

  lemma {:induction false} LegacyCovers(data: seq<byte>, i: nat)
    requires i <= |data|
    ensures Covers(data, i, Legacy(data, i)) && ValidTokens(Legacy(data, i))
    decreases |data| - i
  {
    if i < |data| {
      LegacyUnfolds(data, i);
      LegacyTokenMatches(data, i);
      hide Legacy, LegacyToken, TokenLen;
      LegacyCovers(data, i + TokenLen(LegacyToken(data, i)));
    }
  }

  // ---- when a token is right --------------------------------------------------------------------

  /** How far behind the write position the reference starts, modulo the ring size. */
  function RingDistance(i: nat, pos: nat): (d: nat)
    ensures d < N
  {
    (WritePos(i) - pos) % N
  }

  /** Where the match runs into the bytes it writes itself, those bytes repeat: nothing to check when
      the reference starts at the write position or is no longer than its distance. */
  predicate SelfConsistent(data: seq<byte>, i: nat, t: Token) {
    t.Ref? && i + t.len <= |data| ==>
      var d := RingDistance(i, t.pos);
      d == 0 || forall k :: i + d <= k < i + t.len ==> data[k] == data[k - d]
  }

  /** The age of the cells a reference reads, at the time it reads them: the distance, or a whole ring. */
  lemma AgeWhenRead(i: nat, pos: nat, k: nat)
    requires pos < N && k < N
    ensures var d := RingDistance(i, pos);
            var a := if d == 0 then N else d;
            Age(i + k, (pos + k) % N) == a && (k < a ==> Age(i, (pos + k) % N) == a - k)
  {
    var d := RingDistance(i, pos);
    var a := if d == 0 then N else d;
    assert PosAt(i, a) == pos by {
      ModMinus'(WritePos(i), WritePos(i) - pos);
    }
    AgeOfPos(i, a, k);
    if k < a {
      hide PosAt;
      AgeBack(i, a, k, (pos + k) % N);
    }
  }

  lemma AgeBack(i: nat, a: nat, k: nat, x: nat)
    requires 1 <= a <= N && k < a && x < N && Age(i + k, x) == a
    ensures Age(i, x) == a - k
  {
    var v := i + (N - F) - 1 - x;
    assert (v + k) % N == a - 1;
    assert v % N == ((v + k) % N - k) % N by { ModMinus(v + k, k); }
  }

  /** What step k of the copy reads. */
  lemma CellWhenRead(data: seq<byte>, i: nat, pos: nat, k: nat)
    requires pos < N && k < F && i + k < |data| && RingAgrees(data, i, pos, k)
    ensures var d, c := RingDistance(i, pos), Cell(SPACE, data[..i + k], (pos + k) % N);
            && (0 < d <= k ==> d <= i + k && c == data[i + k - d])
            && (d == 0 || k < d ==> c == data[i + k])
  {
    AgeWhenRead(i, pos, k);
  }

  lemma CopyMissed(data: seq<byte>, i: nat, pos: nat, k: nat, len: nat)
    requires k < len <= F && i + len <= |data| && Cell(SPACE, data[..i + k], (pos + k) % N) != data[i + k]
    ensures Copy(SPACE, data[..i + k], pos + k, len - k) != data[..i + len]
  {
    hide Cell;
    var o := data[..i + k];
    var c := Cell(SPACE, o, (pos + k) % N);
    var r := Copy(SPACE, o + [c], pos + k + 1, len - k - 1);
    assert r[i + k] == r[..|o + [c]|][i + k] == c;
    assert data[..i + len][i + k] != c;
  }

  lemma CopyMet(data: seq<byte>, i: nat, pos: nat, k: nat, len: nat)
    requires k < len <= F && i + len <= |data| && Cell(SPACE, data[..i + k], (pos + k) % N) == data[i + k]
    ensures Copy(SPACE, data[..i + k], pos + k, len - k) == Copy(SPACE, data[..i + k + 1], pos + k + 1, len - k - 1)
  {
    hide Cell;
    assert data[..i + k] + [data[i + k]] == data[..i + k + 1];
  }

  /** The decoder's copy next to the bytes the encoder compared: step k reads the same cell, unless the
      match has already overwritten it. */
  lemma {:induction false} CopyAgrees(data: seq<byte>, i: nat, pos: nat, k: nat, len: nat)
    requires pos < N && k <= len <= F && i + len <= |data|
    requires forall j :: 0 <= j < len ==> RingAgrees(data, i, pos, j)
    ensures Copy(SPACE, data[..i + k], pos + k, len - k) == data[..i + len]
            <==> (var d := RingDistance(i, pos);
                  d == 0 || forall j :: i + d <= j < i + len && i + k <= j ==> data[j] == data[j - d])
    decreases len - k
  {
    hide RingAgrees, RingDistance, Cell;
    if k < len {
      hide Copy;
      assert RingAgrees(data, i, pos, k);
      CellWhenRead(data, i, pos, k);
      if Cell(SPACE, data[..i + k], (pos + k) % N) == data[i + k] {
        CopyMet(data, i, pos, k, len);
        CopyAgrees(data, i, pos, k + 1, len);
      } else {
        CopyMissed(data, i, pos, k, len);
      }
    }
  }

  lemma TokenCorrectIffSelfConsistent(data: seq<byte>, i: nat, t: Token)
    requires MatchesOldRing(data, i, t)
    ensures Correct(SPACE, data, i, t) <==> SelfConsistent(data, i, t)
  {
    match t
    case Lit(c) =>
      assert data[..i] + [c] == data[..i + 1];
    case Ref(pos, len) =>
      CopyAgrees(data, i, pos, 0, len);
      assert data[..i + 0] == data[..i];
  }

  predicate AllSelfConsistent(data: seq<byte>, i: nat, ts: seq<Token>)
    decreases |ts|
  {
    ts == [] || (SelfConsistent(data, i, ts[0]) && AllSelfConsistent(data, i + TokenLen(ts[0]), ts[1..]))
  }

  lemma {:induction false} LegacyCorrectIff(data: seq<byte>, i: nat)
    requires i <= |data|
    ensures AllCorrect(SPACE, data, i, Legacy(data, i)) <==> AllSelfConsistent(data, i, Legacy(data, i))
    decreases |data| - i
  {
    if i < |data| {
      var t := LegacyToken(data, i);
      LegacyTokenMatches(data, i);
      TokenCorrectIffSelfConsistent(data, i, t);
      LegacyUnfolds(data, i);
      hide Legacy, LegacyToken, MatchesOldRing, SelfConsistent, Correct;
      LegacyCorrectIff(data, i + TokenLen(t));
    }
  }

  lemma LegacyUnfolds(data: seq<byte>, i: nat)
    requires i < |data|
    ensures i + TokenLen(LegacyToken(data, i)) <= |data|
    ensures Legacy(data, i) == [LegacyToken(data, i)] + Legacy(data, i + TokenLen(LegacyToken(data, i)))
  {
    LegacyTokenMatches(data, i);
  }

  /** The older encoder's output decodes to its input exactly when every emitted reference that runs into
      its own output repeats there. */
  lemma LegacyRoundTripIff(data: seq<byte>)
    ensures ValidTokens(Legacy(data, 0))
    ensures DecodeAll(SPACE, Pack(Legacy(data, 0)), |data|).out == data
            <==> AllSelfConsistent(data, 0, Legacy(data, 0))
  {
    LegacyCovers(data, 0);
    DecodesIffAllCorrect(SPACE, data, Legacy(data, 0));
    LegacyCorrectIff(data, 0);
  }

  // ---- inputs that are safe ---------------------------------------------------------------------

  /** What the ring still holds, before a match, where the byte at p is about to go. */
  function RingBefore(data: seq<byte>, p: nat): byte
    requires p < |data|
  {
    if p >= N then data[p - N] else SPACE
  }

  /** A byte that equals what the ring held for a byte up to 17 earlier equals that earlier byte. Only the
      input is looked at. */
  predicate Steady(data: seq<byte>) {
    forall p, x :: 0 <= p < x < |data| && x < p + F && data[x] == RingBefore(data, p) ==> data[x] == data[p]
  }

  lemma AgeOverwritten(i: nat, a: nat, k: nat, x: nat)
    requires 1 <= a <= k < N && x < N && Age(i + k, x) == a
    ensures Age(i, x) == N + a - k
  {
    var v := i + (N - F) - 1 - x;
    assert (v + k) % N == a - 1;
    assert v % N == ((v + k) % N - k) % N by { ModMinus(v + k, k); }
  }

  /** In a match that runs into its own output the encoder compared with bytes a whole ring older. */
  lemma OverwrittenAgrees(data: seq<byte>, i: nat, pos: nat, k: nat)
    requires pos < N && RingAgrees(data, i, pos, k)
    requires 0 < RingDistance(i, pos) <= k < F
    ensures data[i + k] == RingBefore(data, i + k - RingDistance(i, pos))
  {
    var d := RingDistance(i, pos);
    AgeWhenRead(i, pos, k);
    AgeOverwritten(i, d, k, (pos + k) % N);
    hide RingDistance, Age;
  }

  lemma SteadyTokenConsistent(data: seq<byte>, i: nat, t: Token)
    requires Steady(data) && MatchesOldRing(data, i, t)
    ensures SelfConsistent(data, i, t)
  {
    if t.Ref? && RingDistance(i, t.pos) > 0 {
      var d := RingDistance(i, t.pos);
      forall k | i + d <= k < i + t.len ensures data[k] == data[k - d] {
        OverwrittenAgrees(data, i, t.pos, k - i);
        assert k - d < k < |data| && k < k - d + F;
      }
    }
  }

  lemma {:induction false} SteadyConsistent(data: seq<byte>, i: nat)
    requires Steady(data) && i <= |data|
    ensures AllSelfConsistent(data, i, Legacy(data, i))
    decreases |data| - i
  {
    hide *;
    if i == |data| {
      EndConsistent(data);
    } else {
      var t := LegacyToken(data, i);
      LegacyTokenMatches(data, i);
      SteadyTokenConsistent(data, i, t);
      LegacyUnfolds(data, i);
      TokenAdvances(data, i);
      SteadyConsistent(data, i + TokenLen(t));
      ConsistentCons(data, i, t, Legacy(data, i + TokenLen(t)));
    }
  }

  lemma EndConsistent(data: seq<byte>)
    ensures AllSelfConsistent(data, |data|, Legacy(data, |data|))
  {
    hide Legacy;
    LegacyEnds(data);
  }

  lemma TokenAdvances(data: seq<byte>, i: nat)
    requires i < |data|
    ensures 0 < TokenLen(LegacyToken(data, i)) <= |data| - i
  {
    LegacyTokenMatches(data, i);
    hide LegacyToken;
  }

  lemma ConsistentCons(data: seq<byte>, i: nat, t: Token, ts: seq<Token>)
    ensures AllSelfConsistent(data, i, [t] + ts)
            <==> SelfConsistent(data, i, t) && AllSelfConsistent(data, i + TokenLen(t), ts)
  {
    hide SelfConsistent;
    assert ([t] + ts)[1..] == ts;
  }

  /** A steady input round-trips through the older encoder. */
  lemma SteadyRoundTrips(data: seq<byte>)
    requires Steady(data)
    ensures ValidTokens(Legacy(data, 0)) && DecodeAll(SPACE, Pack(Legacy(data, 0)), |data|).out == data
  {
    hide Steady;
    SteadyConsistent(data, 0);
    LegacyRoundTripIff(data);
  }

  /** So does every input of at most 4096 bytes without a space. */
  lemma ShortSpacelessRoundTrips(data: seq<byte>)
    requires |data| <= N && SPACE !in data
    ensures ValidTokens(Legacy(data, 0)) && DecodeAll(SPACE, Pack(Legacy(data, 0)), |data|).out == data
  {
    forall p, x | 0 <= p < x < |data| ensures data[x] != RingBefore(data, p) {
      assert data[x] in data;
    }
    assert Steady(data);
    hide Steady;
    SteadyRoundTrips(data);
  }

  // ---- an input that is not ---------------------------------------------------------------------

  /** "abcabc " */
  const DEMO: seq<byte> := [97, 98, 99, 97, 98, 99, 32]

  lemma DemoLiterals()
    ensures LegacyToken(DEMO, 0) == Lit(97) && LegacyToken(DEMO, 1) == Lit(98) && LegacyToken(DEMO, 2) == Lit(99)
  {
    var k1, k2 := E.Key(DEMO, 1), E.Key(DEMO, 2);
    assert !E.HasKey(DEMO, k1, 0) && !E.HasKey(DEMO, k2, 0) && !E.HasKey(DEMO, k2, 1);
    assert RingOccurrences(DEMO, k1, 1) == RingOccurrences(DEMO, k1, 0) == [];
    assert RingOccurrences(DEMO, k2, 1) == RingOccurrences(DEMO, k2, 0) == [];
    assert RingOccurrences(DEMO, k2, 2) == RingOccurrences(DEMO, k2, 1);
  }

  lemma DemoOccurrences()
    ensures RingOccurrences(DEMO, E.Key(DEMO, 3), 3) == [N - F]
  {
    var k := E.Key(DEMO, 3);
    assert E.HasKey(DEMO, k, 0) && !E.HasKey(DEMO, k, 1) && !E.HasKey(DEMO, k, 2);
    assert RingOccurrences(DEMO, k, 1) == RingOccurrences(DEMO, k, 0) + [N - F] == [N - F];
    assert RingOccurrences(DEMO, k, 2) == RingOccurrences(DEMO, k, 1);
    assert RingOccurrences(DEMO, k, 3) == RingOccurrences(DEMO, k, 2);
  }

  lemma DemoReference()
    ensures LegacyToken(DEMO, 3) == Ref(N - F, 4)
  {
    DemoOccurrences();
    assert RingAgrees(DEMO, 3, N - F, 0) && RingAgrees(DEMO, 3, N - F, 1);
    assert RingAgrees(DEMO, 3, N - F, 2) && RingAgrees(DEMO, 3, N - F, 3);
    assert RingMatch(DEMO, 3, N - F, 2, 4) == 4;
    assert RingMatch(DEMO, 3, N - F, 0, 4) == 4;
    hide RingOccurrences, RingMatch;
    var cands := [N - F];
    assert E.LastN(cands, E.MAXCHAIN) == cands && cands[1..] == [];
  }

  lemma LegacyEnds(data: seq<byte>)
    ensures Legacy(data, |data|) == []
  {
  }

  lemma DemoTokens()
    ensures Legacy(DEMO, 0) == [Lit(97), Lit(98), Lit(99), Ref(N - F, 4)]
  {
    hide LegacyToken, Legacy;
    DemoLiterals();
    DemoReference();
    LegacyEnds(DEMO);
    LegacyUnfolds(DEMO, 3);
    LegacyUnfolds(DEMO, 2);
    LegacyUnfolds(DEMO, 1);
    LegacyUnfolds(DEMO, 0);
  }

  lemma DemoNotSelfConsistent()
    ensures !AllSelfConsistent(DEMO, 0, [Lit(97), Lit(98), Lit(99), Ref(N - F, 4)])
  {
    var ts := [Lit(97), Lit(98), Lit(99), Ref(N - F, 4)];
    assert !SelfConsistent(DEMO, 3, ts[3]) by {
      assert RingDistance(3, N - F) == 3 && DEMO[6] != DEMO[3];
    }
    hide SelfConsistent;
    assert ts[3..][0] == ts[3] && !AllSelfConsistent(DEMO, 3, ts[3..]);
    assert ts[2..][1..] == ts[3..] && ts[2..][0] == ts[2] && !AllSelfConsistent(DEMO, 2, ts[2..]);
    assert ts[1..][1..] == ts[2..] && ts[1..][0] == ts[1] && !AllSelfConsistent(DEMO, 1, ts[1..]);
  }

  /** It does not always: after "abcabc " the second "abc" is matched with the first, the match goes on
      into ring cells that still hold the initial spaces, and the decoder finds an "a" there. */
  lemma LegacyRoundTripFails()
    ensures ValidTokens(Legacy(DEMO, 0))
    ensures DecodeAll(SPACE, Pack(Legacy(DEMO, 0)), |DEMO|).out != DEMO
  {
    LegacyRoundTripIff(DEMO);
    DemoTokens();
    DemoNotSelfConsistent();
  }

  // ---- the encoder itself -----------------------------------------------------------------------

  /** Every chain is the tail of the ring positions of its key's occurrences, at least the last 33. */
  ghost predicate TableHolds(data: seq<byte>, i: nat, htab: E.Table) {
    forall k :: E.Keeps(E.Chain(htab, k), RingOccurrences(data, k, i), CAP + 1 - DROP)
  }

  lemma ChainAfter(data: seq<byte>, i: nat, list: seq<nat>, list': seq<nat>, k: int)
    requires E.Keeps(list, RingOccurrences(data, k, i), CAP + 1 - DROP)
    requires list' == if E.HasKey(data, k, i) then E.Chained(list, WritePos(i), CAP, DROP) else list
    ensures E.Keeps(list', RingOccurrences(data, k, i + 1), CAP + 1 - DROP)
  {
    hide E.Keeps;
    if E.HasKey(data, k, i) {
      E.ChainKeeps(list, RingOccurrences(data, k, i), WritePos(i), CAP, DROP, CAP + 1 - DROP);
    } else {
      assert RingOccurrences(data, k, i + 1) == RingOccurrences(data, k, i);
    }
  }

  /** htab_add for position i, whose byte goes to ring cell r. */
  method Insert(data: seq<byte>, i: nat, r: nat, htab: E.Table) returns (htab': E.Table)
    requires i < |data| && r == WritePos(i) && TableHolds(data, i, htab)
    ensures TableHolds(data, i + 1, htab')
  {
    hide E.Keeps, RingOccurrences;
    htab' := htab;
    if i + 2 < |data| {
      var k := E.Key(data, i);
      var lst := E.Chain(htab, k) + [r];
      if |lst| > 2 * E.MAXCHAIN {
        lst := lst[E.MAXCHAIN..];
      }
      htab' := htab[k := lst];
    }
    forall k
      ensures E.Keeps(E.Chain(htab', k), RingOccurrences(data, k, i + 1), CAP + 1 - DROP)
    {
      hide E.Key;
      assert E.Keeps(E.Chain(htab, k), RingOccurrences(data, k, i), CAP + 1 - DROP);
      ChainAfter(data, i, E.Chain(htab, k), E.Chain(htab', k), k);
    }
  }

  /** Every byte a token covers goes into the ring and, with its key, into the table. */
  method Advance(data: seq<byte>, ring: array<byte>, i0: nat, e: nat, r0: nat, htab0: E.Table)
    returns (r: nat, htab: E.Table)
    requires i0 <= e <= |data| && r0 == WritePos(i0)
    requires RingHolds(ring[..], SPACE, data[..i0]) && TableHolds(data, i0, htab0)
    modifies ring
    ensures r == WritePos(e) && RingHolds(ring[..], SPACE, data[..e]) && TableHolds(data, e, htab)
  {
    hide TableHolds, RingHolds, WritePos;
    r, htab := r0, htab0;
    for i := i0 to e
      invariant r == WritePos(i) && RingHolds(ring[..], SPACE, data[..i]) && TableHolds(data, i, htab)
    {
      assert data[..i] + [data[i]] == data[..i + 1];
      ghost var out;
      htab := Insert(data, i, r, htab);
      r, out := Emit(ring, SPACE, r, data[..i], data[i]);
    }
  }

  /** The comparison of one candidate with the ring. */
  method Compare(data: seq<byte>, ring: array<byte>, i: nat, pos: nat, avail: nat) returns (ml: nat)
    requires i + avail <= |data| && RingHolds(ring[..], SPACE, data[..i])
    ensures ml == RingMatch(data, i, pos, 0, avail)
  {
    ml := 0;
    while ml < avail && ring[(pos + ml) % N] == data[i + ml]
      invariant ml <= avail
      invariant RingMatch(data, i, pos, ml, avail) == RingMatch(data, i, pos, 0, avail)
    {
      ml := ml + 1;
    }
  }

  /** The search over the last 32 entries of a chain, oldest first. */
  method Search(data: seq<byte>, ring: array<byte>, i: nat, avail: nat, cands: seq<nat>)
    returns (bestLen: nat, bestPos: nat)
    requires i + avail <= |data| && avail <= F && RingHolds(ring[..], SPACE, data[..i])
    ensures Best(bestLen, bestPos) == Pick(data, i, avail, cands, Best(THR, 0))
  {
    hide RingHolds, RingMatch;
    bestLen, bestPos := THR, 0;
    for j := 0 to |cands|
      invariant Pick(data, i, avail, cands[j..], Best(bestLen, bestPos)) == Pick(data, i, avail, cands, Best(THR, 0))
    {
      assert cands[j..][0] == cands[j] && cands[j..][1..] == cands[j + 1..];
      var ml := Compare(data, ring, i, cands[j], avail);
      if ml > bestLen {
        bestLen, bestPos := ml, cands[j];
        if ml >= F {
          PickSaturated(data, i, avail, cands[j + 1..], Best(bestLen, bestPos));
          return;
        }
      }
    }
  }

  method ChooseToken(data: seq<byte>, ring: array<byte>, i: nat, htab: E.Table) returns (t: Token)
    requires i < |data| && RingHolds(ring[..], SPACE, data[..i]) && TableHolds(data, i, htab)
    ensures t == LegacyToken(data, i)
  {
    var avail := Min(F, |data| - i);
    var bestLen, bestPos := THR, 0;
    if avail >= 3 {
      var k := E.Key(data, i);
      E.LastOfKept(E.Chain(htab, k), RingOccurrences(data, k, i), CAP + 1 - DROP, E.MAXCHAIN);
      hide RingHolds, TableHolds, RingOccurrences, E.Keeps;
      bestLen, bestPos := Search(data, ring, i, avail, E.LastN(E.Chain(htab, k), E.MAXCHAIN));
    }
    if bestLen >= THR + 1 {
      t := Ref(bestPos, bestLen);
    } else {
      t := Lit(data[i]);
    }
  }

  /** The encoder at position i. */
  ghost predicate Encoding(data: seq<byte>, i: nat, ring: seq<byte>, r: nat, htab: E.Table, done: seq<Token>,
                           pend: seq<Token>, out: seq<byte>, flag: nat, fc: nat, ibuf: seq<byte>)
  {
    && i <= |data| && r == WritePos(i) && RingHolds(ring, SPACE, data[..i]) && TableHolds(data, i, htab)
    && E.Pending(done, pend, out, flag, fc, ibuf)
    && done + pend + Legacy(data, i) == Legacy(data, 0)
  }

  lemma EncodingStart(data: seq<byte>)
    ensures Encoding(data, 0, Repeat(SPACE, N), N - F, map[], [], [], [], 0, 0, [])
  {
    assert [] + [] + Legacy(data, 0) == Legacy(data, 0);
    assert data[..0] == [];
    RingStart(SPACE);
  }

  lemma EncodingStep(data: seq<byte>, i: nat, ts: seq<Token>, ts': seq<Token>)
    requires i < |data| && ts + Legacy(data, i) == Legacy(data, 0) && ts' == ts + [LegacyToken(data, i)]
    ensures i + TokenLen(LegacyToken(data, i)) <= |data|
    ensures ts' + Legacy(data, i + TokenLen(LegacyToken(data, i))) == Legacy(data, 0)
  {
    LegacyUnfolds(data, i);
    E.Reassociate(ts, LegacyToken(data, i), Legacy(data, i + TokenLen(LegacyToken(data, i))));
  }

  lemma EncodingEnd(data: seq<byte>, ts: seq<Token>)
    requires ts + Legacy(data, |data|) == Legacy(data, 0)
    ensures ts == Legacy(data, 0)
  {
  }

  method EncodeOne(data: seq<byte>, ring: array<byte>, i0: nat, r0: nat, htab0: E.Table, ghost done0: seq<Token>,
                   ghost pend0: seq<Token>, out0: seq<byte>, flag0: nat, fc0: nat, ibuf0: seq<byte>)
    returns (i: nat, r: nat, htab: E.Table, ghost done: seq<Token>, ghost pend: seq<Token>,
             out: seq<byte>, flag: nat, fc: nat, ibuf: seq<byte>)
    requires i0 < |data| && Encoding(data, i0, ring[..], r0, htab0, done0, pend0, out0, flag0, fc0, ibuf0)
    modifies ring
    ensures i0 < i && Encoding(data, i, ring[..], r, htab, done, pend, out, flag, fc, ibuf)
  {
    hide TableHolds, RingHolds, WritePos, E.Pending, Legacy, LegacyToken, Pack;
    var t := ChooseToken(data, ring, i0, htab0);
    LegacyTokenMatches(data, i0);
    done, pend, out, flag, fc, ibuf := E.Append(t, done0, pend0, out0, flag0, fc0, ibuf0);
    EncodingStep(data, i0, done0 + pend0, done + pend);
    i := i0 + TokenLen(t);
    r, htab := Advance(data, ring, i0, i, r0, htab0);
  }

  method LzssCompress(data: seq<byte>) returns (out: seq<byte>)
    ensures ValidTokens(Legacy(data, 0)) && out == Pack(Legacy(data, 0))
  {
    var ring := new byte[N](_ => SPACE);
    assert ring[..] == Repeat(SPACE, N);
    var r: nat, i: nat, flag: nat, fc: nat, ibuf: seq<byte>, htab: E.Table := N - F, 0, 0, 0, [], map[];
    out := [];
    ghost var done: seq<Token>, pend: seq<Token> := [], [];
    EncodingStart(data);
    while i < |data|
      invariant Encoding(data, i, ring[..], r, htab, done, pend, out, flag, fc, ibuf)
      decreases |data| - i
    {
      hide *;
      i, r, htab, done, pend, out, flag, fc, ibuf := EncodeOne(data, ring, i, r, htab, done, pend, out, flag, fc, ibuf);
    }
    LegacyCovers(data, 0);
    hide TableHolds, RingHolds, E.Pending, Legacy, Pack;
    out := E.Finish(done, pend, out, flag, fc, ibuf);
    EncodingEnd(data, done + pend);
  }
}
