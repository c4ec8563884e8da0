/** lzss_ok.compress: the hash-chain encoder, proved equal to a table-free greedy encoder. */
module LzssEncoder {
  import opened Bytes
  import opened LzssFormat
  import opened LzssDecoders
  import opened LzssStream

  const MAXCHAIN := 32
  const CAP := 256
  const DROP := 128

  // ---- 3-byte keys and where they occurred ------------------------------------------------------

  function Key(data: seq<byte>, p: nat): int
    requires p + 2 < |data|
  {
    data[p] as int * 65536 + data[p + 1] as int * 256 + data[p + 2]
  }

  lemma KeyDeterminesBytes(data: seq<byte>, p: nat, q: nat)
    requires p + 2 < |data| && q + 2 < |data| && Key(data, p) == Key(data, q)
    ensures data[p] == data[q] && data[p + 1] == data[q + 1] && data[p + 2] == data[q + 2]
  {
  }

  predicate HasKey(data: seq<byte>, k: int, p: nat) {
    p + 2 < |data| && Key(data, p) == k
  }

  /** The positions before i where key k occurs, in order. */
  function Occurrences(data: seq<byte>, k: int, i: nat): (ps: seq<nat>)
    ensures forall p :: p in ps ==> p < i && HasKey(data, k, p)
  {
    if i == 0 then []
    else Occurrences(data, k, i - 1) + if HasKey(data, k, i - 1) then [i - 1] else []
  }

  function LastN<T>(s: seq<T>, n: nat): seq<T> {
    if |s| <= n then s else s[|s| - n..]
  }

  /** list is the tail of all, and if anything is missing at least m entries are left. */
  ghost predicate Keeps<T>(list: seq<T>, all: seq<T>, m: nat) {
    |list| <= |all| && list == all[|all| - |list|..] && (|list| == |all| || |list| >= m)
  }

  /** A chain after one more entry, its older half dropped once it outgrows cap. */
  function Chained<T>(list: seq<T>, x: T, cap: nat, drop: nat): seq<T>
    requires drop <= cap
  {
    var l := list + [x];
    if |l| > cap then l[drop..] else l
  }

  lemma ChainKeeps<T>(list: seq<T>, all: seq<T>, x: T, cap: nat, drop: nat, m: nat)
    requires drop <= cap && m <= cap + 1 - drop && Keeps(list, all, m)
    ensures Keeps(Chained(list, x, cap, drop), all + [x], m)
  {
  }

  lemma LastOfKept<T>(list: seq<T>, all: seq<T>, m: nat, n: nat)
    requires Keeps(list, all, m) && n <= m
    ensures LastN(list, n) == LastN(all, n)
  {
  }

  // ---- matching ---------------------------------------------------------------------------------

  /** How far data[i..] agrees with itself d bytes earlier, counting from ml and stopping at avail. */
  function MatchFrom(data: seq<byte>, i: nat, d: nat, ml: nat, avail: nat): (r: nat)
    requires d <= i && i + avail <= |data| && ml <= avail
    ensures ml <= r <= avail
    ensures forall k :: i + ml <= k < i + r ==> data[k] == data[k - d]
    ensures r < avail ==> data[i + r] != data[i + r - d]
    decreases avail - ml
  {
    if ml < avail && data[i + ml] == data[i + ml - d] then MatchFrom(data, i, d, ml + 1, avail) else ml
  }

  function MatchLen(data: seq<byte>, i: nat, d: nat, avail: nat): (r: nat)
    requires d <= i && i + avail <= |data|
    ensures r <= avail
    ensures forall k :: i <= k < i + r ==> data[k] == data[k - d]
    ensures r < avail ==> data[i + r] != data[i + r - d]
  {
    MatchFrom(data, i, d, 0, avail)
  }

  datatype Best = Best(len: nat, d: nat)

  predicate InWindow(i: nat, p: nat) {
    1 <= i - p <= N - 1
  }

  function Better(data: seq<byte>, i: nat, avail: nat, p: nat, best: Best): (b: Best)
    requires i + avail <= |data|
  {
    if !InWindow(i, p) then best
    else
      var ml := MatchLen(data, i, i - p, avail);
      if ml > best.len then Best(ml, i - p) else best
  }

  /** The longest match among the candidates, latest first, a later candidate winning ties. */
  function Pick(data: seq<byte>, i: nat, avail: nat, cands: seq<nat>, best: Best): Best
    requires i + avail <= |data|
  {
    if cands == [] then best
    else
      var m := |cands| - 1;
      Pick(data, i, avail, cands[..m], Better(data, i, avail, cands[m], best))
  }

  lemma BetterKeeps(data: seq<byte>, i: nat, avail: nat, p: nat, best: Best)
    requires i + avail <= |data|
    ensures var b := Better(data, i, avail, p, best);
            && b.len >= best.len && (InWindow(i, p) ==> MatchLen(data, i, i - p, avail) <= b.len)
            && (b == best || (InWindow(i, p) && b == Best(MatchLen(data, i, i - p, avail), i - p)))
  {
    hide MatchLen;
  }

  lemma {:induction false} PickIsLongest(data: seq<byte>, i: nat, avail: nat, cands: seq<nat>, best: Best)
    requires i + avail <= |data|
    ensures var b := Pick(data, i, avail, cands, best);
            b.len >= best.len &&
            (forall p :: p in cands && InWindow(i, p) ==> MatchLen(data, i, i - p, avail) <= b.len) &&
            (b == best || exists p :: p in cands && InWindow(i, p) && b == Best(MatchLen(data, i, i - p, avail), i - p))
  {
    hide Better, MatchLen, InWindow;
    if cands != [] {
      var m := |cands| - 1;
      assert cands == cands[..m] + [cands[m]];
      BetterKeeps(data, i, avail, cands[m], best);
      PickIsLongest(data, i, avail, cands[..m], Better(data, i, avail, cands[m], best));
    }
  }

  lemma {:induction false} PickSaturated(data: seq<byte>, i: nat, avail: nat, cands: seq<nat>, best: Best)
    requires i + avail <= |data| && best.len >= avail
    ensures Pick(data, i, avail, cands, best) == best
  {
    if cands != [] { PickSaturated(data, i, avail, cands[..|cands| - 1], best); }
  }

  /** Equal keys match for at least three bytes. */
  lemma CandidateRepeats(data: seq<byte>, p: nat, i: nat, avail: nat)
    requires p < i && 3 <= avail && i + avail <= |data| && HasKey(data, Key(data, i), p)
    ensures var r := MatchLen(data, i, i - p, avail); 3 <= r <= avail && Repeats(data, i, i - p, r)
  {
    KeyDeterminesBytes(data, p, i);
    hide Key;
    assert forall k :: i <= k < i + 3 ==> data[k] == data[k - (i - p)];
  }

  // ---- the table-free encoder -------------------------------------------------------------------

  function Avail(data: seq<byte>, i: nat): (a: nat)
    requires i <= |data|
    ensures a <= F && i + a <= |data|
  {
    if |data| - i >= F then F else |data| - i
  }

  /** The best match at i among the last 32 earlier occurrences of its 3-byte key. */
  function BestMatch(data: seq<byte>, i: nat): Best
    requires i < |data|
  {
    var avail := Avail(data, i);
    if avail < 3 then Best(0, 0)
    else Pick(data, i, avail, LastN(Occurrences(data, Key(data, i), i), MAXCHAIN), Best(0, 0))
  }

  lemma BestMatchRepeats(data: seq<byte>, i: nat)
    requires i < |data|
    ensures var b := BestMatch(data, i);
            b.len == 0 || (THR + 1 <= b.len <= F && b.d < N && Repeats(data, i, b.d, b.len))
  {
    var b, avail := BestMatch(data, i), Avail(data, i);
    if avail >= 3 {
      var occ := Occurrences(data, Key(data, i), i);
      var cands := LastN(occ, MAXCHAIN);
      PickIsLongest(data, i, avail, cands, Best(0, 0));
      hide Pick, Occurrences, MatchLen, Repeats, BestMatch;
      if b != Best(0, 0) {
        var p :| p in cands && InWindow(i, p) && b == Best(MatchLen(data, i, i - p, avail), i - p);
        assert p in occ;
        CandidateRepeats(data, p, i, avail);
      }
    }
  }

  function GreedyToken(data: seq<byte>, i: nat): (t: Token)
    requires i < |data|
    ensures ValidToken(t) && i + TokenLen(t) <= |data|
  {
    BestMatchRepeats(data, i);
    var b := BestMatch(data, i);
    if b.len >= THR + 1 then Ref(PosAt(i, b.d), b.len) else Lit(data[i])
  }

  function Greedy(data: seq<byte>, i: nat): (ts: seq<Token>)
    requires i <= |data|
    ensures ValidTokens(ts)
    decreases |data| - i
  {
    if i == |data| then []
    else
      var t := GreedyToken(data, i);
      [t] + Greedy(data, i + TokenLen(t))
  }

  // ---- the hash-chain encoder -------------------------------------------------------------------

  type Table = map<int, seq<nat>>

  function Chain(htab: Table, k: int): seq<nat> {
    if k in htab then htab[k] else []
  }

  /** Every chain is the tail of the occurrences of its key before i, and only entries beyond the
      last 129 can be missing. */
  ghost predicate TableHolds(data: seq<byte>, i: nat, htab: Table) {
    forall k :: Keeps(Chain(htab, k), Occurrences(data, k, i), CAP + 1 - DROP)
  }

  /** One chain after position i: only the chain of its own key changes. */
  lemma ChainAfter(data: seq<byte>, i: nat, list: seq<nat>, list': seq<nat>, k: int)
    requires Keeps(list, Occurrences(data, k, i), CAP + 1 - DROP)
    requires list' == if HasKey(data, k, i) then Chained(list, i, CAP, DROP) else list
    ensures Keeps(list', Occurrences(data, k, i + 1), CAP + 1 - DROP)
  {
    hide Keeps;
    if HasKey(data, k, i) {
      ChainKeeps(list, Occurrences(data, k, i), i, CAP, DROP, CAP + 1 - DROP);
    } else {
      assert Occurrences(data, k, i + 1) == Occurrences(data, k, i);
    }
  }

  /** Position i enters the chain of its key, if three bytes are left there. */
  method Insert(data: seq<byte>, i: nat, htab: Table) returns (htab': Table)
    requires i < |data| && TableHolds(data, i, htab)
    ensures TableHolds(data, i + 1, htab')
  {
    hide Keeps, Occurrences;
    htab' := htab;
    if i + 2 < |data| {
      var k := Key(data, i);
      var c := Chain(htab, k);
      c := c + [i];
      if |c| > CAP {
        c := c[DROP..];
      }
      htab' := htab[k := c];
    }
    forall k
      ensures Keeps(Chain(htab', k), Occurrences(data, k, i + 1), CAP + 1 - DROP)
    {
      hide Key;
      assert Keeps(Chain(htab, k), Occurrences(data, k, i), CAP + 1 - DROP);
      ChainAfter(data, i, Chain(htab, k), Chain(htab', k), k);
    }
  }

  /** The byte-by-byte comparison of one candidate. */
  method Compare(data: seq<byte>, i: nat, d: nat, avail: nat) returns (ml: nat)
    requires d <= i && i + avail <= |data|
    ensures ml == MatchLen(data, i, d, avail)
  {
    ml := 0;
    while ml < avail && data[i + ml] == data[i + ml - d]
      invariant ml <= avail
      invariant MatchFrom(data, i, d, ml, avail) == MatchLen(data, i, d, avail)
    {
      ml := ml + 1;
    }
  }

  /** One candidate of the search: out of the window, rejected on the byte that would have to beat the
      best match so far, or compared. */
  method Try(data: seq<byte>, i: nat, avail: nat, p: nat, bestLen: nat, bestD: nat) returns (len: nat, d: nat)
    requires i + avail <= |data| && p < i && bestLen < avail
    ensures Best(len, d) == Better(data, i, avail, p, Best(bestLen, bestD)) && len <= avail
  {
    len, d := bestLen, bestD;
    var dist := i - p;
    if dist < 1 || dist > N - 1 {
      return;
    }
    if data[i + bestLen - dist] != data[i + bestLen] && bestLen > 0 {
      QuickReject(data, i, avail, dist, bestLen);
      return;
    }
    var ml := Compare(data, i, dist, avail);
    if ml > bestLen {
      len, d := ml, dist;
    }
  }

  /** The search over one chain: latest first, at most 32 entries, leaving early on a match that cannot
      grow. */
  method Search(data: seq<byte>, i: nat, avail: nat, cand: seq<nat>) returns (bestLen: nat, bestD: nat)
    requires i + avail <= |data| && 0 < avail
    requires forall p :: p in cand ==> p < i
    ensures Best(bestLen, bestD) == Pick(data, i, avail, LastN(cand, MAXCHAIN), Best(0, 0))
  {
    bestLen, bestD := 0, 0;
    var low := Max(-1, |cand| - 1 - MAXCHAIN) + 1;
    ghost var window := LastN(cand, MAXCHAIN);
    assert cand[low..] == window && |window| == |cand| - low;
    WholeAndNone(window);
    hide LastN, Better, MatchLen;
    var idx := |cand|;
    while idx > low
      invariant low <= idx <= |cand|
      invariant bestLen < avail
      invariant Pick(data, i, avail, window[..idx - low], Best(bestLen, bestD))
                == Pick(data, i, avail, window, Best(0, 0))
    {
      hide *;
      idx := idx - 1;
      assert cand[idx] in cand && window[idx - low] == cand[low..][idx - low] == cand[idx];
      PickUnfolds(data, i, avail, window, idx - low, Best(bestLen, bestD));
      bestLen, bestD := Try(data, i, avail, cand[idx], bestLen, bestD);
      if bestLen == avail {
        PickSaturated(data, i, avail, window[..idx - low], Best(bestLen, bestD));
        return;
      }
    }
  }

  lemma WholeAndNone<T>(s: seq<T>)
    ensures s[..|s|] == s && s[..0] == []
  {
  }

  lemma PickUnfolds(data: seq<byte>, i: nat, avail: nat, cands: seq<nat>, m: nat, best: Best)
    requires i + avail <= |data| && m < |cands|
    ensures Pick(data, i, avail, cands[..m + 1], best)
            == Pick(data, i, avail, cands[..m], Better(data, i, avail, cands[m], best))
  {
    hide Better;
    assert cands[..m + 1][..m] == cands[..m];
  }

  /** A candidate that differs on the byte just past the best match cannot be longer. */
  lemma QuickReject(data: seq<byte>, i: nat, avail: nat, d: nat, bestLen: nat)
    requires d <= i && i + avail <= |data| && bestLen < avail
    requires data[i + bestLen - d] != data[i + bestLen]
    ensures MatchLen(data, i, d, avail) <= bestLen
  {
    var r := MatchLen(data, i, d, avail);
  }

  /** flag | (1 << b) */
  function SetBit(flag: nat, b: nat): nat {
    if TestBit(flag, b) then flag else flag + Pow2(b)
  }

  lemma SmallQuotient(a: nat, b: nat)
    requires a < b
    ensures a / b == 0
  {
  }

  lemma {:induction false} FlagsSnoc(ts: seq<Token>, t: Token)
    ensures Flags(ts + [t]) == if t.Lit? then SetBit(Flags(ts), |ts|) else Flags(ts)
  {
    FlagsSum(ts, t);
    SmallQuotient(Flags(ts), Pow2(|ts|));
  }

  lemma {:induction false} FlagsSum(ts: seq<Token>, t: Token)
    ensures Flags(ts + [t]) == Flags(ts) + if t.Lit? then Pow2(|ts|) else 0
    decreases |ts|
  {
    if ts == [] {
      assert ts + [t] == [t] && [t][1..] == [];
    } else {
      assert (ts + [t])[0] == ts[0] && (ts + [t])[1..] == ts[1..] + [t];
      FlagsSum(ts[1..], t);
    }
  }

  lemma {:induction false} BodySnoc(ts: seq<Token>, t: Token)
    requires ValidTokens(ts) && ValidToken(t)
    ensures ValidTokens(ts + [t]) && Body(ts + [t]) == Body(ts) + TokenBytes(t)
    decreases |ts|
  {
    hide TokenBytes;
    if ts == [] {
      assert ts + [t] == [t] && [t][1..] == [];
    } else {
      assert (ts + [t])[0] == ts[0] && (ts + [t])[1..] == ts[1..] + [t];
      BodySnoc(ts[1..], t);
    }
  }

  lemma {:induction false} PackSnoc(done: seq<Token>, g: seq<Token>)
    requires ValidTokens(done) && ValidTokens(g) && |done| % 8 == 0 && 0 < |g| <= 8
    ensures ValidTokens(done + g) && Pack(done + g) == Pack(done) + Group(g)
    decreases |done|
  {
    hide Group;
    if done == [] {
      assert done + g == g;
    } else {
      assert (done + g)[..8] == done[..8] && (done + g)[8..] == done[8..] + g;
      PackSnoc(done[8..], g);
      if |done| == 8 { assert done[..8] == done && done[8..] == []; }
    }
  }

  /** The output bytes being built: what was flushed, the pending flag byte and its tokens. */
  ghost predicate Pending(done: seq<Token>, pend: seq<Token>, out: seq<byte>, flag: nat, fc: nat, ibuf: seq<byte>) {
    && ValidTokens(done) && ValidTokens(pend)
    && |done| % 8 == 0 && |pend| == fc < 8
    && out == Pack(done) && flag == Flags(pend) && ibuf == Body(pend)
  }

  /** The bytes of one more token join ibuf; the eighth flushes. */
  method Append(t: Token, ghost done: seq<Token>, ghost pend: seq<Token>,
                out: seq<byte>, flag: nat, fc: nat, ibuf: seq<byte>)
    returns (ghost done': seq<Token>, ghost pend': seq<Token>, out': seq<byte>, flag': nat, fc': nat, ibuf': seq<byte>)
    requires Pending(done, pend, out, flag, fc, ibuf) && ValidToken(t)
    ensures Pending(done', pend', out', flag', fc', ibuf')
    ensures done' + pend' == done + pend + [t]
  {
    FlagsSnoc(pend, t);
    BodySnoc(pend, t);
    hide Pack, Flags, Body, Group, TokenBytes, SetBit;
    done', pend', out', flag', fc', ibuf' := done, pend + [t], out, flag, fc, ibuf;
    assert done' + pend' == done + pend + [t];
    if t.Lit? {
      flag' := SetBit(flag, fc);
    }
    ibuf' := ibuf + TokenBytes(t);
    fc' := fc + 1;
    if fc' == 8 {
      out' := Flush(done', pend', out', flag', ibuf');
      assert done' + pend' + [] == done' + pend';
      done', pend' := done' + pend', [];
      flag', fc', ibuf' := 0, 0, [];
      NothingPending(done', out');
    }
  }

  lemma NothingPending(done: seq<Token>, out: seq<byte>)
    requires ValidTokens(done) && |done| % 8 == 0 && out == Pack(done)
    ensures Pending(done, [], out, 0, 0, [])
  {
  }

  lemma GroupBytes(g: seq<Token>)
    requires ValidTokens(g) && |g| <= 8
    ensures FlagByte(g) == Flags(g) && Group(g) == [FlagByte(g)] + Body(g)
  {
  }

  /** A flag byte and its tokens go out. */
  method Flush(ghost done: seq<Token>, ghost pend: seq<Token>, out: seq<byte>, flag: nat, ibuf: seq<byte>)
    returns (out': seq<byte>)
    requires ValidTokens(done) && ValidTokens(pend) && |done| % 8 == 0 && 0 < |pend| <= 8
    requires out == Pack(done) && flag == Flags(pend) && ibuf == Body(pend)
    ensures ValidTokens(done + pend) && out' == Pack(done + pend)
  {
    hide *;
    PackSnoc(done, pend);
    GroupBytes(pend);
    var fb: byte := FlagByte(pend);
    out' := out + [flag] + ibuf;
    assert out' == out + ([fb] + ibuf);
  }

  /** The candidate lookup and search of one position. */
  method FindMatch(data: seq<byte>, i: nat, htab: Table) returns (bestLen: nat, bestD: nat)
    requires i < |data| && TableHolds(data, i, htab)
    ensures Best(bestLen, bestD) == BestMatch(data, i)
  {
    bestLen, bestD := 0, 0;
    var avail := Avail(data, i);
    if avail >= 3 {
      var k := Key(data, i);
      LastOfKept(Chain(htab, k), Occurrences(data, k, i), CAP + 1 - DROP, MAXCHAIN);
      var cand := Chain(htab, k);
      forall p | p in cand ensures p < i {
        assert p in Occurrences(data, k, i);
      }
      if cand != [] {
        bestLen, bestD := Search(data, i, avail, cand);
      }
    }
  }

  method ChooseToken(data: seq<byte>, i: nat, htab: Table) returns (t: Token)
    requires i < |data| && TableHolds(data, i, htab)
    ensures t == GreedyToken(data, i)
  {
    var bestLen, bestD := FindMatch(data, i, htab);
    if bestLen >= THR + 1 {
      var r := (N - F + i) % N;
      t := Ref((r - bestD) % N, bestLen);
    } else {
      t := Lit(data[i]);
    }
  }

  /** Every position a token covers enters the table. */
  method InsertRange(data: seq<byte>, i0: nat, e: nat, htab0: Table) returns (htab: Table)
    requires i0 <= e <= |data| && TableHolds(data, i0, htab0)
    ensures TableHolds(data, e, htab)
  {
    hide TableHolds;
    htab := htab0;
    for i := i0 to e
      invariant TableHolds(data, i, htab)
    {
      htab := Insert(data, i, htab);
    }
  }

  lemma GreedyUnfolds(data: seq<byte>, i: nat)
    requires i < |data|
    ensures Greedy(data, i) == [GreedyToken(data, i)] + Greedy(data, i + TokenLen(GreedyToken(data, i)))
  {
  }

  lemma Reassociate<T>(a: seq<T>, t: T, b: seq<T>)
    ensures a + ([t] + b) == a + [t] + b
  {
  }

  /** The encoder at position i: what is flushed and pending is the greedy encoding of data[..i]. */
  ghost predicate Encoding(data: seq<byte>, i: nat, htab: Table, done: seq<Token>, pend: seq<Token>,
                           out: seq<byte>, flag: nat, fc: nat, ibuf: seq<byte>)
  {
    && i <= |data| && TableHolds(data, i, htab)
    && Pending(done, pend, out, flag, fc, ibuf)
    && done + pend + Greedy(data, i) == Greedy(data, 0)
  }

  lemma EncodingStart(data: seq<byte>)
    ensures Encoding(data, 0, map[], [], [], [], 0, 0, [])
  {
    assert [] + [] + Greedy(data, 0) == Greedy(data, 0);
  }

  lemma EncodingStep(data: seq<byte>, i: nat, ts: seq<Token>, ts': seq<Token>)
    requires i < |data| && ts + Greedy(data, i) == Greedy(data, 0) && ts' == ts + [GreedyToken(data, i)]
    ensures ts' + Greedy(data, i + TokenLen(GreedyToken(data, i))) == Greedy(data, 0)
  {
    GreedyUnfolds(data, i);
    Reassociate(ts, GreedyToken(data, i), Greedy(data, i + TokenLen(GreedyToken(data, i))));
  }

  lemma EncodingEnd(data: seq<byte>, ts: seq<Token>)
    requires ts + Greedy(data, |data|) == Greedy(data, 0)
    ensures ts == Greedy(data, 0)
  {
  }

  /** One token: chosen, appended, its positions entered. */
  method EncodeOne(data: seq<byte>, i0: nat, htab0: Table, ghost done0: seq<Token>, ghost pend0: seq<Token>,
                   out0: seq<byte>, flag0: nat, fc0: nat, ibuf0: seq<byte>)
    returns (i: nat, htab: Table, ghost done: seq<Token>, ghost pend: seq<Token>,
             out: seq<byte>, flag: nat, fc: nat, ibuf: seq<byte>)
    requires i0 < |data| && Encoding(data, i0, htab0, done0, pend0, out0, flag0, fc0, ibuf0)
    ensures i0 < i && Encoding(data, i, htab, done, pend, out, flag, fc, ibuf)
  {
    hide TableHolds, Pending, Greedy, GreedyToken, Pack;
    var t := ChooseToken(data, i0, htab0);
    done, pend, out, flag, fc, ibuf := Append(t, done0, pend0, out0, flag0, fc0, ibuf0);
    EncodingStep(data, i0, done0 + pend0, done + pend);
    i := i0 + TokenLen(t);
    htab := InsertRange(data, i0, i, htab0);
  }

  method Compress(data: seq<byte>) returns (out: seq<byte>)
    ensures out == Pack(Greedy(data, 0))
  {
    var flag: nat, fc: nat, ibuf: seq<byte>, i, htab: Table := 0, 0, [], 0, map[];
    out := [];
    ghost var done: seq<Token>, pend: seq<Token> := [], [];
    EncodingStart(data);
    while i < |data|
      invariant Encoding(data, i, htab, done, pend, out, flag, fc, ibuf)
      decreases |data| - i
    {
      hide *;
      i, htab, done, pend, out, flag, fc, ibuf := EncodeOne(data, i, htab, done, pend, out, flag, fc, ibuf);
    }
    hide TableHolds, Pending, Greedy, Pack;
    out := Finish(done, pend, out, flag, fc, ibuf);
    EncodingEnd(data, done + pend);
  }

  /** The last, shorter group. */
  method Finish(ghost done: seq<Token>, ghost pend: seq<Token>, out: seq<byte>, flag: nat, fc: nat, ibuf: seq<byte>)
    returns (out': seq<byte>)
    requires Pending(done, pend, out, flag, fc, ibuf)
    ensures ValidTokens(done + pend) && out' == Pack(done + pend)
  {
    out' := out;
    if fc > 0 {
      out' := Flush(done, pend, out, flag, ibuf);
    } else {
      assert done + pend == done;
    }
  }
}
