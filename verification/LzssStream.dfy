/** What a packed token list decodes to, and which token lists decode to given data. */
module LzssStream {
  import opened Bytes
  import opened LzssFormat
  import opened LzssDecoders

  function PlayUntil(fill: byte, out: seq<byte>, ts: seq<Token>, outlen: nat): seq<byte>
    decreases |ts|
  {
    if ts == [] || |out| >= outlen then out
    else PlayUntil(fill, Expand(fill, out, ts[0]), ts[1..], outlen)
  }

  lemma {:induction false} PlayUntilConcat(fill: byte, out: seq<byte>, a: seq<Token>, b: seq<Token>, outlen: nat)
    ensures PlayUntil(fill, out, a + b, outlen) == PlayUntil(fill, PlayUntil(fill, out, a, outlen), b, outlen)
    decreases |a|
  {
    if a == [] {
      assert a + b == b;
    } else if |out| < outlen {
      assert (a + b)[1..] == a[1..] + b;
      PlayUntilConcat(fill, Expand(fill, out, a[0]), a[1..], b, outlen);
    }
  }

  // ---- decoding what was packed -----------------------------------------------------------------

  lemma RestOfToken(src: seq<byte>, i: nat, t: Token, post: seq<byte>)
    requires ValidToken(t) && Rest(src, i, TokenBytes(t) + post)
    ensures i + TokenSize(t.Lit?) <= |src|
    ensures TokenAt(src, i, t.Lit?) == t && Rest(src, i + TokenSize(t.Lit?), post)
  {
    var b := TokenBytes(t);
    assert |b| == TokenSize(t.Lit?);
    RestSkips(src, i, b, post);
    assert src[i] == src[i..i + |b|][0] == b[0];
    if t.Ref? { assert src[i + 1] == src[i..i + |b|][1] == b[1]; }
  }

  lemma FlagsUnfold(g: seq<Token>)
    ensures g == [] ==> Flags(g) == 0
    ensures g != [] ==> Flags(g) / 2 == Flags(g[1..]) && (Flags(g) % 2 == 1 <==> g[0].Lit?)
  {
  }

  lemma BodyUnfolds(g: seq<Token>, post: seq<byte>)
    requires ValidTokens(g)
    ensures g == [] ==> Body(g) + post == post
    ensures g != [] ==>
              ValidToken(g[0]) && ValidTokens(g[1..]) && Body(g) + post == TokenBytes(g[0]) + (Body(g[1..]) + post)
  {
    hide TokenBytes;
    if g == [] {
      assert Body(g) + post == post;
    } else {
      assert Body(g) + post == TokenBytes(g[0]) + (Body(g[1..]) + post);
    }
  }

  lemma PlayUntilUnfolds(fill: byte, out: seq<byte>, ts: seq<Token>, outlen: nat)
    ensures ts == [] || |out| >= outlen ==> PlayUntil(fill, out, ts, outlen) == out
    ensures ts != [] && |out| < outlen ==>
              PlayUntil(fill, out, ts, outlen) == PlayUntil(fill, Expand(fill, out, ts[0]), ts[1..], outlen)
  {
  }

  /** The tokens behind one flag byte, from input position i on; nb >= |g| flag bits are left. */
  lemma {:induction false} DecodeGroup(fill: byte, src: seq<byte>, i: nat, g: seq<Token>, post: seq<byte>, nb: nat,
                                       out: seq<byte>, outlen: nat) returns (j: nat)
    requires ValidTokens(g) && |g| <= nb && Rest(src, i, Body(g) + post)
    ensures Rest(src, j, post)
    ensures var o := PlayUntil(fill, out, g, outlen);
            Decode(fill, src, i, Flags(g), nb, out, outlen).out
            == if |o| >= outlen then o else Decode(fill, src, j, 0, nb - |g|, o, outlen).out
    decreases |g|
  {
    hide PlayUntil, Rest, Decode, Expand, Flags, TokenBytes, TokenAt, Body, TokenSize, ValidTokens;
    FlagsUnfold(g);
    BodyUnfolds(g, post);
    PlayUntilUnfolds(fill, out, g, outlen);
    if |out| >= outlen {
      j := i + |Body(g)|;
      RestSkips(src, i, Body(g), post);
      DecodeFull(fill, src, i, Flags(g), nb, out, outlen);
    } else if g == [] {
      j := i;
    } else {
      var t, rest := g[0], g[1..];
      RestOfToken(src, i, t, Body(rest) + post);
      DecodeToken(fill, src, i, Flags(g), nb, out, outlen);
      j := DecodeGroup(fill, src, i + TokenSize(t.Lit?), rest, post, nb - 1, Expand(fill, out, t), outlen);
    }
  }

  lemma DecodeFull(fill: byte, src: seq<byte>, i: nat, fl: nat, nb: nat, out: seq<byte>, outlen: nat)
    requires i <= |src| && |out| >= outlen
    ensures Decode(fill, src, i, fl, nb, out, outlen).out == out
  {
  }

  lemma DecodeEnded(fill: byte, src: seq<byte>, i: nat, nb: nat, out: seq<byte>, outlen: nat)
    requires Rest(src, i, [])
    ensures Decode(fill, src, i, 0, nb, out, outlen).out == out
  {
  }

  lemma RestInside(src: seq<byte>, i: nat, s: seq<byte>)
    requires Rest(src, i, s)
    ensures i + |s| == |src|
  {
  }

  lemma NothingPacked()
    ensures Pack([]) == []
  {
  }

  lemma PackFirst(ts: seq<Token>, g: seq<Token>, rest: seq<Token>)
    requires ValidTokens(ts) && ts != [] && g == (if |ts| <= 8 then ts else ts[..8]) && rest == ts[|g|..]
    ensures ts == g + rest && ValidTokens(g) && ValidTokens(rest) && (rest == [] ==> Pack(rest) == [])
    ensures Pack(ts) == [FlagByte(g)] + (Body(g) + Pack(rest))
  {
    hide Flags, Body;
  }

  lemma {:induction false} DecodePacked(fill: byte, src: seq<byte>, i: nat, ts: seq<Token>, out: seq<byte>, outlen: nat)
    requires ValidTokens(ts) && Rest(src, i, Pack(ts))
    ensures Decode(fill, src, i, 0, 0, out, outlen).out == PlayUntil(fill, out, ts, outlen)
    decreases |ts|
  {
    hide Rest, Decode, Flags, Body, Pack, Expand, FlagByte, ValidTokens;
    RestInside(src, i, Pack(ts));
    if ts == [] {
      NothingPacked();
      DecodeEnded(fill, src, i, 0, out, outlen);
    } else if |out| < outlen {
      var (g, rest) := if |ts| <= 8 then (ts, []) else (ts[..8], ts[8..]);
      PackFirst(ts, g, rest);
      RestSkips(src, i, [FlagByte(g)], Body(g) + Pack(rest));
      assert src[i] == src[i..i + 1][0];
      PlayUntilConcat(fill, out, g, rest, outlen);
      DecodeFlag(fill, src, i, 0, out, outlen);
      var j := DecodeGroup(fill, src, i + 1, g, Pack(rest), 8, out, outlen);
      var o := PlayUntil(fill, out, g, outlen);
      if rest == [] {
        DecodeEnded(fill, src, j, 8 - |g|, o, outlen);
      } else {
        DecodePacked(fill, src, j, rest, o, outlen);
      }
    } else {
      DecodeFull(fill, src, i, 0, 0, out, outlen);
    }
  }

  /** Parsing undoes packing: decoding the stream of a token list plays exactly those tokens, in order,
      until the size asked for is reached. */
  lemma PackDecodes(fill: byte, ts: seq<Token>, outlen: nat)
    requires ValidTokens(ts)
    ensures DecodeAll(fill, Pack(ts), outlen).out == PlayUntil(fill, [], ts, outlen)
  {
    DecodePacked(fill, Pack(ts), 0, ts, [], outlen);
  }

  // ---- tokens that stand for data ---------------------------------------------------------------

  function TokenLen(t: Token): nat {
    if t.Lit? then 1 else t.len
  }

  /** Played after the first i bytes of data, t gives the next ones. */
  predicate Correct(fill: byte, data: seq<byte>, i: nat, t: Token) {
    i + TokenLen(t) <= |data| && Expand(fill, data[..i], t) == data[..i + TokenLen(t)]
  }

  /** The tokens cover data from i to its end. */
  predicate Covers(data: seq<byte>, i: nat, ts: seq<Token>)
    decreases |ts|
  {
    if ts == [] then i == |data|
    else ValidToken(ts[0]) && i + TokenLen(ts[0]) <= |data| && Covers(data, i + TokenLen(ts[0]), ts[1..])
  }

  predicate AllCorrect(fill: byte, data: seq<byte>, i: nat, ts: seq<Token>)
    decreases |ts|
  {
    ts == [] || (Correct(fill, data, i, ts[0]) && AllCorrect(fill, data, i + TokenLen(ts[0]), ts[1..]))
  }

  lemma {:induction false} CoversValid(data: seq<byte>, i: nat, ts: seq<Token>)
    requires Covers(data, i, ts)
    ensures ValidTokens(ts)
    decreases |ts|
  {
    if ts != [] { CoversValid(data, i + TokenLen(ts[0]), ts[1..]); }
  }

  /** Correct tokens play to a prefix of data that stops at the first token end at or after outlen. */
  lemma {:induction false} CorrectPlays(fill: byte, data: seq<byte>, i: nat, ts: seq<Token>, outlen: nat)
    returns (k: nat)
    requires Covers(data, i, ts) && i <= |data| && AllCorrect(fill, data, i, ts)
    ensures i <= k <= |data| && PlayUntil(fill, data[..i], ts, outlen) == data[..k]
    ensures Min(outlen, |data|) <= k && (i < outlen + F ==> k < outlen + F)
    decreases |ts|
  {
    if ts == [] || i >= outlen {
      k := i;
    } else {
      k := CorrectPlays(fill, data, i + TokenLen(ts[0]), ts[1..], outlen);
    }
  }

  lemma {:induction false} PlayUntilGrows(fill: byte, out: seq<byte>, ts: seq<Token>, outlen: nat)
    ensures out <= PlayUntil(fill, out, ts, outlen)
    decreases |ts|
  {
    if ts != [] && |out| < outlen {
      PlayUntilGrows(fill, Expand(fill, out, ts[0]), ts[1..], outlen);
    }
  }

  lemma {:induction false} PlayedRightMeansCorrect(fill: byte, data: seq<byte>, i: nat, ts: seq<Token>)
    requires Covers(data, i, ts) && i <= |data|
    requires PlayUntil(fill, data[..i], ts, |data|) == data
    ensures AllCorrect(fill, data, i, ts)
    decreases |ts|
  {
    if ts != [] {
      var e := Expand(fill, data[..i], ts[0]);
      assert |e| == i + TokenLen(ts[0]) && i < |data|;
      PlayUntilGrows(fill, e, ts[1..], |data|);
      assert e == data[..|e|];
      PlayedRightMeansCorrect(fill, data, i + TokenLen(ts[0]), ts[1..]);
    }
  }

  /** A covering token list decodes to the data exactly when each of its tokens is correct in place. */
  lemma DecodesIffAllCorrect(fill: byte, data: seq<byte>, ts: seq<Token>)
    requires Covers(data, 0, ts)
    ensures ValidTokens(ts)
    ensures DecodeAll(fill, Pack(ts), |data|).out == data <==> AllCorrect(fill, data, 0, ts)
  {
    CoversValid(data, 0, ts);
    PackDecodes(fill, ts, |data|);
    assert data[..0] == [];
    if AllCorrect(fill, data, 0, ts) {
      var k := CorrectPlays(fill, data, 0, ts, |data|);
    }
    if PlayUntil(fill, [], ts, |data|) == data {
      PlayedRightMeansCorrect(fill, data, 0, ts);
    }
  }

  // ---- references by distance -------------------------------------------------------------------

  /** data repeats itself d bytes back for len bytes from i on. */
  predicate Repeats(data: seq<byte>, i: nat, d: nat, len: nat) {
    1 <= d <= i && i + len <= |data| && forall k :: i <= k < i + len ==> data[k] == data[k - d]
  }

  /** The ring position d bytes behind the write position after n bytes. */
  function PosAt(n: nat, d: nat): (p: nat)
    ensures p < N
  {
    (WritePos(n) - d) % N
  }

  lemma AgeOfPos(n: nat, d: nat, k: nat)
    requires 1 <= d <= N
    ensures Age(n + k, (PosAt(n, d) + k) % N) == d
  {
    var w := N - F + n;
    PosIs(n, d);
    ModPlus(w - d, k);
    AgeIs(n + k, w - d + k, d);
  }

  lemma PosIs(n: nat, d: nat)
    ensures PosAt(n, d) == (N - F + n - d) % N
  {
    ModMinus(N - F + n, d);
  }

  lemma AgeIs(n: nat, v: int, d: nat)
    requires 1 <= d <= N && v + d == N - F + n
    ensures Age(n, v % N) == d
  {
    ModMinus'(v + d - 1, v);
  }

  lemma ModMinus(a: int, b: int)
    ensures (a % N - b) % N == (a - b) % N
  {
  }

  lemma ModPlus(a: int, b: int)
    ensures (a % N + b) % N == (a + b) % N
  {
  }

  lemma ModMinus'(a: int, b: int)
    ensures (a - b % N) % N == (a - b) % N
  {
  }

  /** Copying from d bytes back reproduces data that repeats with that distance, even when the copy
      reads bytes it has just written (len > d). */
  lemma {:induction false} CopyRepeats(fill: byte, data: seq<byte>, i: nat, d: nat, pos: nat, k: nat, len: nat)
    requires k <= len && Repeats(data, i, d, len) && d <= N && pos == PosAt(i, d)
    ensures Copy(fill, data[..i + k], pos + k, len - k) == data[..i + len]
    decreases len - k
  {
    if k < len {
      AgeOfPos(i, d, k);
      assert Cell(fill, data[..i + k], (pos + k) % N) == data[i + k];
      assert data[..i + k] + [data[i + k]] == data[..i + k + 1];
      CopyRepeats(fill, data, i, d, pos, k + 1, len);
    }
  }

  lemma RepeatsCorrect(fill: byte, data: seq<byte>, i: nat, d: nat, len: nat)
    requires Repeats(data, i, d, len) && d <= N
    ensures Correct(fill, data, i, Ref(PosAt(i, d), len))
  {
    CopyRepeats(fill, data, i, d, PosAt(i, d), 0, len);
    assert data[..i + 0] == data[..i];
  }
}
