/** The round trip of lzss_ok.compress through each of the three decoders. */
module LzssRoundTrip {
  import opened Bytes
  import opened LzssFormat
  import opened LzssDecoders
  import opened LzssStream
  import opened LzssEncoder

  /** Greedy tokens cover the data and each is right in place, whatever the ring started with. */
  lemma {:induction false} GreedyCorrect(fill: byte, data: seq<byte>, i: nat)
    requires i <= |data|
    ensures Covers(data, i, Greedy(data, i)) && AllCorrect(fill, data, i, Greedy(data, i))
    decreases |data| - i
  {
    hide Greedy, GreedyToken, Correct;
    if i < |data| {
      var t := GreedyToken(data, i);
      var next := i + TokenLen(t);
      GreedyUnfolds(data, i);
      GreedyTokenCorrect(fill, data, i);
      GreedyCorrect(fill, data, next);
      TokenFirst(fill, data, i, t, Greedy(data, next));
    } else {
      GreedyEnds(data);
    }
  }

  lemma GreedyEnds(data: seq<byte>)
    ensures Greedy(data, |data|) == []
  {
  }

  lemma TokenFirst(fill: byte, data: seq<byte>, i: nat, t: Token, rest: seq<Token>)
    requires Correct(fill, data, i, t) && ValidToken(t) && i + TokenLen(t) <= |data|
    requires Covers(data, i + TokenLen(t), rest) && AllCorrect(fill, data, i + TokenLen(t), rest)
    ensures Covers(data, i, [t] + rest) && AllCorrect(fill, data, i, [t] + rest)
  {
    hide Correct;
    assert ([t] + rest)[0] == t && ([t] + rest)[1..] == rest;
  }

  lemma GreedyTokenCorrect(fill: byte, data: seq<byte>, i: nat)
    requires i < |data|
    ensures Correct(fill, data, i, GreedyToken(data, i))
  {
    var b := BestMatch(data, i);
    BestMatchRepeats(data, i);
    hide BestMatch;
    if b.len >= THR + 1 {
      RepeatsCorrect(fill, data, i, b.d, b.len);
    } else {
      assert data[..i] + [data[i]] == data[..i + 1];
    }
  }

  /** Decoding the compressed stream with any size gives a prefix of the data: all of it when the size
      is at least the data's, otherwise at least the bytes asked for and less than 18 more. */
  lemma CompressedDecodes(fill: byte, data: seq<byte>, outlen: nat) returns (k: nat)
    ensures Min(outlen, |data|) <= k <= |data| && k < outlen + F
    ensures DecodeAll(fill, Pack(Greedy(data, 0)), outlen).out == data[..k]
  {
    GreedyCorrect(fill, data, 0);
    var ts := Greedy(data, 0);
    hide Greedy;
    PackDecodes(fill, ts, outlen);
    k := CorrectPlays(fill, data, 0, ts, outlen);
    assert data[..0] == [];
  }

  lemma RoundTrip(fill: byte, data: seq<byte>)
    ensures DecodeAll(fill, Pack(Greedy(data, 0)), |data|) == Decoded(data, Full)
  {
    var k := CompressedDecodes(fill, data, |data|);
    assert data[..k] == data;
    DecodeOvershoot(fill, Pack(Greedy(data, 0)), 0, 0, 0, [], |data|);
  }

  /** No emitted reference reads a cell nothing was written to: the streams decode alike from rings
      with different first contents. */
  lemma CompressedIsClean(data: seq<byte>)
    ensures Clean(Pack(Greedy(data, 0)), 0, 0, 0, 0, |data|)
  {
    RoundTrip(0, data);
    RoundTrip(SPACE, data);
    RingFillShowsIffUnclean(0, SPACE, Pack(Greedy(data, 0)), |data|);
  }

  /** repack2's own check, which can never fail, and the two other decoders on the same stream. */
  method CompressAndCheck(data: seq<byte>)
    returns (comp: seq<byte>, back: seq<byte>, viaAttic: seq<byte>, viaSgx: Result<seq<byte>, DecodeError>)
    ensures comp == Pack(Greedy(data, 0))
    ensures back == data && viaAttic == data && viaSgx == Ok(data)
  {
    comp := Compress(data);
    back := De(comp, |data|);
    viaAttic := LzssDecompress(comp, |data|);
    viaSgx := Lzss(comp, |data|);
    RoundTrip(SPACE, data);
    RoundTrip(0, data);
  }

  // ---- how large the stream can get -------------------------------------------------------------

  lemma {:induction false} BodySize(data: seq<byte>, i: nat, ts: seq<Token>)
    requires Covers(data, i, ts) && i <= |data|
    ensures ValidTokens(ts) && |Body(ts)| <= |data| - i && |ts| <= |data| - i
    decreases |ts|
  {
    if ts != [] { BodySize(data, i + TokenLen(ts[0]), ts[1..]); }
  }

  lemma {:induction false} PackSize(ts: seq<Token>)
    requires ValidTokens(ts)
    ensures |Pack(ts)| == |Body(ts)| + (|ts| + 7) / 8
    decreases |ts|
  {
    if |ts| > 8 {
      PackSize(ts[8..]);
      BodyConcat(ts[..8], ts[8..]);
      assert ts[..8] + ts[8..] == ts;
    }
  }

  lemma {:induction false} BodyConcat(a: seq<Token>, b: seq<Token>)
    requires ValidTokens(a) && ValidTokens(b)
    ensures ValidTokens(a + b) && Body(a + b) == Body(a) + Body(b)
    decreases |a|
  {
    hide TokenBytes;
    if a == [] {
      assert a + b == b;
    } else {
      assert (a + b)[0] == a[0] && (a + b)[1..] == a[1..] + b;
      BodyConcat(a[1..], b);
    }
  }

  /** Compression never costs more than one flag byte for every eight bytes of data. */
  lemma CompressedSize(data: seq<byte>)
    ensures |Pack(Greedy(data, 0))| <= |data| + (|data| + 7) / 8
  {
    GreedyCorrect(0, data, 0);
    BodySize(data, 0, Greedy(data, 0));
    PackSize(Greedy(data, 0));
  }
}
