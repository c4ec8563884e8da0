/** The ADC stream that rootfs-extract.py's adc decodes, told by what may be written into it. */
module AdcTokens {
  import opened Bytes
  import opened ImageReaders
  import opened DmgReaders

  /** Bytes to copy, or a reference with one of two ranges of length and distance. */
  datatype AdcToken = Plain(bytes: seq<byte>) | Short(len: nat, dist: nat) | Long(len: nat, dist: nat)

  predicate ValidAdc(t: AdcToken) {
    match t
    case Plain(b) => 1 <= |b| <= 128
    case Short(len, dist) => 3 <= len <= 18 && 1 <= dist <= 1024
    case Long(len, dist) => 4 <= len <= 67 && 1 <= dist <= 65536
  }

  function AdcBytes(t: AdcToken): seq<byte>
    requires ValidAdc(t)
  {
    match t
    case Plain(b) => [127 + |b|] + b
    case Short(len, dist) => [4 * (len - 3) + (dist - 1) / 256, (dist - 1) % 256]
    case Long(len, dist) => [64 + (len - 4), (dist - 1) / 256, (dist - 1) % 256]
  }

  predicate AllValid(ts: seq<AdcToken>) {
    forall t :: t in ts ==> ValidAdc(t)
  }

  function AdcStream(ts: seq<AdcToken>): seq<byte>
    requires AllValid(ts)
  {
    if ts == [] then [] else AdcBytes(ts[0]) + AdcStream(ts[1..])
  }

  /** What the tokens say, until there is enough; a reference from before the output is an error. */
  function Said(ts: seq<AdcToken>, out: seq<byte>, outlen: nat): Bits
    decreases |ts|
  {
    if ts == [] || |out| >= outlen then Ok(out)
    else
      match ts[0]
      case Plain(b) => Said(ts[1..], out + b, outlen)
      case Short(len, dist) =>
        if 1 <= dist <= |out| then Said(ts[1..], CopyBack(out, len, dist), outlen) else Err(IndexError)
      case Long(len, dist) =>
        if 1 <= dist <= |out| then Said(ts[1..], CopyBack(out, len, dist), outlen) else Err(IndexError)
  }

  lemma PlainReads(data: seq<byte>, i: nat, b: seq<byte>, out: seq<byte>, outlen: nat)
    requires 1 <= |b| <= 128 && |out| < outlen && i + 1 + |b| <= |data|
    requires data[i] == 127 + |b| && data[i + 1..i + 1 + |b|] == b
    ensures Adc(data, i, out, outlen) == Adc(data, i + 1 + |b|, out + b, outlen)
  {
    assert Slice(data, i + 1, i + 1 + |b|) == b;
    hide Slice;
  }

  lemma ShortReads(data: seq<byte>, i: nat, len: nat, dist: nat, out: seq<byte>, outlen: nat)
    requires ValidAdc(Short(len, dist)) && |out| < outlen && i + 2 <= |data|
    requires data[i..i + 2] == AdcBytes(Short(len, dist))
    ensures Adc(data, i, out, outlen)
            == if dist > |out| then Err(IndexError) else Adc(data, i + 2, CopyBack(out, len, dist), outlen)
  {
    var b0: int, b1: int := data[i..i + 2][0], data[i..i + 2][1];
    assert data[i] == b0 && data[i + 1] == b1;
    assert b0 / 4 + 3 == len && b0 % 4 * 256 + b1 + 1 == dist;
    hide CopyBack;
  }

  lemma LongReads(data: seq<byte>, i: nat, len: nat, dist: nat, out: seq<byte>, outlen: nat)
    requires ValidAdc(Long(len, dist)) && |out| < outlen && i + 3 <= |data|
    requires data[i..i + 3] == AdcBytes(Long(len, dist))
    ensures Adc(data, i, out, outlen)
            == if dist > |out| then Err(IndexError) else Adc(data, i + 3, CopyBack(out, len, dist), outlen)
  {
    var b1: int, b2: int := data[i..i + 3][1], data[i..i + 3][2];
    assert data[i] == data[i..i + 3][0] && data[i + 1] == b1 && data[i + 2] == b2;
    assert b1 * 256 + b2 + 1 == dist;
    hide CopyBack;
  }

  lemma TokenReads(data: seq<byte>, i: nat, t: AdcToken, out: seq<byte>, outlen: nat)
    requires ValidAdc(t) && |out| < outlen
    requires i + |AdcBytes(t)| <= |data| && data[i..i + |AdcBytes(t)|] == AdcBytes(t)
    ensures var next := i + |AdcBytes(t)|;
            Adc(data, i, out, outlen)
            == match t
               case Plain(b) => Adc(data, next, out + b, outlen)
               case Short(len, dist) =>
                 if dist > |out| then Err(IndexError) else Adc(data, next, CopyBack(out, len, dist), outlen)
               case Long(len, dist) =>
                 if dist > |out| then Err(IndexError) else Adc(data, next, CopyBack(out, len, dist), outlen)
  {
    hide Adc, CopyBack;
    match t
    case Plain(b) =>
      var s := data[i..i + 1 + |b|];
      assert data[i] == s[0] && data[i + 1..i + 1 + |b|] == s[1..] == b;
      PlainReads(data, i, b, out, outlen);
    case Short(len, dist) => ShortReads(data, i, len, dist, out, outlen);
    case Long(len, dist) => LongReads(data, i, len, dist, out, outlen);
  }

  /** Whatever tokens a stream holds, it decodes to what they say, wherever it starts and whatever was decoded
      before. */
  lemma {:induction false} AdcRoundTrip(data: seq<byte>, i: nat, ts: seq<AdcToken>, out: seq<byte>, outlen: nat)
    requires AllValid(ts) && Rest(data, i, AdcStream(ts))
    ensures Adc(data, i, out, outlen) == Said(ts, out, outlen)
    decreases |ts|
  {
    hide AdcBytes, ValidAdc, CopyBack;
    if ts == [] || |out| >= outlen {
      StreamOver(data, i, ts, out, outlen);
    } else {
      hide Adc;
      var t := ts[0];
      assert t in ts && AllValid(ts[1..]);
      RestSkips(data, i, AdcBytes(t), AdcStream(ts[1..]));
      TokenReads(data, i, t, out, outlen);
      var next := i + |AdcBytes(t)|;
      match t
      case Plain(b) => AdcRoundTrip(data, next, ts[1..], out + b, outlen);
      case Short(len, dist) =>
        ValidDistance(t);
        if dist <= |out| { AdcRoundTrip(data, next, ts[1..], CopyBack(out, len, dist), outlen); }
      case Long(len, dist) =>
        ValidDistance(t);
        if dist <= |out| { AdcRoundTrip(data, next, ts[1..], CopyBack(out, len, dist), outlen); }
    }
  }

  lemma ValidDistance(t: AdcToken)
    requires ValidAdc(t) && !t.Plain?
    ensures 1 <= t.dist
  {
  }

  lemma StreamOver(data: seq<byte>, i: nat, ts: seq<AdcToken>, out: seq<byte>, outlen: nat)
    requires AllValid(ts) && Rest(data, i, AdcStream(ts)) && (ts == [] || |out| >= outlen)
    ensures Adc(data, i, out, outlen) == Ok(out)
  {
    hide AdcBytes;
  }
}
