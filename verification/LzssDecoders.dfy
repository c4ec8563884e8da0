/** The repository's three complzss decoders, each proved against the one reference decoder for every
    input stream, and what follows about how they differ. */
module LzssDecoders {
  import opened Bytes
  import opened LzssFormat

  const SPACE: byte := 32

  datatype DecodeError = IndexError

  function Truncate(s: seq<byte>, n: nat): (r: seq<byte>)
    ensures |r| == Min(|s|, n) && r <= s
  {
    if |s| <= n then s else s[..n]
  }

  /** fl & (1 << b) */
  predicate TestBit(fl: nat, b: nat) {
    fl / Pow2(b) % 2 == 1
  }

  lemma ShiftStep(fl: nat, b: nat)
    requires b < 8
    ensures fl / Pow2(b + 1) == fl / Pow2(b) / 2
  {
    assert Pow2(1) == 2 && Pow2(2) == 4 && Pow2(3) == 8 && Pow2(4) == 16;
    assert Pow2(5) == 32 && Pow2(6) == 64 && Pow2(7) == 128 && Pow2(8) == 256;
  }

  /** One ring cell to the output and back into the ring. */
  method Emit(ring: array<byte>, ghost fill: byte, r: nat, out: seq<byte>, c: byte) returns (r': nat, out': seq<byte>)
    requires RingHolds(ring[..], fill, out) && r == WritePos(|out|)
    modifies ring
    ensures out' == out + [c]
    ensures RingHolds(ring[..], fill, out') && r' == WritePos(|out'|)
  {
    RingStep(ring[..], fill, out, c);
    ghost var before := ring[..];
    ring[r] := c;
    assert ring[..] == before[r := c];
    r' := (r + 1) % N;
    out' := out + [c];
  }

  lemma RingCell(ring: seq<byte>, fill: byte, out: seq<byte>, x: nat)
    requires RingHolds(ring, fill, out) && x < N
    ensures |ring| == N && ring[x] == Cell(fill, out, x)
  {
  }

  /** The copy loop of a reference; it stops early when the output reaches limit. */
  method CopyFromRing(ring: array<byte>, ghost fill: byte, r: nat, out: seq<byte>, pos: nat, len: nat, limit: nat)
    returns (r': nat, out': seq<byte>)
    requires RingHolds(ring[..], fill, out) && r == WritePos(|out|) && |out| < limit
    modifies ring
    ensures out' == Truncate(Copy(fill, out, pos, len), limit)
    ensures RingHolds(ring[..], fill, out') && r' == WritePos(|out'|)
  {
    hide RingHolds, WritePos;
    r', out' := r, out;
    for k := 0 to len
      invariant RingHolds(ring[..], fill, out') && r' == WritePos(|out'|)
      invariant |out'| < limit
      invariant Copy(fill, out', pos + k, len - k) == Copy(fill, out, pos, len)
    {
      RingCell(ring[..], fill, out', (pos + k) % N);
      r', out' := Emit(ring, fill, r', out', ring[(pos + k) % N]);
      if |out'| >= limit {
        return;
      }
    }
  }

  /** The eight bit tests of one flag byte in repack2.de. */
  method DeGroup(ring: array<byte>, src: seq<byte>, fl: byte, i0: nat, r0: nat, o0: seq<byte>, outlen: nat)
    returns (i: nat, r: nat, o: seq<byte>)
    requires i0 <= |src|
    requires RingHolds(ring[..], SPACE, o0) && r0 == WritePos(|o0|)
    modifies ring
    ensures i0 <= i <= |src|
    ensures RingHolds(ring[..], SPACE, o) && r == WritePos(|o|)
    ensures Decode(SPACE, src, i, 0, 0, o, outlen).out == Decode(SPACE, src, i0, fl, 8, o0, outlen).out
  {
    hide Copy, RingHolds, WritePos;
    i, r, o := i0, r0, o0;
    ghost var goal := Decode(SPACE, src, i0, fl, 8, o0, outlen).out;
    for b := 0 to 8
      invariant i0 <= i <= |src|
      invariant RingHolds(ring[..], SPACE, o) && r == WritePos(|o|)
      invariant Decode(SPACE, src, i, fl / Pow2(b), 8 - b, o, outlen).out == goal
    {
      if |o| >= outlen || i >= |src| {
        break;
      }
      ShiftStep(fl, b);
      if TestBit(fl, b) {
        r, o := Emit(ring, SPACE, r, o, src[i]);
        i := i + 1;
      } else {
        if i + 1 >= |src| {
          break;
        }
        var t := RefAt(src, i);
        i := i + 2;
        r, o := CopyFromRing(ring, SPACE, r, o, t.pos, t.len, |o| + t.len + 1);
      }
    }
  }

  /** repack2.de: eight bit tests per flag byte, whole references, no truncation. */
  method De(src: seq<byte>, outlen: nat) returns (o: seq<byte>)
    ensures o == DecodeAll(SPACE, src, outlen).out
  {
    var ring := new byte[N](_ => SPACE);
    assert RingHolds(ring[..], SPACE, []);
    var r, i := N - F, 0;
    o := [];
    while i < |src| && |o| < outlen
      invariant i <= |src|
      invariant RingHolds(ring[..], SPACE, o) && r == WritePos(|o|)
      invariant Decode(SPACE, src, i, 0, 0, o, outlen).out == DecodeAll(SPACE, src, outlen).out
      decreases |src| - i
    {
      var fl := src[i];
      i := i + 1;
      i, r, o := DeGroup(ring, src, fl, i, r, o, outlen);
    }
  }

  function TokenSize(literal: bool): nat {
    if literal then 1 else 2
  }

  /** The literal or reference at input position i. */
  function TokenAt(src: seq<byte>, i: nat, literal: bool): Token
    requires i + TokenSize(literal) <= |src|
  {
    if literal then Lit(src[i]) else RefAt(src, i)
  }

  /** A flag byte is read when no flag bit is left. */
  lemma DecodeFlag(fill: byte, src: seq<byte>, i: nat, fl: nat, out: seq<byte>, outlen: nat)
    requires i < |src| && |out| < outlen
    ensures Decode(fill, src, i, fl, 0, out, outlen)
            == if i + 1 == |src| then Decoded(out, LoneFlag) else Decode(fill, src, i + 1, src[i], 8, out, outlen)
    ensures Decode(fill, src, i + 1, src[i], 8, out, outlen).out == Decode(fill, src, i, fl, 0, out, outlen).out
  {
  }

  lemma DecodeToken(fill: byte, src: seq<byte>, i: nat, fl: nat, nb: nat, out: seq<byte>, outlen: nat)
    requires i <= |src| && |out| < outlen && nb > 0
    ensures var size := TokenSize(fl % 2 == 1);
            if i + size > |src| then
              Decode(fill, src, i, fl, nb, out, outlen) == Decoded(out, if i == |src| then Ended else CutRef)
            else
              var out' := Expand(fill, out, TokenAt(src, i, fl % 2 == 1));
              Decode(fill, src, i, fl, nb, out, outlen) == Decode(fill, src, i + size, fl / 2, nb - 1, out', outlen) &&
              (|out'| >= outlen ==> Decode(fill, src, i, fl, nb, out, outlen).out == out')
  {
    hide Copy, RefAt;
  }

  /** Enough output, or no input. */
  lemma DecodeEnds(fill: byte, src: seq<byte>, i: nat, fl: nat, nb: nat, out: seq<byte>, outlen: nat)
    requires i <= |src|
    ensures |out| >= outlen ==> Decode(fill, src, i, fl, nb, out, outlen) == Decoded(out, Full)
    ensures |out| < outlen && i == |src| ==> Decode(fill, src, i, fl, nb, out, outlen) == Decoded(out, Ended)
  {
  }

  /** One literal or reference of fix_adler32.lzss_decompress; cut when the input ends inside it. */
  method DecompressToken(ring: array<byte>, data: seq<byte>, src0: nat, literal: bool, r0: nat, out0: seq<byte>,
        limit: nat)
    returns (cut: bool, src: nat, r: nat, out: seq<byte>)
    requires src0 <= |data| && |out0| < limit
    requires RingHolds(ring[..], SPACE, out0) && r0 == WritePos(|out0|)
    modifies ring
    ensures RingHolds(ring[..], SPACE, out) && r == WritePos(|out|)
    ensures cut <==> src0 + TokenSize(literal) > |data|
    ensures cut ==> out == out0
    ensures !cut ==> src == src0 + TokenSize(literal)
    ensures !cut ==> out == Truncate(Expand(SPACE, out0, TokenAt(data, src0, literal)), limit)
  {
    cut, src, r, out := false, src0, r0, out0;
    if literal {
      if src >= |data| {
        return true, src, r, out;
      }
      r, out := Emit(ring, SPACE, r, out, data[src]);
      src := src + 1;
    } else {
      if src + 1 >= |data| {
        return true, src, r, out;
      }
      var t := RefAt(data, src);
      src := src + 2;
      r, out := CopyFromRing(ring, SPACE, r, out, t.pos, t.len, limit);
    }
  }

  /** fix_adler32.lzss_decompress: a counter of flag bits left, references cut at the expected size. */
  method LzssDecompress(data: seq<byte>, expectedSize: nat) returns (out: seq<byte>)
    ensures out == Truncate(DecodeAll(SPACE, data, expectedSize).out, expectedSize)
  {
    hide RingHolds, Expand, Decode, WritePos;
    var ring := new byte[N](_ => SPACE);
    RingStarts(ring[..], SPACE);
    var r, src, flags: nat, flagBits := N - F, 0, 0, 0;
    var cut: bool;
    out := [];
    ghost var goal := DecodeAll(SPACE, data, expectedSize).out;
    DecodeEnds(SPACE, data, 0, 0, 0, [], expectedSize);
    while src < |data| && |out| < expectedSize
      invariant src <= |data| && 0 <= flagBits <= 8 && |out| <= expectedSize
      invariant RingHolds(ring[..], SPACE, out) && r == WritePos(|out|)
      invariant |out| < expectedSize ==> Decode(SPACE, data, src, flags, flagBits, out, expectedSize).out == goal
      invariant |out| == expectedSize ==> out == Truncate(goal, expectedSize)
      decreases |data| - src
    {
      if flagBits == 0 {
        DecodeFlag(SPACE, data, src, flags, out, expectedSize);
        flags, src, flagBits := data[src], src + 1, 8;
      }
      DecodeToken(SPACE, data, src, flags, flagBits, out, expectedSize);
      cut, src, r, out := DecompressToken(ring, data, src, flags % 2 == 1, r, out, expectedSize);
      if cut {
        break;
      }
      flags, flagBits := flags / 2, flagBits - 1;
    }
    if src == |data| { DecodeEnds(SPACE, data, src, flags, flagBits, out, expectedSize); }
  }

  /** The flag word of extract-sgx-firmware.lzss, already shifted, when nb bits of fl are left: the bits
      above them are the 0xFF00 sentinel, so bit 8 is set exactly while a flag bit remains. */
  predicate Sentinel(word: nat, fl: nat, nb: nat) {
    nb <= 8 && fl < Pow2(nb) && (word == fl + 255 * Pow2(nb) || (word == 0 && nb == 0))
  }

  lemma SentinelReload(c: byte)
    ensures Sentinel(c as int + 0xFF00, c, 8)
  {
    assert Pow2(8) == 256;
  }

  lemma SentinelBit(word: nat, fl: nat, nb: nat)
    requires Sentinel(word, fl, nb)
    ensures TestBit(word, 8) <==> nb > 0
    ensures nb > 0 ==> word % 2 == fl % 2 && Sentinel(word / 2, fl / 2, nb - 1)
  {
    assert Pow2(1) == 2 && Pow2(2) == 4 && Pow2(3) == 8 && Pow2(4) == 16;
    assert Pow2(5) == 32 && Pow2(6) == 64 && Pow2(7) == 128 && Pow2(8) == 256;
    if nb == 0 {} else if nb == 1 {} else if nb == 2 {} else if nb == 3 {} else if nb == 4 {}
    else if nb == 5 {} else if nb == 6 {} else if nb == 7 {} else {}
  }

  /** The flag word shifted, and loaded again when its sentinel has come down. */
  method NextFlag(flags0: nat, comp: seq<byte>, si0: nat, ghost fl0: nat, ghost nb0: nat)
    returns (flags: nat, si: nat, ghost fl: nat, ghost nb: nat)
    requires Sentinel(flags0 / 2, fl0, nb0) && si0 < |comp|
    ensures nb > 0 && flags % 2 == fl % 2 && Sentinel(flags / 2, fl / 2, nb - 1)
    ensures if nb0 > 0 then si == si0 && fl == fl0 && nb == nb0 else si == si0 + 1 && fl == comp[si0] && nb == 8
  {
    hide Sentinel;
    flags, si, fl, nb := flags0 / 2, si0, fl0, nb0;
    SentinelBit(flags, fl, nb);
    if !TestBit(flags, 8) {
      flags := comp[si] as int + 0xFF00;
      fl, nb := comp[si], 8;
      si := si + 1;
      SentinelReload(fl);
      SentinelBit(flags, fl, nb);
    }
  }

  /** extract-sgx-firmware.lzss: zero-filled ring, a 0xFF00 sentinel above the flag bits, the output cut
      at the end. A literal flag in a last lone flag byte indexes past the input. */
  method Lzss(comp: seq<byte>, outlen: nat) returns (res: Result<seq<byte>, DecodeError>)
    ensures var d := DecodeAll(0, comp, outlen);
            res == if d.stop == LoneFlag && comp[|comp| - 1] % 2 == 1 then Err(IndexError)
                   else Ok(Truncate(d.out, outlen))
  {
    hide RingHolds, WritePos, Copy, Sentinel, Decode;
    var text := new byte[N](_ => 0);
    RingStarts(text[..], 0);
    NoFlagsYet();
    var r, si, flags: nat := N - F, 0, 0;
    var out: seq<byte> := [];
    ghost var fl: nat, nb: nat := 0, 0;
    ghost var d := DecodeAll(0, comp, outlen);
    while |out| < outlen && si < |comp|
      invariant si <= |comp|
      invariant RingHolds(text[..], 0, out) && r == WritePos(|out|)
      invariant Sentinel(flags / 2, fl, nb)
      invariant Decode(0, comp, si, fl, nb, out, outlen) == d
      decreases |comp| - si
    {
      DecodeFlag(0, comp, si, fl, out, outlen);
      flags, si, fl, nb := NextFlag(flags, comp, si, fl, nb);
      DecodeToken(0, comp, si, fl, nb, out, outlen);
      if flags % 2 == 1 {
        if si >= |comp| {
          return Err(IndexError);
        }
        r, out := Emit(text, 0, r, out, comp[si]);
        si := si + 1;
      } else {
        if si + 1 >= |comp| {
          break;
        }
        var t := RefAt(comp, si);
        si := si + 2;
        r, out := CopyFromRing(text, 0, r, out, t.pos, t.len, |out| + t.len + 1);
      }
      fl, nb := fl / 2, nb - 1;
    }
    DecodeEnds(0, comp, si, fl, nb, out, outlen);
    res := Ok(Truncate(out, outlen));
  }

  lemma RingStarts(ring: seq<byte>, fill: byte)
    requires |ring| == N && forall x :: 0 <= x < N ==> ring[x] == fill
    ensures RingHolds(ring, fill, []) && WritePos(0) == N - F
  {
  }

  lemma NoFlagsYet()
    ensures Sentinel(0, 0, 0)
  {
  }

  // ---- the ring's first contents ----------------------------------------------------------------

  /** No byte of a copy comes from a cell that nothing was written to yet. */
  predicate CleanCopy(n: nat, pos: nat, len: nat)
    decreases len
  {
    len == 0 || (Age(n, pos % N) <= n && CleanCopy(n + 1, pos + 1, len - 1))
  }

  /** The same for every reference a decoder follows, n bytes being already out. */
  predicate Clean(src: seq<byte>, i: nat, fl: nat, nb: nat, n: nat, outlen: nat)
    requires i <= |src|
    decreases |src| - i
  {
    if n >= outlen || i == |src| then true
    else if nb == 0 then
      i + 1 == |src| || Clean(src, i + 1, src[i], 8, n, outlen)
    else if fl % 2 == 1 then
      Clean(src, i + 1, fl / 2, nb - 1, n + 1, outlen)
    else
      i + 1 == |src| ||
      (var t := RefAt(src, i);
       CleanCopy(n, t.pos, t.len) && Clean(src, i + 2, fl / 2, nb - 1, n + t.len, outlen))
  }

  lemma {:induction false} CopyFillIrrelevant(f: byte, g: byte, a: seq<byte>, b: seq<byte>, pos: nat, len: nat)
    requires f != g && |a| == |b|
    ensures Copy(f, a, pos, len) == Copy(g, b, pos, len) <==> a == b && CleanCopy(|a|, pos, len)
    decreases len
  {
    if len > 0 {
      var x := pos % N;
      var a', b' := a + [Cell(f, a, x)], b + [Cell(g, b, x)];
      CopyFillIrrelevant(f, g, a', b', pos + 1, len - 1);
      assert a'[..|a|] == a && b'[..|b|] == b;
    }
  }

  lemma {:induction false} FillIrrelevant(f: byte, g: byte, src: seq<byte>, i: nat, fl: nat, nb: nat,
                                          a: seq<byte>, b: seq<byte>, outlen: nat)
    requires f != g && i <= |src| && |a| == |b|
    ensures var x, y := Decode(f, src, i, fl, nb, a, outlen), Decode(g, src, i, fl, nb, b, outlen);
            x.stop == y.stop && |x.out| == |y.out| &&
            (x.out == y.out <==> a == b && Clean(src, i, fl, nb, |a|, outlen))
    decreases |src| - i
  {
    hide Copy, CleanCopy, RefAt;
    if |a| >= outlen || i == |src| {
    } else if nb == 0 {
      if i + 1 < |src| { FillIrrelevant(f, g, src, i + 1, src[i], 8, a, b, outlen); }
    } else if fl % 2 == 1 {
      FillIrrelevant(f, g, src, i + 1, fl / 2, nb - 1, a + [src[i]], b + [src[i]], outlen);
      assert a + [src[i]] == b + [src[i]] <==> a == b by {
        assert (a + [src[i]])[..|a|] == a && (b + [src[i]])[..|b|] == b;
      }
    } else if i + 1 < |src| {
      var t := RefAt(src, i);
      CopyFillIrrelevant(f, g, a, b, t.pos, t.len);
      FillIrrelevant(f, g, src, i + 2, fl / 2, nb - 1, Expand(f, a, t), Expand(g, b, t), outlen);
    }
  }

  /** What a ring starts with shows in the output exactly when some followed reference reads a cell
      nothing was written to; the number of bytes and the way decoding ends never depend on it. */
  lemma RingFillShowsIffUnclean(f: byte, g: byte, src: seq<byte>, outlen: nat)
    requires f != g
    ensures var x, y := DecodeAll(f, src, outlen), DecodeAll(g, src, outlen);
            x.stop == y.stop && |x.out| == |y.out| && (x.out == y.out <==> Clean(src, 0, 0, 0, 0, outlen))
  {
    FillIrrelevant(f, g, src, 0, 0, 0, [], [], outlen);
  }

  /** A decoder never runs more than one reference past the size asked for. */
  lemma {:induction false} DecodeOvershoot(f: byte, src: seq<byte>, i: nat, fl: nat, nb: nat, out: seq<byte>,
        outlen: nat)
    requires i <= |src| && |out| < outlen + F
    ensures var d := Decode(f, src, i, fl, nb, out, outlen);
            |d.out| < outlen + F && (d.stop == Full <==> |d.out| >= outlen)
    decreases |src| - i
  {
    if |out| >= outlen || i == |src| {
    } else if nb == 0 {
      if i + 1 < |src| { DecodeOvershoot(f, src, i + 1, src[i], 8, out, outlen); }
    } else if fl % 2 == 1 {
      DecodeOvershoot(f, src, i + 1, fl / 2, nb - 1, out + [src[i]], outlen);
    } else if i + 1 < |src| {
      DecodeOvershoot(f, src, i + 2, fl / 2, nb - 1, Expand(f, out, RefAt(src, i)), outlen);
    }
  }
}
