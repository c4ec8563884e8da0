/** rootfs-extract.py, the lower layer: the encrypted wrapper and the plain file, as one flat image. */
module ImageReaders {
  import opened Bytes

  datatype ReadError =
    | PastLastChunk
    | BeforeFirstChunk
    | GapBetweenChunks
    | UnhandledKind
    | DecompressFailed
    | IndexError
    | CipherError
    | StructError
    | NeverEnds

  type Bits = Result<seq<byte>, ReadError>

  lemma DivModUnique(p: nat, b: nat, q: nat, r: nat)
    requires 0 <= r < b && p == q * b + r
    ensures p / b == q && p % b == r
  {
    assert (p / b - q) * b == r - p % b;
    SmallMultiple(p / b - q, b);
  }

  lemma SmallMultiple(x: int, b: int)
    requires 0 - b < x * b < b
    ensures x == 0
  {
    assert x >= 1 ==> x * b >= b;
    assert x <= -1 ==> x * b <= 0 - b;
  }

  /** Positions j further on in the same block. */
  lemma SameBlock(p: nat, b: nat, j: nat)
    requires b > 0 && p % b + j < b
    ensures (p + j) / b == p / b && (p + j) % b == p % b + j
  {
    DivModUnique(p + j, b, p / b, p % b + j);
  }

  /** One value per position, taken one by one; the first failure is the result. This is the simple
      form every chunked reader below is proved equal to. */
  function Gather(at: nat -> Result<byte, ReadError>, off: nat, n: nat): (r: Bits)
    ensures r.Ok? ==> |r.value| == n
    decreases n
  {
    if n == 0 then Ok([])
    else
      match at(off)
      case Err(e) => Err(e)
      case Ok(b) =>
        match Gather(at, off + 1, n - 1)
        case Err(e) => Err(e)
        case Ok(s) => Ok([b] + s)
  }

  lemma {:induction false} GatherIsSlice(at: nat -> Result<byte, ReadError>, off: nat, n: nat, s: seq<byte>)
    requires |s| == n && forall k :: 0 <= k < n ==> at(off + k) == Ok(s[k])
    ensures Gather(at, off, n) == Ok(s)
    decreases n
  {
    if n > 0 {
      assert at(off + 0) == Ok(s[0]);
      forall k | 0 <= k < n - 1 ensures at(off + 1 + k) == Ok(s[1..][k]) {
        assert at(off + (k + 1)) == Ok(s[k + 1]);
      }
      GatherIsSlice(at, off + 1, n - 1, s[1..]);
      assert [s[0]] + s[1..] == s;
    }
  }

  lemma {:induction false} GatherSplits(at: nat -> Result<byte, ReadError>, off: nat, m: nat, n: nat)
    requires m <= n && Gather(at, off, m).Ok?
    ensures match Gather(at, off + m, n - m)
            case Err(e) => Gather(at, off, n) == Err(e)
            case Ok(s) => Gather(at, off, n) == Ok(Gather(at, off, m).value + s)
    decreases m
  {
    if m > 0 {
      GatherSplits(at, off + 1, m - 1, n - 1);
      var rest := Gather(at, off + m, n - m);
      var head := Gather(at, off + 1, m - 1);
      if rest.Ok? && head.Ok? {
        assert [at(off).value] + head.value + rest.value == [at(off).value] + (head.value + rest.value);
      }
    } else {
      var rest := Gather(at, off, n);
      if rest.Ok? { assert [] + rest.value == rest.value; }
    }
  }

  lemma GatherFailsAtFirst(at: nat -> Result<byte, ReadError>, off: nat, n: nat)
    requires n > 0 && at(off).Err?
    ensures Gather(at, off, n) == Err(at(off).error)
  {
  }

  /** An error is that of one of the positions. */
  lemma {:induction false} GatherErrors(at: nat -> Result<byte, ReadError>, off: nat, n: nat)
    ensures Gather(at, off, n).Err? ==> exists p :: off <= p < off + n && at(p) == Err(Gather(at, off, n).error)
    decreases n
  {
    if n > 0 {
      GatherErrors(at, off + 1, n - 1);
    }
  }

  lemma {:induction false} GatherIff(at: nat -> Result<byte, ReadError>, off: nat, n: nat)
    ensures Gather(at, off, n).Ok? <==> forall p :: off <= p < off + n ==> at(p).Ok?
    ensures forall p: nat :: off <= p < off + n && at(p).Err? && (forall q :: off <= q < p ==> at(q).Ok?) ==>
              Gather(at, off, n) == Err(at(p).error)
    decreases n
  {
    if n > 0 { GatherIff(at, off + 1, n - 1); }
  }

  /** What the pieces read so far say about the whole read. */
  ghost predicate Sofar(at: nat -> Result<byte, ReadError>, off0: nat, n0: nat, out: seq<byte>, off: nat, n: nat) {
    && off == off0 + |out| && n == n0 - |out|
    && Gather(at, off0, |out|) == Ok(out)
  }

  lemma SofarStart(at: nat -> Result<byte, ReadError>, off: nat, n: nat)
    ensures Sofar(at, off, n, [], off, n)
  {
  }

  lemma SofarStep(at: nat -> Result<byte, ReadError>, off0: nat, n0: nat, out: seq<byte>, off: nat, n: nat,
        piece: seq<byte>)
    requires Sofar(at, off0, n0, out, off, n) && |piece| <= n
    requires forall k :: 0 <= k < |piece| ==> at(off + k) == Ok(piece[k])
    ensures Sofar(at, off0, n0, out + piece, off + |piece|, n - |piece|)
  {
    GatherIsSlice(at, off, |piece|, piece);
    GatherSplits(at, off0, |out|, |out| + |piece|);
  }

  lemma SofarEnds(at: nat -> Result<byte, ReadError>, off0: nat, n0: nat, out: seq<byte>, off: nat)
    requires Sofar(at, off0, n0, out, off, 0)
    ensures Gather(at, off0, n0) == Ok(out)
  {
  }

  lemma SofarFails(at: nat -> Result<byte, ReadError>, off0: nat, n0: nat, out: seq<byte>, off: nat, n: nat)
    requires Sofar(at, off0, n0, out, off, n) && n > 0 && at(off).Err?
    ensures Gather(at, off0, n0) == Err(at(off).error)
  {
    GatherFailsAtFirst(at, off, n);
    GatherSplits(at, off0, |out|, n0);
  }

  // ---- the encrypted wrapper --------------------------------------------------------------------

  /** Encrcdsa: fixed-size chunks, each decrypted with its number. The cipher is a parameter: all that
      is used of it is that it keeps lengths. */
  class Encrcdsa {
    const file: seq<byte>
    const bs: nat
    const size: nat
    const base: nat
    const decrypt: (nat, seq<byte>) -> seq<byte>
    var cache: map<nat, seq<byte>>

    constructor (file: seq<byte>, bs: nat, size: nat, base: nat, decrypt: (nat, seq<byte>) -> seq<byte>)
      requires bs > 0 && forall n, ct :: |decrypt(n, ct)| == |ct|
      ensures Valid()
      ensures this.file == file && this.bs == bs && this.size == size && this.base == base && this.decrypt == decrypt
    {
      this.file, this.bs, this.size, this.base, this.decrypt := file, bs, size, base, decrypt;
      cache := map[];
    }

    function Ciphertext(n: nat): seq<byte> {
      Slice(file, base + n * bs, base + n * bs + bs)
    }

    function ChunkOf(n: nat): seq<byte> {
      decrypt(n, Ciphertext(n))
    }

    /** Chunk n as chunk() gives it: its number has to fit the four bytes the cipher is keyed with, and the cipher
        wants whole blocks of 16 bytes. */
    function ChunkData(n: nat): Bits {
      if !Fits32(n) then Err(StructError)
      else if |Ciphertext(n)| % 16 != 0 then Err(CipherError)
      else Ok(ChunkOf(n))
    }

    ghost predicate Shape() {
      bs > 0 && forall n, ct :: |decrypt(n, ct)| == |ct|
    }

    /** Every cached chunk is what decrypting it again would give, and there are at most 257. */
    ghost predicate Valid()
      reads this
    {
      Shape() && |cache| <= 257 && forall n :: n in cache ==> ChunkData(n) == Ok(cache[n])
    }

    /** The byte at position p of the image: its chunk decrypted, at its place in the chunk. */
    function ByteAt(p: nat): Result<byte, ReadError>
    {
      if bs == 0 then Err(PastLastChunk)
      else
        match ChunkData(p / bs)
        case Err(e) => Err(e)
        case Ok(c) => if p % bs < |c| then Ok(c[p % bs]) else Err(PastLastChunk)
    }

    /** How many bytes a read at off can give. */
    function Length(off: nat, n: int): (m: nat)
      ensures m <= Max(n, 0)
    {
      Max(0, Min(n, size - off))
    }

    function At(): nat -> Result<byte, ReadError> {
      p => ByteAt(p)
    }

    function ReadSpec(off: nat, n: int): Bits {
      Gather(At(), off, Length(off, n))
    }

    method Chunk(n: nat) returns (c: Bits)
      requires Valid()
      modifies this
      ensures Valid() && c == ChunkData(n)
      ensures cache.Keys <= old(cache).Keys + {n} && (c.Ok? ==> n in cache)
    {
      hide ChunkOf, Ciphertext, Shape;
      if n in cache {
        return Ok(cache[n]);
      }
      if !Fits32(n) {
        return Err(StructError);
      }
      if |Ciphertext(n)| % 16 != 0 {
        return Err(CipherError);
      }
      c := Ok(ChunkOf(n));
      if |cache| > 256 {
        cache := map[];
      }
      cache := cache[n := c.value];
    }

    /** What one turn of the loop adds. */
    function PieceAt(off: nat, n: nat): Bits
      requires Shape()
    {
      match ChunkData(off / bs)
      case Err(e) => Err(e)
      case Ok(c) =>
        var piece := Slice(c, off % bs, off % bs + n);
        if piece == [] then Err(PastLastChunk) else Ok(piece)
    }

    lemma PieceBytes(off: nat, n: nat)
      requires Shape() && n > 0
      ensures match PieceAt(off, n)
              case Err(e) => At()(off) == Err(e)
              case Ok(piece) => 0 < |piece| <= n && forall k :: 0 <= k < |piece| ==> At()(off + k) == Ok(piece[k])
    {
      hide ChunkData;
      assert off % bs < bs;
      if ChunkData(off / bs).Ok? {
        var c := ChunkData(off / bs).value;
        var piece := Slice(c, off % bs, off % bs + n);
        ChunkFits(off / bs);
        forall k | 0 <= k < |piece|
          ensures At()(off + k) == Ok(piece[k])
        {
          SameBlock(off, bs, k);
        }
      }
    }

    lemma ChunkFits(n: nat)
      requires Shape() && ChunkData(n).Ok?
      ensures |ChunkData(n).value| <= bs
    {
    }

    method ReadPiece(off: nat, n: nat) returns (piece: Bits)
      requires Valid()
      modifies this
      ensures Valid() && piece == PieceAt(off, n)
    {
      hide ChunkData, Slice;
      var c := Chunk(off / bs);
      if c.Err? {
        return c;
      }
      piece := Ok(Slice(c.value, off % bs, off % bs + n));
      if piece.value == [] {
        return Err(PastLastChunk);
      }
    }

    /** Reading in chunks through the cache is reading byte by byte. */
    method Read(off0: nat, n0: int) returns (r: Bits)
      requires Valid()
      modifies this
      ensures Valid() && r == ReadSpec(off0, n0)
    {
      hide Gather, Sofar, ByteAt, At, PieceAt, ChunkData;
      var out: seq<byte>, off: nat, n: nat := [], off0, Length(off0, n0);
      ghost var at := At();
      ghost var total := n;
      SofarStart(at, off0, n);
      while n > 0
        invariant Valid() && Sofar(at, off0, total, out, off, n)
      {
        PieceBytes(off, n);
        var piece := ReadPiece(off, n);
        if piece.Err? {
          SofarFails(at, off0, total, out, off, n);
          return piece;
        }
        SofarStep(at, off0, total, out, off, n, piece.value);
        out, off, n := out + piece.value, off + |piece.value|, n - |piece.value|;
      }
      SofarEnds(at, off0, total, out, off);
      r := Ok(out);
    }

    /** Whether position p is in the file, in a chunk whose number and length the cipher takes. */
    predicate Readable(p: nat)
      requires bs > 0
    {
      && p < |file| - base && Fits32(p / bs)
      && Min(bs, |file| - base - p / bs * bs) % 16 == 0
    }

    lemma ChunkLength(n: nat)
      requires Shape()
      ensures |ChunkOf(n)| == |Ciphertext(n)| == Max(0, Min(bs, |file| - (base + n * bs)))
    {
      var at := base + n * bs;
      assert |Slice(file, at, at + bs)| == Max(0, Min(bs, |file| - at));
    }

    lemma ByteAtIff(p: nat)
      requires Shape()
      ensures ByteAt(p).Ok? <==> Readable(p)
    {
      hide ChunkOf, Ciphertext;
      ChunkLength(p / bs);
      PlaceInChunk(p, bs, |file| - base);
    }

    lemma PlaceInChunk(p: nat, b: nat, held: int)
      requires b > 0
      ensures p % b < Max(0, Min(b, held - p / b * b)) <==> p < held
      ensures p < held ==> Max(0, Min(b, held - p / b * b)) == Min(b, held - p / b * b)
    {
      assert p == p / b * b + p % b && 0 <= p % b < b;
    }

    /** A read works exactly if all its positions can be read, and fails with the error of the first that
        cannot. */
    lemma ReadIff(off: nat, n: nat)
      requires Shape() && off + n <= size
      ensures ReadSpec(off, n).Ok? <==> forall p :: off <= p < off + n ==> Readable(p)
      ensures forall p: nat :: off <= p < off + n && !Readable(p) && (forall q :: off <= q < p ==> Readable(q)) ==>
                ByteAt(p).Err? && ReadSpec(off, n) == Err(ByteAt(p).error)
    {
      assert Length(off, n) == n;
      hide ByteAt, Readable, Shape, Gather;
      forall p: nat ensures At()(p) == ByteAt(p) && (ByteAt(p).Ok? <==> Readable(p)) { ByteAtIff(p); }
      GatherIff(At(), off, n);
    }

    /** How many chunks the file has whole. */
    function Whole(): (w: nat)
      requires bs > 0
    {
      Max(0, |file| - base) / bs
    }

    /** How much of the image can be read: what the header claims, what the file holds, what chunk numbers
        reach, and not a last part or chunks that are no whole blocks. */
    function Present(): (n: nat)
      requires bs > 0
    {
      var held := Max(0, |file| - base);
      var blocks := if held % bs % 16 == 0 then held else Whole() * bs;
      Max(0, Min(size, if bs % 16 == 0 || Whole() == 0 then Min(blocks, 0x1_0000_0000 * bs) else 0))
    }

    lemma QuotientBelow(p: nat, b: nat, m: nat)
      requires b > 0
      ensures p / b < m <==> p < m * b
    {
      assert p == p / b * b + p % b;
      if p / b < m { ProductLeq(p / b + 1, m, b); } else { ProductLeq(m, p / b, b); }
    }

    lemma ProductLeq(x: nat, y: nat, b: nat)
      requires x <= y
      ensures x * b <= y * b
    {
    }

    /** Which blocks the chunk of p has: all, in a whole chunk, or those of the last part. */
    lemma BlocksAt(p: nat, held: nat)
      requires bs > 0 && p < held
      ensures Min(bs, held - p / bs * bs) == if p < held / bs * bs then bs else held % bs
    {
      var q, w := p / bs, held / bs;
      QuotientBelow(p, bs, w);
      assert held == w * bs + held % bs;
      if q < w {
        ProductLeq(q + 1, w, bs);
        ProductNext(q, bs);
      } else {
        ProductNext(w, bs);
        QuotientBelow(p, bs, w + 1);
      }
    }

    lemma ProductNext(x: nat, b: nat)
      ensures (x + 1) * b == x * b + b
    {
    }

    /** The same, with whole and all being the chunks' bytes in the file and those that chunk numbers reach. */
    lemma Cut(p: nat, b: nat, held: nat, whole: nat, last: nat, all: nat, total: nat)
      requires p < total && b > 0 && held == whole + last && last < b
      ensures var n := if b % 16 == 0 || whole == 0 then Min(if last % 16 == 0 then held else whole, all) else 0;
              var readable := p < held && p < all && (if p < whole then b else last) % 16 == 0;
              && (p < Max(0, Min(total, n)) ==> readable)
              && (b % 16 == 0 ==> (readable <==> p < Max(0, Min(total, n))))
    {
    }

    /** Where chunks are whole blocks of the cipher, as in every such image, exactly the bytes before that can be
        read; where they are not, those at least. */
    lemma PresentIff(p: nat)
      requires Shape() && p < size
      ensures p < Present() ==> ByteAt(p).Ok?
      ensures bs % 16 == 0 ==> (ByteAt(p).Ok? <==> p < Present())
    {
      hide ByteAt;
      ByteAtIff(p);
      QuotientBelow(p, bs, 0x1_0000_0000);
      var held: nat := Max(0, |file| - base);
      assert held == Whole() * bs + held % bs;
      assert Whole() * bs == 0 <==> Whole() == 0 by { if Whole() > 0 { ProductLeq(1, Whole(), bs); } }
      Cut(p, bs, held, Whole() * bs, held % bs, 0x1_0000_0000 * bs, size);
      if p < held { BlocksAt(p, held); }
    }

    /** That much of the image, decrypted. */
    function Image(): (img: seq<byte>)
      requires Shape()
      ensures |img| == Present() && forall p :: 0 <= p < |img| ==> ByteAt(p) == Ok(img[p])
    {
      forall p | 0 <= p < Present() ensures ByteAt(p).Ok? { PresentIff(p); }
      seq(Present(), p requires 0 <= p < Present() && ByteAt(p).Ok? => ByteAt(p).value)
    }

    /** For every read inside the size that the header claims: the slice of the image if there is all of it,
        and otherwise the error of the first byte that is missing. */
    lemma ReadIsSlice(off: nat, n: nat)
      requires Shape() && off + n <= size
      ensures n == 0 || off + n <= Present() ==>
                ReadSpec(off, n) == Ok(if n == 0 then [] else Image()[off..off + n])
      ensures n > 0 && off + n > Present() && bs % 16 == 0 ==>
                var first := ByteAt(Max(off, Present())); first.Err? && ReadSpec(off, n) == Err(first.error)
    {
      assert Length(off, n) == n;
      var img, m := Image(), Max(0, Present() - off);
      if n > 0 && off + n > Present() && bs % 16 == 0 { PresentIff(Max(off, Present())); }
      hide ByteAt, Present, Shape;
      if n == 0 {
      } else if off + n <= Present() {
        GatherIsSlice(At(), off, n, img[off..off + n]);
      } else if bs % 16 == 0 {
        PresentPart(off, m);
        GatherFailsAtFirst(At(), off + m, n - m);
        GatherSplits(At(), off, m, n);
      }
    }

    lemma CutSlice(s: seq<byte>, at: nat, b: nat, m: nat)
      requires m <= b && at + m <= |s| && (m == b || at + m == |s|)
      ensures Slice(s, at, at + b) == s[at..at + m]
    {
    }

    /** The m bytes of chunk n, the whole chunk or the last, shorter one of the file, decrypted with its number. */
    lemma ChunkInNumbers(n: nat, m: nat)
      requires Shape() && n < 0x1_0000_0000 && m <= bs && m % 16 == 0 && base + n * bs + m <= |file|
      requires m == bs || base + n * bs + m == |file|
      ensures var plain := decrypt(n, file[base + n * bs..base + n * bs + m]); |plain| == m && ChunkData(n) == Ok(plain)
    {
      hide Slice, Ciphertext, ChunkOf;
      var at := base + n * bs;
      CiphertextAt(n, at);
      CutSlice(file, at, bs, m);
      KeepsLength(n);
    }

    lemma CiphertextAt(n: nat, at: nat)
      requires at == base + n * bs
      ensures Ciphertext(n) == Slice(file, at, at + bs)
    {
    }

    lemma KeepsLength(n: nat)
      requires Shape()
      ensures ChunkOf(n) == decrypt(n, Ciphertext(n)) && |ChunkOf(n)| == |Ciphertext(n)|
    {
    }

    lemma ByteInChunk(n: nat, x: nat)
      requires Shape() && x < bs && ChunkData(n).Ok? && x < |ChunkData(n).value|
      ensures At()(n * bs + x) == Ok(ChunkData(n).value[x])
    {
      hide ChunkData;
      DivModUnique(n * bs + x, bs, n, x);
    }

    /** Any part of it is read as those bytes of the file, decrypted with the number n. */
    lemma ReadDecrypts(n: nat, m: nat, a: nat, b: nat)
      requires Shape() && n < 0x1_0000_0000 && m <= bs && m % 16 == 0 && base + n * bs + m <= |file|
      requires m == bs || base + n * bs + m == |file|
      requires a <= b <= m && n * bs + b <= size
      ensures |decrypt(n, file[base + n * bs..base + n * bs + m])| == m
      ensures ReadSpec(n * bs + a, b - a) == Ok(decrypt(n, file[base + n * bs..base + n * bs + m])[a..b])
    {
      hide Shape, ChunkData, ByteAt, Gather;
      ChunkInNumbers(n, m);
      var s, off := ChunkData(n).value[a..b], n * bs + a;
      assert Length(off, b - a) == b - a;
      forall k | 0 <= k < b - a ensures At()(off + k) == Ok(s[k]) {
        ByteInChunk(n, a + k);
      }
      GatherIsSlice(At(), off, b - a, s);
    }

    lemma PresentPart(off: nat, m: nat)
      requires Shape() && m == Max(0, Present() - off)
      ensures Gather(At(), off, m).Ok?
    {
      hide ByteAt, Present, Shape;
      if m > 0 { GatherIsSlice(At(), off, m, Image()[off..off + m]); }
    }
  }

  // ---- what the DMG layer reads from ------------------------------------------------------------

  datatype Source = Plain(file: seq<byte>) | Wrapped(enc: Encrcdsa) {
    ghost function Repr(): set<object> {
      if Wrapped? then {enc} else {}
    }

    ghost predicate Valid()
      reads Repr()
    {
      Wrapped? ==> enc.Valid()
    }

    ghost predicate Shape() {
      Wrapped? ==> enc.Shape()
    }

    function ReadSpec(off: nat, n: nat): Bits {
      match this
      case Plain(f) => Ok(Slice(f, off, off + n))
      case Wrapped(e) => e.ReadSpec(off, n)
    }

    method Read(off: nat, n: nat) returns (r: Bits)
      requires Valid()
      modifies Repr()
      ensures Valid() && r == ReadSpec(off, n)
    {
      match this {
        case Plain(f) => r := Ok(Slice(f, off, off + n));
        case Wrapped(e) => r := e.Read(off, n);
      }
    }

    lemma ReadErrors(off: nat, n: nat)
      ensures ReadSpec(off, n) != Err(NeverEnds)
    {
      if Wrapped? { GatherErrors(enc.At(), off, enc.Length(off, n)); }
    }

    function Image(): seq<byte>
      requires Shape()
    {
      if Plain? then file else enc.Image()
    }

    /** Wrapped or not, an in-range read is a slice of one flat image. */
    lemma ReadIsSlice(off: nat, n: nat)
      requires Shape() && off + n <= |Image()|
      ensures ReadSpec(off, n) == Ok(Image()[off..off + n])
    {
      if Wrapped? {
        enc.ReadIsSlice(off, n);
        assert n == 0 ==> Image()[off..off + n] == [];
      }
    }
  }
}
