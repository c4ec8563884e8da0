/** rootfs-extract.py, the upper layer: a file's fork read through its extents, and the stack as one flat slice. */
module ForkReaders {
  import opened Bytes
  import opened ImageReaders
  import opened DmgReaders

  /** Start and length in allocation blocks. */
  datatype Extent = Extent(start: nat, count: nat)

  function Blocks(ext: seq<Extent>): nat {
    if ext == [] then 0 else ext[0].count + Blocks(ext[1..])
  }

  // ---- reading ----------------------------------------------------------------------------------

  lemma {:induction false} GatherSame(a: nat -> Result<byte, ReadError>, p: nat, b: nat -> Result<byte, ReadError>,
        q: nat, n: nat)
    requires forall x :: p <= x < p + n ==> a(x) == b(q + (x - p))
    ensures Gather(a, p, n) == Gather(b, q, n)
    decreases n
  {
    if n > 0 {
      GatherSame(a, p + 1, b, q + 1, n - 1);
    }
  }

  /** A sub-read that is itself given position by position joins what was read so far. */
  lemma SofarPart(at: nat -> Result<byte, ReadError>, off0: nat, n0: nat, out: seq<byte>, off: nat, n: nat, m: nat,
        r: Bits)
    requires Sofar(at, off0, n0, out, off, n) && m <= n && r == Gather(at, off, m)
    ensures r.Ok? ==> Sofar(at, off0, n0, out + r.value, off + m, n - m)
    ensures r.Err? ==> Gather(at, off0, n0) == r
  {
    if r.Ok? {
      GatherSplits(at, off0, |out|, |out| + m);
    } else {
      GatherFails(at, off, m, n);
      GatherSplits(at, off0, |out|, n0);
    }
  }

  lemma {:induction false} GatherFails(at: nat -> Result<byte, ReadError>, off: nat, m: nat, n: nat)
    requires m <= n && Gather(at, off, m).Err?
    ensures Gather(at, off, n) == Gather(at, off, m)
    decreases m
  {
    if m > 0 && at(off).Ok? { GatherFails(at, off + 1, m - 1, n - 1); }
  }

  function SpanOf(e: Extent, bs: nat): nat {
    e.count * bs
  }

  function PosOf(e: Extent, bs: nat): nat {
    e.start * bs
  }

  /** The bytes the extents take up. */
  function Span(ext: seq<Extent>, bs: nat): nat {
    if ext == [] then 0 else SpanOf(ext[0], bs) + Span(ext[1..], bs)
  }

  lemma {:induction false} SpanIsBlocks(ext: seq<Extent>, bs: nat)
    ensures Span(ext, bs) == Blocks(ext) * bs
  {
    if ext != [] { SpanIsBlocks(ext[1..], bs); }
  }

  lemma {:induction false} SpanStep(ext: seq<Extent>, bs: nat, j: nat)
    requires j < |ext|
    ensures Span(ext[..j + 1], bs) == Span(ext[..j], bs) + SpanOf(ext[j], bs)
  {
    hide SpanOf;
    if j > 0 {
      SpanStep(ext[1..], bs, j - 1);
      assert ext[..j][1..] == ext[1..][..j - 1] && ext[..j + 1][1..] == ext[1..][..j];
    } else {
      assert ext[..1][1..] == [];
    }
  }

  /** The partition position of fork position p. */
  function Locate(ext: seq<Extent>, bs: nat, p: nat): Option<nat>
    decreases |ext|
  {
    if ext == [] then None
    else if p < SpanOf(ext[0], bs) then Some(PosOf(ext[0], bs) + p)
    else Locate(ext[1..], bs, p - SpanOf(ext[0], bs))
  }

  /** The first j extents take up their bytes, and extent j goes on from there. */
  lemma {:induction false} LocateInExtent(ext: seq<Extent>, bs: nat, j: nat, q: nat)
    requires j < |ext| && q < SpanOf(ext[j], bs)
    ensures Locate(ext, bs, Span(ext[..j], bs) + q) == Some(PosOf(ext[j], bs) + q)
  {
    hide SpanOf, PosOf;
    if j > 0 {
      LocateInExtent(ext[1..], bs, j - 1, q);
      assert ext[..j][1..] == ext[1..][..j - 1];
    }
  }

  datatype Fork = Fork(img: Udif, bs: nat, size: nat, ext: seq<Extent>) {
    predicate Covered() {
      size <= Blocks(ext) * bs
    }

    function ByteAt(p: nat): Result<byte, ReadError> {
      match Locate(ext, bs, p)
      case None => Err(PastLastChunk)
      case Some(x) => img.ByteAt(x)
    }

    function At(): nat -> Result<byte, ReadError> {
      p => ByteAt(p)
    }

    function Length(off: nat, n: int): (m: nat) {
      Max(0, Min(n, size - off))
    }

    /** The bytes an extent contributes are those of the partition at its place. */
    lemma PartOfExtent(j: nat, o: nat, m: nat)
      requires j < |ext| && o + m <= SpanOf(ext[j], bs)
      ensures Gather(At(), Span(ext[..j], bs) + o, m) == Gather(img.At(), PosOf(ext[j], bs) + o, m)
    {
      hide SpanOf, PosOf, Gather, Udif.ByteAt;
      var p, q := Span(ext[..j], bs) + o, PosOf(ext[j], bs) + o;
      forall x | p <= x < p + m
        ensures At()(x) == img.At()(q + (x - p))
      {
        LocateInExtent(ext, bs, j, o + (x - p));
      }
      GatherSame(At(), p, img.At(), q, m);
    }

    /** After j extents with n bytes still wanted: off counts from where the next extent starts. */
    ghost predicate AtExtent(j: nat, off0: nat, n0: nat, out: seq<byte>, off: int, n: nat) {
      && j <= |ext| && |out| + n == n0
      && Gather(At(), off0, |out|) == Ok(out)
      && (n > 0 ==> off >= 0 && off0 + |out| == Span(ext[..j], bs) + off)
    }

    lemma Start(off0: nat, n0: nat)
      ensures AtExtent(0, off0, n0, [], off0, n0)
    {
    }

    lemma Skip(j: nat, off0: nat, n0: nat, out: seq<byte>, off: int, n: nat)
      requires AtExtent(j, off0, n0, out, off, n) && j < |ext| && !(n > 0 && off < SpanOf(ext[j], bs))
      ensures AtExtent(j + 1, off0, n0, out, off - SpanOf(ext[j], bs), n)
    {
      hide SpanOf, Gather, ByteAt, Span;
      SpanStep(ext, bs, j);
    }

    lemma Take(j: nat, off0: nat, n0: nat, out: seq<byte>, off: nat, n: nat, take: nat, r: Bits)
      requires AtExtent(j, off0, n0, out, off, n) && j < |ext| && 0 < n && off < SpanOf(ext[j], bs)
      requires take == Min(n, SpanOf(ext[j], bs) - off)
      requires r == Gather(img.At(), PosOf(ext[j], bs) + off, take)
      ensures r.Err? ==> Gather(At(), off0, n0) == r
      ensures r.Ok? ==> AtExtent(j + 1, off0, n0, out + r.value, 0, n - take)
    {
      hide SpanOf, PosOf, Gather, ByteAt, Span, At;
      PartOfExtent(j, off, take);
      var at := At();
      assert Sofar(at, off0, n0, out, off0 + |out|, n);
      SofarPart(at, off0, n0, out, off0 + |out|, n, take, r);
      SpanStep(ext, bs, j);
    }

    lemma End(off0: nat, n0: nat, out: seq<byte>, off: int, n: nat)
      requires AtExtent(|ext|, off0, n0, out, off, n) && Covered() && (n0 > 0 ==> off0 + n0 <= size)
      ensures n == 0 && Gather(At(), off0, n0) == Ok(out)
    {
      hide Gather, ByteAt, Span, At;
      SpanIsBlocks(ext, bs);
      assert ext[..|ext|] == ext;
    }

    /** The loop from extent j on, with out read so far, off counted from where extent j starts and n bytes
        still wanted. */
    function ReadOn(j: nat, out: seq<byte>, off: int, n: nat): Bits
      requires Sorted(img.rows) && j <= |ext| && (n > 0 ==> off >= 0)
      decreases |ext| - j
    {
      if j == |ext| then Ok(out)
      else
        var span := SpanOf(ext[j], bs);
        if n > 0 && off < span then
          var take := Min(n, span - off);
          match img.ReadFrom(PosOf(ext[j], bs) + off, take)
          case Err(e) => Err(e)
          case Ok(part) => ReadOn(j + 1, out + part, 0, n - take)
        else ReadOn(j + 1, out, off - span, n)
    }

    function ReadFrom(off: nat, n: int): Bits
      requires Sorted(img.rows)
    {
      ReadOn(0, [], off, Length(off, n))
    }

    /** Whatever the partition and the extents, the loop reads extent by extent; a fork whose extents end early
        gives what there is. */
    method Read(off0: nat, n0: int) returns (r: Bits)
      requires img.Valid()
      modifies img, img.src.Repr()
      ensures img.Valid() && r == ReadFrom(off0, n0)
    {
      hide Udif.Valid, Udif.ReadFrom, SpanOf, PosOf, Sorted;
      img.ValidSorted();
      var out: seq<byte>, off: int, n: nat := [], off0, Length(off0, n0);
      for j := 0 to |ext|
        invariant img.Valid() && (n > 0 ==> off >= 0)
        invariant ReadOn(j, out, off, n) == ReadFrom(off0, n0)
      {
        var span := SpanOf(ext[j], bs);
        if n > 0 && off < span {
          var take := Min(n, span - off);
          var part := img.Read(PosOf(ext[j], bs) + off, take);
          if part.Err? {
            return part;
          }
          out, n, off := out + part.value, n - take, 0;
        } else {
          off := off - span;
        }
      }
      r := Ok(out);
    }

    lemma {:induction false} ReadOnIsGather(j: nat, off0: nat, n0: nat, out: seq<byte>, off: int, n: nat)
      requires Disjoint(img.rows) && Sorted(img.rows) && img.SizesHold() && Covered() && (n > 0 ==> off >= 0)
      requires AtExtent(j, off0, n0, out, off, n) && (n0 > 0 ==> off0 + n0 <= size)
      ensures ReadOn(j, out, off, n) == Gather(At(), off0, n0)
      decreases |ext| - j
    {
      hide AtExtent, ByteAt, At, Gather, Udif.SizesHold, Udif.ReadFrom, SpanOf, PosOf, Sorted, Disjoint, Covered;
      ExtentInside(j, off0, n0, out, off, n);
      if j == |ext| {
        End(off0, n0, out, off, n);
      } else if n > 0 && off < SpanOf(ext[j], bs) {
        var take := Min(n, SpanOf(ext[j], bs) - off);
        var part := img.ReadFrom(PosOf(ext[j], bs) + off, take);
        img.ReadIsGather(PosOf(ext[j], bs) + off, take);
        Take(j, off0, n0, out, off, n, take, part);
        if part.Ok? { ReadOnIsGather(j + 1, off0, n0, out + part.value, 0, n - take); }
      } else {
        Skip(j, off0, n0, out, off, n);
        ReadOnIsGather(j + 1, off0, n0, out, off - SpanOf(ext[j], bs), n);
      }
    }

    lemma ExtentInside(j: nat, off0: nat, n0: nat, out: seq<byte>, off: int, n: nat)
      requires AtExtent(j, off0, n0, out, off, n)
      ensures j <= |ext|
    {
    }

    /** Over rows of declared size, with extents that cover the file, that is reading byte by byte: each
        position from the partition position its extent gives it. */
    lemma ReadIsGather(off: nat, n: int)
      requires Disjoint(img.rows) && Sorted(img.rows) && img.SizesHold() && Covered()
      ensures ReadFrom(off, n) == Gather(At(), off, Length(off, n))
    {
      hide AtExtent, ReadOn, At, Gather, Udif.SizesHold, Sorted, Disjoint, Covered;
      Start(off, Length(off, n));
      ReadOnIsGather(0, off, Length(off, n), [], off, Length(off, n));
    }
  }

  // ---- the stack as one flat slice --------------------------------------------------------------

  /** The rows follow one another from 0, each with readable data of its declared size. */
  ghost predicate Flattens(img: Udif) {
    && Disjoint(img.rows) && Sorted(img.rows) && img.SizesHold()
    && (forall i :: 0 <= i < |img.rows| ==> img.ChunkData(i).Ok?)
    && (img.rows != [] ==> img.rows[0].start == 0)
    && (forall i :: 1 <= i < |img.rows| ==> img.rows[i].start == img.rows[i - 1].start + img.rows[i - 1].size)
  }

  /** The data of the first k rows. */
  ghost function FlatTo(img: Udif, k: nat): (s: seq<byte>)
    requires Flattens(img) && k <= |img.rows|
    ensures |s| == if k == 0 then 0 else img.rows[k - 1].start + img.rows[k - 1].size
  {
    if k == 0 then []
    else
      assert img.ChunkData(k - 1).Ok?;
      FlatTo(img, k - 1) + img.ChunkData(k - 1).value
  }

  /** The partition: the data of all rows. */
  ghost function Flat(img: Udif): seq<byte>
    requires Flattens(img)
  {
    FlatTo(img, |img.rows|)
  }

  lemma {:induction false} FlatBytes(img: Udif, k: nat, p: nat)
    requires Flattens(img) && k <= |img.rows| && p < |FlatTo(img, k)|
    ensures img.ByteAt(p) == Ok(FlatTo(img, k)[p])
    decreases k
  {
    hide Udif.ByteAt, Udif.ChunkData, Disjoint;
    assert img.ChunkData(k - 1).Ok?;
    if p < |FlatTo(img, k - 1)| {
      FlatBytes(img, k - 1, p);
    } else {
      img.ByteInRow(k - 1, p);
    }
  }

  lemma FlatAt(img: Udif, p: nat)
    requires Flattens(img) && p < |Flat(img)|
    ensures img.At()(p) == Ok(Flat(img)[p])
  {
    FlatBytes(img, |img.rows|, p);
    hide Udif.ByteAt, Flattens, FlatTo;
  }

  lemma FlattensParts(img: Udif)
    requires Flattens(img)
    ensures Disjoint(img.rows) && Sorted(img.rows) && img.SizesHold()
  {
  }

  lemma CoveredSpan(fork: Fork)
    requires fork.Covered()
    ensures fork.size <= Span(fork.ext, fork.bs)
  {
    SpanIsBlocks(fork.ext, fork.bs);
  }

  lemma LengthInside(fork: Fork, off: nat, n: nat)
    requires off <= fork.size
    ensures fork.Length(off, n) == Min(n, fork.size - off)
    ensures 0 <= Min(n, fork.size - off) && off + Min(n, fork.size - off) <= fork.size
  {
  }

  /** A partition read inside the image is a slice of it. */
  lemma PartitionIsFlat(img: Udif, off: nat, n: nat)
    requires Flattens(img) && off + n <= |Flat(img)|
    ensures img.ReadFrom(off, n) == Ok(Flat(img)[off..off + n])
  {
    hide *;
    FlattensParts(img);
    img.ReadIsGather(off, n);
    var at, flat := img.At(), Flat(img);
    var s := flat[off..off + n];
    forall k | 0 <= k < n ensures at(off + k) == Ok(s[k]) {
      FlatAt(img, off + k);
    }
    GatherIsSlice(at, off, n, s);
  }

  lemma ExtentEnds(e: Extent, bs: nat)
    ensures PosOf(e, bs) == e.start * bs && PosOf(e, bs) + SpanOf(e, bs) == (e.start + e.count) * bs
  {
  }

  predicate Inside(ext: seq<Extent>, bs: nat, total: nat) {
    forall e :: e in ext ==> (e.start + e.count) * bs <= total
  }

  /** A file's blocks, extent after extent. */
  function Logical(flat: seq<byte>, ext: seq<Extent>, bs: nat): (s: seq<byte>)
    requires Inside(ext, bs, |flat|)
    ensures |s| == Span(ext, bs)
  {
    if ext == [] then []
    else
      assert ext[0] in ext;
      ExtentEnds(ext[0], bs);
      flat[ext[0].start * bs..(ext[0].start + ext[0].count) * bs] + Logical(flat, ext[1..], bs)
  }

  lemma {:induction false} LogicalBytes(flat: seq<byte>, ext: seq<Extent>, bs: nat, p: nat)
    requires Inside(ext, bs, |flat|) && p < Span(ext, bs)
    ensures match Locate(ext, bs, p)
            case None => false
            case Some(x) => x < |flat| && flat[x] == Logical(flat, ext, bs)[p]
    decreases |ext|
  {
    assert ext[0] in ext;
    ExtentEnds(ext[0], bs);
    hide SpanOf, PosOf;
    if p >= SpanOf(ext[0], bs) {
      LogicalBytes(flat, ext[1..], bs, p - SpanOf(ext[0], bs));
    }
  }

  lemma FileAt(fork: Fork, p: nat)
    requires Flattens(fork.img) && Inside(fork.ext, fork.bs, |Flat(fork.img)|) && p < Span(fork.ext, fork.bs)
    ensures fork.At()(p) == Ok(Logical(Flat(fork.img), fork.ext, fork.bs)[p])
  {
    LogicalBytes(Flat(fork.img), fork.ext, fork.bs, p);
    FlatBytes(fork.img, |fork.img.rows|, Locate(fork.ext, fork.bs, p).value);
    hide Locate, Span, Logical, FlatTo, Udif.ByteAt, Flattens, Inside;
  }

  /** The whole stack: over a partition whose rows are contiguous and readable, any read of a fork whose
      extents lie inside it and cover it gives exactly that slice of the file's blocks, cut at the file's
      size. */
  lemma StackIsFlat(fork: Fork, off: nat, n: nat)
    requires Flattens(fork.img) && fork.Covered()
    requires Inside(fork.ext, fork.bs, |Flat(fork.img)|)
    requires off <= fork.size
    ensures fork.size <= Span(fork.ext, fork.bs)
    ensures fork.ReadFrom(off, n)
            == Ok(Logical(Flat(fork.img), fork.ext, fork.bs)[off..off + Min(n, fork.size - off)])
  {
    hide *;
    CoveredSpan(fork);
    FlattensParts(fork.img);
    var m := Min(n, fork.size - off);
    LengthInside(fork, off, n);
    fork.ReadIsGather(off, n);
    var at, file := fork.At(), Logical(Flat(fork.img), fork.ext, fork.bs);
    var s := file[off..off + m];
    forall k | 0 <= k < m ensures at(off + k) == Ok(s[k]) {
      FileAt(fork, off + k);
    }
    GatherIsSlice(at, off, m, s);
  }

  /** A read of the fork is that slice of its blocks, cut at its size. */
  ghost predicate ReadsItsBlocks(fork: Fork, off: nat, n: nat) {
    && Flattens(fork.img) && Inside(fork.ext, fork.bs, |Flat(fork.img)|) && off <= fork.size <= Span(fork.ext, fork.bs)
    && fork.ReadFrom(off, n) == Ok(Logical(Flat(fork.img), fork.ext, fork.bs)[off..off + Min(n, fork.size - off)])
  }

  /** At the bottom of the stack a raw row is a slice of the decrypted image. */
  lemma RawRowIsImageSlice(img: Udif, i: nat)
    requires i < |img.rows| && img.rows[i].kind == 1 && img.src.Shape()
    requires img.dataStart + img.rows[i].coff + img.rows[i].clen <= |img.src.Image()|
    ensures var o := img.dataStart + img.rows[i].coff;
            img.ChunkData(i) == Ok(img.src.Image()[o..o + img.rows[i].clen])
  {
    hide Source.Shape, Source.Image, Source.ReadSpec;
    img.src.ReadIsSlice(img.dataStart + img.rows[i].coff, img.rows[i].clen);
  }
}
