/** rootfs-extract.py, the middle layer: ADC decompression, and one UDIF partition as a flat byte range. */
module DmgReaders {
  import opened Bytes
  import opened ImageReaders
  import opened StableSort

  // ---- ADC --------------------------------------------------------------------------------------

  /** n bytes copied one by one from dist back; the copy may overlap itself. */
  function CopyBack(out: seq<byte>, n: nat, dist: nat): (r: seq<byte>)
    requires 1 <= dist <= |out|
    decreases n
  {
    if n == 0 then out else CopyBack(out + [out[|out| - dist]], n - 1, dist)
  }

  /** CopyBack extends out to the only sequence of that length that repeats with period dist from there. */
  lemma {:induction false} CopyBackPeriodic(out: seq<byte>, n: nat, dist: nat)
    requires 1 <= dist <= |out|
    ensures var r := CopyBack(out, n, dist);
            |r| == |out| + n && out <= r && forall j :: |out| <= j < |r| ==> r[j] == r[j - dist]
    decreases n
  {
    if n > 0 {
      var next := out + [out[|out| - dist]];
      CopyBackPeriodic(next, n - 1, dist);
      var r := CopyBack(out, n, dist);
      assert r[..|next|] == next;
      assert r[|out|] == next[|out|] && r[|out| - dist] == next[|out| - dist];
      assert out == next[..|out|];
    }
  }

  function Adc(data: seq<byte>, i: nat, out: seq<byte>, outlen: nat): Bits
    decreases if i < |data| then |data| - i else 0
  {
    if i >= |data| || |out| >= outlen then Ok(out)
    else
      var b: int := data[i];
      if b >= 128 then
        Adc(data, i + 1 + (b - 128 + 1), out + Slice(data, i + 1, i + 1 + (b - 128 + 1)), outlen)
      else
        var long := b >= 64;
        if i + (if long then 2 else 1) >= |data| then Err(IndexError)
        else
          var n := if long then b - 64 + 4 else b / 4 + 3;
          var dist := if long then data[i + 1] as int * 256 + data[i + 2] + 1 else b % 4 * 256 + data[i + 1] + 1;
          if dist > |out| then Err(IndexError)
          else Adc(data, i + (if long then 3 else 2), CopyBack(out, n, dist), outlen)
  }

  method CopyBackLoop(out0: seq<byte>, n: nat, dist: nat) returns (r: Bits)
    requires dist >= 1 && n > 0
    ensures r == if dist > |out0| then Err(IndexError) else Ok(CopyBack(out0, n, dist))
  {
    var out := out0;
    for k := 0 to n
      invariant dist <= |out0| ==> dist <= |out| && CopyBack(out, n - k, dist) == CopyBack(out0, n, dist)
      invariant dist > |out0| ==> k == 0 && out == out0
    {
      if dist > |out| {
        return Err(IndexError);
      }
      out := out + [out[|out| - dist]];
    }
    r := Ok(out);
  }

  method AdcDecode(data: seq<byte>, outlen: nat) returns (r: Bits)
    ensures r == Adc(data, 0, [], outlen)
  {
    hide CopyBack, Slice;
    var out: seq<byte>, i := [], 0;
    while i < |data| && |out| < outlen
      invariant Adc(data, i, out, outlen) == Adc(data, 0, [], outlen)
      decreases if i < |data| then |data| - i else 0
    {
      var b: int := data[i];
      if b >= 128 {
        var n := b - 128 + 1;
        out := out + Slice(data, i + 1, i + 1 + n);
        i := i + 1 + n;
        continue;
      }
      var n, dist;
      if b >= 64 {
        if i + 2 >= |data| {
          return Err(IndexError);
        }
        n, dist := b - 64 + 4, data[i + 1] as int * 256 + data[i + 2] + 1;
        i := i + 3;
      } else {
        if i + 1 >= |data| {
          return Err(IndexError);
        }
        n, dist := b / 4 + 3, b % 4 * 256 + data[i + 1] + 1;
        i := i + 2;
      }
      var copied := CopyBackLoop(out, n, dist);
      if copied.Err? {
        return copied;
      }
      out := copied.value;
    }
    r := Ok(out);
  }

  lemma {:induction false} AdcErrors(data: seq<byte>, i: nat, out: seq<byte>, outlen: nat)
    ensures Adc(data, i, out, outlen).Err? ==> Adc(data, i, out, outlen) == Err(IndexError)
    decreases if i < |data| then |data| - i else 0
  {
    if i < |data| && |out| < outlen {
      var b: int := data[i];
      if b >= 128 {
        AdcErrors(data, i + 1 + (b - 128 + 1), out + Slice(data, i + 1, i + 1 + (b - 128 + 1)), outlen);
      } else {
        var long := b >= 64;
        if i + (if long then 2 else 1) < |data| {
          var n := if long then b - 64 + 4 else b / 4 + 3;
          var dist := if long then data[i + 1] as int * 256 + data[i + 2] + 1 else b % 4 * 256 + data[i + 1] + 1;
          if dist <= |out| { AdcErrors(data, i + (if long then 3 else 2), CopyBack(out, n, dist), outlen); }
        }
      }
    }
  }

  // ---- one partition of a UDIF image ------------------------------------------------------------

  /** A row of the mish table, in bytes. */
  datatype ChunkRow = ChunkRow(start: nat, size: nat, kind: nat, coff: nat, clen: nat)

  /** How many of the starts are at most p, for sorted starts. */
  function BisectRight(rows: seq<ChunkRow>, p: nat): (i: nat)
    ensures i <= |rows|
  {
    if rows == [] || p < rows[0].start then 0 else 1 + BisectRight(rows[1..], p)
  }

  /** The order of tuples. */
  predicate RowBefore(a: ChunkRow, b: ChunkRow) {
    if a.start != b.start then a.start < b.start
    else if a.size != b.size then a.size < b.size
    else if a.kind != b.kind then a.kind < b.kind
    else if a.coff != b.coff then a.coff < b.coff
    else a.clen <= b.clen
  }

  /** Neither a comment nor the terminator. */
  predicate IsData(row: ChunkRow) {
    row.kind != 0x7FFF_FFFE && row.kind != 0xFFFF_FFFF
  }

  predicate Sorted(rows: seq<ChunkRow>) {
    forall i, j :: 0 <= i < j < |rows| ==> rows[i].start <= rows[j].start
  }

  predicate Disjoint(rows: seq<ChunkRow>) {
    forall i, j :: 0 <= i < j < |rows| ==> rows[i].start + rows[i].size <= rows[j].start
  }

  lemma {:induction false} BisectFinds(rows: seq<ChunkRow>, p: nat)
    requires Sorted(rows)
    ensures var i := BisectRight(rows, p);
            (forall j :: 0 <= j < i ==> rows[j].start <= p) && (forall j :: i <= j < |rows| ==> p < rows[j].start)
  {
    if rows != [] {
      if p < rows[0].start {
      } else {
        BisectFinds(rows[1..], p);
        var i := BisectRight(rows, p);
        assert forall j :: 1 <= j < |rows| ==> rows[j] == rows[1..][j - 1];
      }
    }
  }

  /** A position behind the start of row i and before the next start is found in row i. */
  lemma BisectBetween(rows: seq<ChunkRow>, i: nat, p: nat)
    requires Sorted(rows) && i < |rows| && rows[i].start <= p && (i + 1 < |rows| ==> p < rows[i + 1].start)
    ensures BisectRight(rows, p) == i + 1
  {
    BisectFinds(rows, p);
  }

  /** So is one inside row i, if the rows do not overlap. */
  lemma BisectHits(rows: seq<ChunkRow>, i: nat, p: nat)
    requires Disjoint(rows) && i < |rows| && rows[i].start <= p < rows[i].start + rows[i].size
    ensures BisectRight(rows, p) == i + 1
  {
    DisjointSorted(rows);
    BisectBetween(rows, i, p);
  }

  lemma DisjointSorted(rows: seq<ChunkRow>)
    requires Disjoint(rows)
    ensures Sorted(rows)
  {
  }

  /** The table's data rows in order. */
  function SortedRows(entries: seq<ChunkRow>): seq<ChunkRow> {
    Sort(Filter(entries, IsData), RowBefore)
  }

  lemma RowsAreSorted(entries: seq<ChunkRow>)
    ensures Sorted(SortedRows(entries))
    ensures multiset(SortedRows(entries)) == multiset(Filter(entries, IsData))
  {
    hide Sort, Filter;
    SortIs(Filter(entries, IsData), RowBefore);
  }

  /** Every entry but comments (0x7ffffffe) and terminators (0xffffffff) is a row; rows that start together come by
      size, then kind, then place and length of their data. */
  lemma RowsInNumbers(entries: seq<ChunkRow>)
    ensures forall r :: r in SortedRows(entries) <==> r in entries && r.kind != 0x7fff_fffe && r.kind != 0xffff_ffff
    ensures var rows := SortedRows(entries);
            forall j, k :: 0 <= j < k < |rows| && rows[j].start == rows[k].start ==>
              && rows[j].size <= rows[k].size
              && (rows[j].size == rows[k].size ==> rows[j].kind <= rows[k].kind)
              && (rows[j].size == rows[k].size && rows[j].kind == rows[k].kind ==> rows[j].coff <= rows[k].coff)
              && (rows[j].size == rows[k].size && rows[j].kind == rows[k].kind && rows[j].coff == rows[k].coff ==>
                    rows[j].clen <= rows[k].clen)
  {
    hide Sort, Filter;
    SortIs(Filter(entries, IsData), RowBefore);
    FilterMembers(entries, IsData);
    SameMembers(SortedRows(entries), Filter(entries, IsData));
    var rows := SortedRows(entries);
    assert forall j, k :: 0 <= j < k < |rows| ==> RowBefore(rows[j], rows[k]);
  }

  /** The result of a decompressor that may fail. */
  function Inflated(data: Option<seq<byte>>): Bits {
    match data case None => Err(DecompressFailed) case Some(s) => Ok(s)
  }

  class Udif {
    const src: Source
    const dataStart: nat
    const rows: seq<ChunkRow>
    const zlib: seq<byte> -> Option<seq<byte>>
    const bz2: seq<byte> -> Option<seq<byte>>
    var cache: map<nat, seq<byte>>

    constructor (src: Source, dataStart: nat, entries: seq<ChunkRow>, zlib: seq<byte> -> Option<seq<byte>>,
                 bz2: seq<byte> -> Option<seq<byte>>)
      requires src.Valid()
      ensures Valid() && rows == SortedRows(entries)
      ensures this.src == src && this.dataStart == dataStart && this.zlib == zlib && this.bz2 == bz2
    {
      RowsAreSorted(entries);
      this.src, this.dataStart, this.rows, this.zlib, this.bz2 := src, dataStart, SortedRows(entries), zlib, bz2;
      cache := map[];
    }

    /** The bytes of row i, recomputed from the image. */
    function ChunkData(i: nat): Bits
      requires i < |rows|
    {
      var row := rows[i];
      if row.kind == 0 || row.kind == 2 then Ok(Repeat<byte>(0, row.size))
      else
        match src.ReadSpec(dataStart + row.coff, row.clen)
        case Err(e) => Err(e)
        case Ok(raw) =>
          if row.kind == 1 then Ok(raw)
          else if row.kind == 0x80000005 then Inflated(zlib(raw))
          else if row.kind == 0x80000006 then Inflated(bz2(raw))
          else if row.kind == 0x80000004 then Adc(raw, 0, [], row.size)
          else Err(UnhandledKind)
    }

    /** Every row that can be read has its declared size. */
    ghost predicate SizesHold() {
      forall i :: 0 <= i < |rows| && ChunkData(i).Ok? ==> |ChunkData(i).value| == rows[i].size
    }

    ghost predicate Valid()
      reads this, src.Repr()
    {
      src.Valid() && Sorted(rows) && |cache| <= 65 &&
      forall i :: i in cache ==> i < |rows| && ChunkData(i) == Ok(cache[i])
    }

    function ByteAt(p: nat): Result<byte, ReadError> {
      var i := BisectRight(rows, p);
      if i == 0 then Err(BeforeFirstChunk)
      else
        var row := rows[i - 1];
        if p >= row.start + row.size || p < row.start then Err(GapBetweenChunks)
        else
          match ChunkData(i - 1)
          case Err(e) => Err(e)
          case Ok(c) => if p - row.start < |c| then Ok(c[p - row.start]) else Err(GapBetweenChunks)
    }

    function At(): nat -> Result<byte, ReadError> {
      p => ByteAt(p)
    }

    method ReadRow(i: nat) returns (c: Bits)
      requires src.Valid() && i < |rows|
      modifies src.Repr()
      ensures src.Valid() && c == ChunkData(i)
    {
      hide Adc, Source.ReadSpec, Source.Valid;
      var row := rows[i];
      if row.kind == 0 || row.kind == 2 {
        return Ok(Repeat(0, row.size));
      }
      c := src.Read(dataStart + row.coff, row.clen);
      if c.Err? {
        return;
      }
      if row.kind == 1 {
      } else if row.kind == 0x80000005 {
        c := Inflated(zlib(c.value));
      } else if row.kind == 0x80000006 {
        c := Inflated(bz2(c.value));
      } else if row.kind == 0x80000004 {
        c := AdcDecode(c.value, row.size);
      } else {
        c := Err(UnhandledKind);
      }
    }

    method Chunk(i: nat) returns (c: Bits)
      requires Valid() && i < |rows|
      modifies this, src.Repr()
      ensures Valid() && c == ChunkData(i)
    {
      if i in cache {
        return Ok(cache[i]);
      }
      c := ReadRow(i);
      if c.Ok? {
        if |cache| > 64 {
          cache := map[];
        }
        cache := cache[i := c.value];
      }
    }

    /** A position inside row i gets its byte from that row's data. */
    lemma ByteInRow(i: nat, p: nat)
      requires Disjoint(rows) && i < |rows| && rows[i].start <= p < rows[i].start + rows[i].size
      requires SizesHold()
      ensures match ChunkData(i)
              case Err(e) => At()(p) == Err(e)
              case Ok(c) => |c| == rows[i].size && At()(p) == Ok(c[p - rows[i].start])
    {
      hide ChunkData, BisectRight, Disjoint, SizesHold;
      BisectHits(rows, i, p);
      SizeHolds(i);
    }

    lemma SizeHolds(i: nat)
      requires SizesHold() && i < |rows|
      ensures ChunkData(i).Ok? ==> |ChunkData(i).value| == rows[i].size
    {
      hide ChunkData;
    }

    /** What one turn of the loop adds; NeverEnds stands for a turn that adds nothing, as the source then
        repeats it for ever. */
    function PieceAt(off: nat, n: nat): Bits
      requires Sorted(rows) && n > 0
    {
      if RawPiece(off, n) == Ok([]) then Err(NeverEnds) else RawPiece(off, n)
    }

    /** The slice of a row's data that one turn of the loop takes, or its error. */
    function RawPiece(off: nat, n: nat): (piece: Bits)
      requires Sorted(rows) && n > 0
      ensures piece.Ok? ==> |piece.value| <= n
    {
      BisectFinds(rows, off);
      var b := BisectRight(rows, off);
      if b == 0 then Err(BeforeFirstChunk)
      else
        var row := rows[b - 1];
        if off >= row.start + row.size then Err(GapBetweenChunks)
        else
          match ChunkData(b - 1)
          case Err(e) => Err(e)
          case Ok(c) => Ok(Slice(c, off - row.start, off - row.start + n))
    }

    lemma PieceSize(off: nat, n: nat)
      requires Sorted(rows) && n > 0
      ensures PieceAt(off, n).Ok? ==> 0 < |PieceAt(off, n).value| <= n
    {
      hide ChunkData, BisectRight;
    }

    /** The loop, with out read so far. */
    function ReadOn(out: seq<byte>, off: nat, n: nat): (r: Bits)
      requires Sorted(rows)
      ensures r.Ok? ==> |r.value| == |out| + n
      decreases n
    {
      if n == 0 then Ok(out)
      else
        PieceSize(off, n);
        match PieceAt(off, n)
        case Err(e) => Err(e)
        case Ok(piece) => ReadOn(out + piece, off + |piece|, n - |piece|)
    }

    function ReadFrom(off: nat, n: nat): (r: Bits)
      requires Sorted(rows)
      ensures r.Ok? ==> |r.value| == n
    {
      ReadOn([], off, n)
    }

    method ReadPiece(off: nat, n: nat) returns (piece: Bits)
      requires Valid() && n > 0
      modifies this, src.Repr()
      ensures Valid() && piece == PieceAt(off, n)
    {
      hide ChunkData, BisectRight, Slice, Valid, Sorted;
      ValidSorted();
      BisectFinds(rows, off);
      var b := BisectRight(rows, off);
      if b == 0 {
        return Err(BeforeFirstChunk);
      }
      var start, size := rows[b - 1].start, rows[b - 1].size;
      if off >= start + size {
        return Err(GapBetweenChunks);
      }
      var c := Chunk(b - 1);
      if c.Err? {
        return c;
      }
      piece := Ok(Slice(c.value, off - start, off - start + n));
      if piece.value == [] {
        return Err(NeverEnds);
      }
    }

    /** Whatever the rows and their data, the loop through the cache reads piece by piece. */
    method Read(off0: nat, n0: nat) returns (r: Bits)
      requires Valid()
      modifies this, src.Repr()
      ensures Valid() && r == ReadFrom(off0, n0)
    {
      hide Valid, Sorted, PieceAt, ChunkData;
      ValidSorted();
      var out: seq<byte>, off: nat, n: nat := [], off0, n0;
      while n > 0
        invariant Valid() && ReadOn(out, off, n) == ReadFrom(off0, n0)
      {
        PieceSize(off, n);
        var piece := ReadPiece(off, n);
        if piece.Err? {
          return piece;
        }
        out, off, n := out + piece.value, off + |piece.value|, n - |piece.value|;
      }
      r := Ok(out);
    }

    lemma ValidSorted()
      requires Valid()
      ensures Sorted(rows)
    {
    }

    // ---- rows of declared size ----------------------------------------------------------------

    lemma PieceBytes(off: nat, n: nat)
      requires Disjoint(rows) && Sorted(rows) && SizesHold() && n > 0
      ensures match PieceAt(off, n)
              case Err(e) => At()(off) == Err(e)
              case Ok(piece) => 0 < |piece| <= n && forall k :: 0 <= k < |piece| ==> At()(off + k) == Ok(piece[k])
    {
      BisectFinds(rows, off);
      var b := BisectRight(rows, off);
      if b > 0 && off < rows[b - 1].start + rows[b - 1].size {
        RowPiece(b - 1, off, n);
      } else {
        hide ChunkData, BisectRight;
      }
    }

    lemma RowPiece(i: nat, off: nat, n: nat)
      requires Disjoint(rows) && Sorted(rows) && SizesHold() && n > 0
      requires i < |rows| && rows[i].start <= off < rows[i].start + rows[i].size
      ensures match PieceAt(off, n)
              case Err(e) => At()(off) == Err(e)
              case Ok(piece) => 0 < |piece| <= n && forall k :: 0 <= k < |piece| ==> At()(off + k) == Ok(piece[k])
    {
      hide ByteAt, SizesHold, Disjoint, Sorted, ChunkData, BisectRight;
      BisectHits(rows, i, off);
      ByteInRow(i, off);
      if ChunkData(i).Ok? {
        var piece := Slice(ChunkData(i).value, off - rows[i].start, off - rows[i].start + n);
        forall k | 0 <= k < |piece| ensures At()(off + k) == Ok(piece[k]) { ByteInRow(i, off + k); }
      }
    }

    lemma {:induction false} ReadOnIsGather(off0: nat, n0: nat, out: seq<byte>, off: nat, n: nat)
      requires Disjoint(rows) && Sorted(rows) && SizesHold() && Sofar(At(), off0, n0, out, off, n)
      ensures ReadOn(out, off, n) == Gather(At(), off0, n0)
      decreases n
    {
      hide PieceAt, ByteAt, At, SizesHold, Disjoint, Sorted, Sofar, Gather;
      if n == 0 {
        SofarEnds(At(), off0, n0, out, off);
      } else {
        PieceBytes(off, n);
        if PieceAt(off, n).Ok? {
          var piece := PieceAt(off, n).value;
          SofarStep(At(), off0, n0, out, off, n, piece);
          ReadOnIsGather(off0, n0, out + piece, off + |piece|, n - |piece|);
        } else {
          SofarFails(At(), off0, n0, out, off, n);
        }
      }
    }

    /** Over rows that do not overlap and have their declared size, reading piece by piece is reading byte by
        byte. */
    lemma ReadIsGather(off: nat, n: nat)
      requires Disjoint(rows) && Sorted(rows) && SizesHold()
      ensures ReadFrom(off, n) == Gather(At(), off, n)
    {
      SofarStart(At(), off, n);
      hide ReadOn, Disjoint, Sorted, SizesHold, Sofar, Gather;
      ReadOnIsGather(off, n, [], off, n);
    }

    // ---- rows of another size -----------------------------------------------------------------

    /** How much of row i is ever looked for in it: up to its end, or to where the next row starts. If the rows do
        not overlap, that is its declared size. */
    function Reach(i: nat): int
      requires i < |rows|
    {
      if i + 1 < |rows| then Min(rows[i].size, rows[i + 1].start - rows[i].start) else rows[i].size
    }

    /** Every readable row has data as far as it is looked for. */
    ghost predicate LongEnough() {
      forall i :: 0 <= i < |rows| && ChunkData(i).Ok? ==> |ChunkData(i).value| >= Reach(i)
    }

    lemma ChunkErrors(i: nat)
      requires i < |rows|
      ensures ChunkData(i) != Err(NeverEnds)
    {
      hide Source.ReadSpec, Adc;
      var row := rows[i];
      src.ReadErrors(dataStart + row.coff, row.clen);
      var raw := src.ReadSpec(dataStart + row.coff, row.clen);
      if raw.Ok? { AdcErrors(raw.value, 0, [], row.size); }
    }

    lemma {:induction false} LongEnoughEnds(out: seq<byte>, off: nat, n: nat)
      requires Sorted(rows) && LongEnough()
      ensures ReadOn(out, off, n) != Err(NeverEnds)
      decreases n
    {
      hide PieceAt, LongEnough, Sorted;
      if n > 0 {
        PieceNotEmpty(off, n);
        PieceSize(off, n);
        if PieceAt(off, n).Ok? {
          var piece := PieceAt(off, n).value;
          LongEnoughEnds(out + piece, off + |piece|, n - |piece|);
        }
      }
    }

    lemma PieceNotEmpty(off: nat, n: nat)
      requires Sorted(rows) && LongEnough() && n > 0
      ensures PieceAt(off, n) != Err(NeverEnds)
    {
      BisectFinds(rows, off);
      hide ChunkData, BisectRight;
      var b := BisectRight(rows, off);
      if b > 0 { ChunkErrors(b - 1); }
    }

    ghost predicate AlwaysEnds()
      requires Sorted(rows)
    {
      forall off: nat, n: nat :: ReadFrom(off, n) != Err(NeverEnds)
    }

    /** Over any rows, every read ends if and only if no readable row has less data than is looked for in it. */
    lemma EndsIffLongEnough()
      requires Sorted(rows)
      ensures AlwaysEnds() <==> LongEnough()
    {
      hide Sorted, ReadOn, ChunkData, Reach;
      if LongEnough() {
        forall off: nat, n: nat ensures ReadFrom(off, n) != Err(NeverEnds) { LongEnoughEnds([], off, n); }
      }
      if AlwaysEnds() {
        forall i | 0 <= i < |rows| && ChunkData(i).Ok? ensures |ChunkData(i).value| >= Reach(i) {
          ShortRowSticks(i);
        }
      }
    }

    lemma ShortRowSticks(i: nat)
      requires Sorted(rows) && i < |rows| && ChunkData(i).Ok?
      ensures |ChunkData(i).value| < Reach(i) ==>
                ReadFrom(rows[i].start + |ChunkData(i).value|, 1) == Err(NeverEnds)
    {
      hide ChunkData, BisectRight, Sorted;
      if |ChunkData(i).value| < Reach(i) { BisectBetween(rows, i, rows[i].start + |ChunkData(i).value|); }
    }

    /** A row whose data is longer than it says is read on past its end: a read that starts in it takes from it
        all it holds. */
    lemma LongRowShadows(i: nat, off: nat, n: nat)
      requires Disjoint(rows) && Sorted(rows) && i < |rows|
      requires rows[i].start <= off < rows[i].start + rows[i].size
      requires ChunkData(i).Ok? && off - rows[i].start + n <= |ChunkData(i).value|
      ensures ReadFrom(off, n) == Ok(ChunkData(i).value[off - rows[i].start..off - rows[i].start + n])
    {
      hide ChunkData, BisectRight, Disjoint, Sorted, ReadOn;
      BisectHits(rows, i, off);
      var piece := ChunkData(i).value[off - rows[i].start..off - rows[i].start + n];
      if n > 0 { assert PieceAt(off, n) == Ok(piece); }
      hide PieceAt;
      WholePiece(off, n, piece);
    }

    /** Any part of a row, read by the number of its kind: zeros, the bytes of the image at its place, or what zlib,
        bz2 or ADC makes of them. */
    lemma RowReads(i: nat, a: nat, b: nat)
      requires Disjoint(rows) && Sorted(rows) && i < |rows| && a <= b <= rows[i].size && src.Shape()
      requires dataStart + rows[i].coff + rows[i].clen <= |src.Image()|
      ensures var row, r := rows[i], ReadFrom(rows[i].start + a, b - a);
              var raw := src.Image()[dataStart + row.coff..dataStart + row.coff + row.clen];
              && (row.kind == 0 || row.kind == 2 ==> r == Ok(Repeat<byte>(0, b - a)))
              && (row.kind == 1 && b <= |raw| ==> r == Ok(raw[a..b]))
              && (row.kind == 0x8000_0005 && zlib(raw).Some? && b <= |zlib(raw).value| ==>
                    r == Ok(zlib(raw).value[a..b]))
              && (row.kind == 0x8000_0006 && bz2(raw).Some? && b <= |bz2(raw).value| ==> r == Ok(bz2(raw).value[a..b]))
              && (row.kind == 0x8000_0004 ==>
                    var out := Adc(raw, 0, [], row.size); out.Ok? && b <= |out.value| ==> r == Ok(out.value[a..b]))
    {
      hide Disjoint, Sorted, ReadFrom, Adc;
      RowInNumbers(i);
      if ChunkData(i).Ok? && b <= |ChunkData(i).value| {
        ZerosOfZeros(rows[i].size, a, b);
        PartReads(i, ChunkData(i).value, a, b);
      }
      if a == b { NothingRead(rows[i].start + a); }
    }

    lemma PartReads(i: nat, data: seq<byte>, a: nat, b: nat)
      requires Disjoint(rows) && Sorted(rows) && i < |rows| && a <= b <= rows[i].size && b <= |data|
      requires ChunkData(i) == Ok(data)
      ensures ReadFrom(rows[i].start + a, b - a) == Ok(data[a..b])
    {
      hide Disjoint, Sorted, ReadFrom, ChunkData;
      if a < b {
        LongRowShadows(i, rows[i].start + a, b - a);
        assert rows[i].start + a - rows[i].start == a;
      } else {
        NothingRead(rows[i].start + a);
        assert data[a..b] == [];
      }
    }

    lemma ZerosOfZeros(n: nat, a: nat, b: nat)
      requires a <= b <= n
      ensures Repeat<byte>(0, n)[a..b] == Repeat<byte>(0, b - a)
    {
    }

    lemma NothingRead(off: nat)
      requires Sorted(rows)
      ensures ReadFrom(off, 0) == Ok([]) && Repeat<byte>(0, 0) == []
    {
    }

    /** Before all rows, or behind the one that starts last before it, nothing can be read. */
    lemma NoRowFails(off: nat, n: nat)
      requires Sorted(rows) && n > 0
      ensures (forall row :: row in rows ==> off < row.start) ==> ReadFrom(off, n) == Err(BeforeFirstChunk)
      ensures forall i :: 0 <= i < |rows| && rows[i].start + rows[i].size <= off
                          && (forall j :: i < j < |rows| ==> off < rows[j].start) ==>
                ReadFrom(off, n) == Err(GapBetweenChunks)
    {
      hide ChunkData, BisectRight;
      BisectFinds(rows, off);
    }

    /** And what cannot be made of them is an error at any byte of the row. */
    lemma RowFails(i: nat, a: nat, n: nat)
      requires Disjoint(rows) && Sorted(rows) && i < |rows| && a < rows[i].size && n > 0 && src.Shape()
      requires dataStart + rows[i].coff + rows[i].clen <= |src.Image()|
      ensures var row, r := rows[i], ReadFrom(rows[i].start + a, n);
              var raw := src.Image()[dataStart + row.coff..dataStart + row.coff + row.clen];
              && (row.kind == 0x8000_0005 && zlib(raw).None? ==> r == Err(DecompressFailed))
              && (row.kind == 0x8000_0006 && bz2(raw).None? ==> r == Err(DecompressFailed))
              && (row.kind == 0x8000_0004 && Adc(raw, 0, [], row.size).Err? ==> r == Err(IndexError))
              && (row.kind !in {0, 1, 2, 0x8000_0004, 0x8000_0005, 0x8000_0006} ==> r == Err(UnhandledKind))
    {
      hide Disjoint, Sorted, Adc, BisectRight;
      RowInNumbers(i);
      var row := rows[i];
      AdcErrors(src.Image()[dataStart + row.coff..dataStart + row.coff + row.clen], 0, [], row.size);
      BisectHits(rows, i, row.start + a);
    }

    lemma RowInNumbers(i: nat)
      requires i < |rows| && src.Shape() && dataStart + rows[i].coff + rows[i].clen <= |src.Image()|
      ensures var row := rows[i];
              var raw := src.Image()[dataStart + row.coff..dataStart + row.coff + row.clen];
              ChunkData(i) == (if row.kind == 0 || row.kind == 2 then Ok(Repeat<byte>(0, row.size))
                               else if row.kind == 1 then Ok(raw)
                               else if row.kind == 0x8000_0005 then Inflated(zlib(raw))
                               else if row.kind == 0x8000_0006 then Inflated(bz2(raw))
                               else if row.kind == 0x8000_0004 then Adc(raw, 0, [], row.size)
                               else Err(UnhandledKind))
    {
      hide Source.Shape, Source.Image, Source.ReadSpec, Adc;
      src.ReadIsSlice(dataStart + rows[i].coff, rows[i].clen);
    }

    /** A read that one piece answers. */
    lemma WholePiece(off: nat, n: nat, piece: seq<byte>)
      requires Sorted(rows) && |piece| == n && (n > 0 ==> PieceAt(off, n) == Ok(piece))
      ensures ReadFrom(off, n) == Ok(piece)
    {
      hide PieceAt, Sorted;
      assert [] + piece == piece;
      assert ReadOn(piece, off + n, 0) == Ok(piece);
    }
  }
}
