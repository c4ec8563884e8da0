/** rootfs-extract.py: exactly when its loops never end, with an image for each that keeps one going. */
module ImageTurns {
  import opened Bytes
  import opened ImageReaders
  import opened DmgReaders
  import opened ForkReaders
  import opened HfsExtents
  import opened StableSort
  import opened Loops

  // ---- reads of a partition ---------------------------------------------------------------------

  /** Where Udif.read is, and how much it still wants. */
  datatype ReadState = ReadState(off: nat, n: nat)

  /** One turn of its loop. */
  function NextRead(img: Udif, s: ReadState): Option<ReadState>
    requires Sorted(img.rows)
  {
    if s.n == 0 then None
    else
      match img.RawPiece(s.off, s.n)
      case Err(_) => None
      case Ok(piece) => Some(ReadState(s.off + |piece|, s.n - |piece|))
  }

  function ReadStep(img: Udif): ReadState -> Option<ReadState>
    requires Sorted(img.rows)
  {
    s => NextRead(img, s)
  }

  lemma OneRead(img: Udif, s0: ReadState, k: nat, s: ReadState)
    requires Sorted(img.rows) && After(ReadStep(img), s0, k) == Some(s)
    ensures After(ReadStep(img), s0, k + 1) == NextRead(img, s)
  {
    hide NextRead, Sorted;
  }

  lemma RawErrors(img: Udif, off: nat, n: nat)
    requires Sorted(img.rows) && n > 0
    ensures img.RawPiece(off, n) != Err(NeverEnds)
  {
    hide Udif.ChunkData, BisectRight;
    BisectFinds(img.rows, off);
    var b := BisectRight(img.rows, off);
    if b > 0 { img.ChunkErrors(b - 1); }
  }

  lemma {:induction false} ReadsFrom(img: Udif, s0: ReadState, k: nat, out: seq<byte>, s: ReadState)
    requires Sorted(img.rows) && After(ReadStep(img), s0, k) == Some(s)
    ensures img.ReadOn(out, s.off, s.n) == Err(NeverEnds) <==> Forever(ReadStep(img), s0)
    decreases s.n
  {
    hide Udif.RawPiece, Forever, After, Sorted, ReadStep;
    OneRead(img, s0, k, s);
    if s.n == 0 {
      Ends(ReadStep(img), s0, k + 1);
    } else {
      RawErrors(img, s.off, s.n);
      img.PieceSize(s.off, s.n);
      var raw := img.RawPiece(s.off, s.n);
      if raw.Err? {
        Ends(ReadStep(img), s0, k + 1);
      } else if raw.value == [] {
        Returns(ReadStep(img), s0, k, k + 1);
      } else {
        ReadsFrom(img, s0, k + 1, out + raw.value, ReadState(s.off + |raw.value|, s.n - |raw.value|));
      }
    }
  }

  /** A read is said never to end exactly if its loop has another turn after every turn. */
  lemma ReadEndlessIffForever(img: Udif, off: nat, n: nat)
    requires Sorted(img.rows)
    ensures img.ReadFrom(off, n) == Err(NeverEnds) <==> Forever(ReadStep(img), ReadState(off, n))
  {
    hide Forever, NextRead, Sorted, Udif.ReadOn;
    ReadsFrom(img, ReadState(off, n), 0, [], ReadState(off, n));
  }

  lemma OneRow(row: ChunkRow)
    requires IsData(row)
    ensures SortedRows([row]) == [row]
  {
    assert [row][1..] == [];
    assert Filter([row], IsData) == [row] + [];
    assert Sort([row], RowBefore) == Insert(row, [], RowBefore);
  }

  /** A stored row of 512 bytes with one byte behind it: to read the second one takes for ever. */
  method ShortRow(zlib: seq<byte> -> Option<seq<byte>>, bz2: seq<byte> -> Option<seq<byte>>) returns (img: Udif)
    ensures fresh(img) && img.Valid() && Sorted(img.rows) && img.src == Plain([0x61])
    ensures img.rows == [ChunkRow(0, 512, 1, 0, 1)] && img.dataStart == 0
    ensures img.ReadFrom(0, 1) == Ok([0x61])
    ensures Forever(ReadStep(img), ReadState(1, 1))
  {
    hide Udif.ChunkData, Udif.ReadOn, Udif.PieceAt, SortedRows, Forever, NextRead;
    var row := ChunkRow(0, 512, 1, 0, 1);
    img := new Udif(Plain([0x61]), 0, [row], zlib, bz2);
    OneRow(row);
    StoredData(img, 0);
    assert [0x61][0..1] == [0x61];
    img.LongRowShadows(0, 0, 1);
    img.ShortRowSticks(0);
    ReadEndlessIffForever(img, 1, 1);
  }

  lemma StoredData(img: Udif, i: nat)
    requires i < |img.rows| && img.rows[i].kind == 1 && img.src.Plain?
    requires img.dataStart + img.rows[i].coff + img.rows[i].clen <= |img.src.file|
    ensures var o := img.dataStart + img.rows[i].coff; img.ChunkData(i) == Ok(img.src.file[o..o + img.rows[i].clen])
  {
    RawRowIsImageSlice(img, i);
  }

  // ---- the walk along the leaves ----------------------------------------------------------------

  /** The leaf behind leaf n. */
  function NextLeaf(fork: Fork, ns: nat, cnid: nat, kind: nat, n: nat): Option<nat>
    requires Sorted(fork.img.rows)
  {
    if n == 0 then None
    else
      match fork.ReadFrom(n * ns, ns)
      case Err(_) => None
      case Ok(node) =>
        if |node| < 12 || NodeRecords(node, ns, 0, cnid, kind).Err? then None else Some(U32be(node, 0))
  }

  function LeafStep(fork: Fork, ns: nat, cnid: nat, kind: nat): nat -> Option<nat>
    requires Sorted(fork.img.rows)
  {
    n => NextLeaf(fork, ns, cnid, kind, n)
  }

  lemma OneLeaf(fork: Fork, ns: nat, cnid: nat, kind: nat, first: nat, k: nat, n: nat)
    requires Sorted(fork.img.rows) && After(LeafStep(fork, ns, cnid, kind), first, k) == Some(n)
    ensures After(LeafStep(fork, ns, cnid, kind), first, k + 1) == NextLeaf(fork, ns, cnid, kind, n)
  {
    hide NextLeaf, Sorted;
  }

  lemma {:induction false} NodeErrors(node: seq<byte>, ns: nat, i: nat, cnid: nat, kind: nat)
    requires |node| >= 12
    ensures NodeRecords(node, ns, i, cnid, kind) != Err(Endless)
    decreases U16be(node, 10) - i
  {
    hide U16be, U32be, UnpackU16, ExtentsIn;
    if i < U16be(node, 10) { NodeErrors(node, ns, i + 1, cnid, kind); }
  }

  lemma {:induction false} LeavesFrom(fork: Fork, ns: nat, cnid: nat, kind: nat, first: nat, k: nat, n: nat,
        seen: set<nat>)
    requires Sorted(fork.img.rows) && Fits32(n) && Numbers(seen)
    requires Visited(LeafStep(fork, ns, cnid, kind), first, k, seen)
    requires After(LeafStep(fork, ns, cnid, kind), first, k) == Some(n)
    ensures ChainRecords(fork, ns, n, seen, cnid, kind) == Err(Endless)
            <==> Forever(LeafStep(fork, ns, cnid, kind), first)
    decreases 0x1_0000_0000 - |seen|
  {
    hide Fork.ReadFrom, NodeRecords, U32be, Visited, Forever, After, Sorted, Numbers, Fits32, LeafStep;
    var step := LeafStep(fork, ns, cnid, kind);
    OneLeaf(fork, ns, cnid, kind, first, k, n);
    if n == 0 || !(n in seen || NextLeaf(fork, ns, cnid, kind, n).Some?) {
      Ends(step, first, k + 1);
      if n != 0 { LeafStops(fork, ns, cnid, kind, n, seen); }
    } else if n in seen {
      SeenAgain(step, first, k, seen, n);
    } else {
      var node := fork.ReadFrom(n * ns, ns).value;
      LinkFits(node, 0);
      HfsExtents.OneMore(seen, n);
      VisitedMore(step, first, k, seen, n);
      LeavesFrom(fork, ns, cnid, kind, first, k + 1, U32be(node, 0), seen + {n});
    }
  }

  lemma LeafStops(fork: Fork, ns: nat, cnid: nat, kind: nat, n: nat, seen: set<nat>)
    requires Sorted(fork.img.rows) && Fits32(n) && Numbers(seen) && n != 0 && n !in seen
    requires NextLeaf(fork, ns, cnid, kind, n).None?
    ensures ChainRecords(fork, ns, n, seen, cnid, kind) != Err(Endless)
  {
    hide Fork.ReadFrom, NodeRecords, U32be, Sorted, Numbers, Fits32;
    var node := fork.ReadFrom(n * ns, ns);
    if node.Ok? && |node.value| >= 12 { NodeErrors(node.value, ns, 0, cnid, kind); }
  }

  /** The walk is said never to end exactly if the links lead on after every leaf. */
  lemma LeavesEndlessIffForever(fork: Fork, hdr: seq<byte>, cnid: nat, kind: nat)
    requires Sorted(fork.img.rows) && fork.ReadFrom(0, 512) == Ok(hdr) && |hdr| >= 34
    ensures LeafRecords(fork, cnid, kind) == Err(Endless)
            <==> Forever(LeafStep(fork, U16be(hdr, 32), cnid, kind), U32be(hdr, 24))
  {
    hide Fork.ReadFrom, U32be, U16be, ChainRecords, Forever, Sorted, NextLeaf, After, Visited, LeafStep;
    hide Fits32, Numbers;
    var ns, first := U16be(hdr, 32), U32be(hdr, 24);
    LinkFits(hdr, 24);
    NoNumbers();
    StartsFresh(LeafStep(fork, ns, cnid, kind), first);
    LeavesFrom(fork, ns, cnid, kind, first, 0, first, {});
  }

  // ---- a leaf that links to itself --------------------------------------------------------------

  /** A header node (node size 512, first leaf 1), and leaf 1 without records and with itself behind it. */
  function CircleFile(): (file: seq<byte>)
    ensures |file| == 1024
  {
    seq(1024, i requires 0 <= i < 1024 => if i == 27 || i == 515 then 1 else if i == 32 then 2 else 0)
  }

  lemma CircleNumbers()
    ensures U32be(CircleFile()[..512], 24) == 1 && U16be(CircleFile()[..512], 32) == 512
    ensures U32be(CircleFile()[512..], 0) == 1 && U16be(CircleFile()[512..], 10) == 0
  {
    var h, l := CircleFile()[..512], CircleFile()[512..];
    assert h[24..28] == [0, 0, 0, 1] == l[0..4] && h[32..34] == [2, 0] && l[10..12] == [0, 0];
    BytesOfWord(h[24..28]);
    BytesOfWord(l[0..4]);
    BytesOfHalf(h[32..34]);
    BytesOfHalf(l[10..12]);
  }

  lemma BytesOfHalf(s: seq<byte>)
    requires |s| == 2
    ensures BE(s) == s[0] as int * 256 + s[1]
  {
    assert s[..1][..0] == [];
    assert BE(s[..1]) == BE([]) * 256 + s[0];
  }

  /** A tree file of two blocks in one stored row of a plain image. */
  ghost predicate HoldsCircle(fork: Fork) {
    && fork.img.src == Plain(CircleFile()) && fork.img.dataStart == 0
    && fork.img.rows == [ChunkRow(0, 1024, 1, 0, 1024)]
    && fork.bs == 512 && fork.size == 1024 && fork.ext == [Extent(0, 2)]
  }

  lemma CircleFlat(fork: Fork)
    requires HoldsCircle(fork)
    ensures Flattens(fork.img) && Flat(fork.img) == CircleFile()
  {
    var img := fork.img;
    hide Udif.ChunkData;
    StoredData(img, 0);
    assert CircleFile()[0..1024] == CircleFile();
    assert Flattens(img);
    assert FlatTo(img, 0) == [] && FlatTo(img, 1) == [] + CircleFile();
  }

  lemma CircleReads(fork: Fork)
    requires HoldsCircle(fork)
    ensures Sorted(fork.img.rows)
    ensures fork.ReadFrom(0, 512) == Ok(CircleFile()[..512]) && fork.ReadFrom(512, 512) == Ok(CircleFile()[512..])
  {
    CircleFlat(fork);
    assert fork.Covered() by { assert Blocks(fork.ext) == 2 + Blocks([]); }
    CircleLogical();
    hide Flattens, Flat, Logical, Fork.ReadFrom, Fork.Covered;
    StackIsFlat(fork, 0, 512);
    StackIsFlat(fork, 512, 512);
    assert CircleFile()[0..512] == CircleFile()[..512] && CircleFile()[512..1024] == CircleFile()[512..];
  }

  lemma CircleLogical()
    ensures Inside([Extent(0, 2)], 512, 1024) && Logical(CircleFile(), [Extent(0, 2)], 512) == CircleFile()
  {
    var ext := [Extent(0, 2)];
    assert ext[1..] == [] && CircleFile()[0..1024] == CircleFile();
    assert Logical(CircleFile(), ext, 512) == CircleFile()[0..1024] + [];
  }

  /** Whatever file is looked for. */
  lemma CircleEndless(fork: Fork, cnid: nat, kind: nat)
    requires HoldsCircle(fork)
    ensures Sorted(fork.img.rows) && LeafRecords(fork, cnid, kind) == Err(Endless)
    ensures Forever(LeafStep(fork, 512, cnid, kind), 1)
  {
    CircleReads(fork);
    CircleNumbers();
    hide Fork.ReadFrom, Sorted, LeafRecords, Forever, U32be, U16be;
    assert NextLeaf(fork, 512, cnid, kind, 1) == Some(1);
    hide NextLeaf;
    OneLeaf(fork, 512, cnid, kind, 1, 0, 1);
    Returns(LeafStep(fork, 512, cnid, kind), 1, 0, 1);
    LeavesEndlessIffForever(fork, CircleFile()[..512], cnid, kind);
  }

  method Circle(zlib: seq<byte> -> Option<seq<byte>>, bz2: seq<byte> -> Option<seq<byte>>) returns (fork: Fork)
    ensures fresh(fork.img) && fork.img.Valid() && HoldsCircle(fork)
  {
    hide Udif.ChunkData, SortedRows;
    var row := ChunkRow(0, 1024, 1, 0, 1024);
    var img := new Udif(Plain(CircleFile()), 0, [row], zlib, bz2);
    OneRow(row);
    fork := Fork(img, 512, 1024, [Extent(0, 2)]);
  }
}
