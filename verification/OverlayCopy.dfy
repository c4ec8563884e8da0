/** linux_boot.c: copy_overlay, and what the kernel finds in memory after it. */
module OverlayCopy {
  import opened Bytes
  import opened CpioFormat
  import opened CpioWriters
  import opened BootBundle
  import FdtPatch
  import FdtRewalk

  /** Where dest lies in memory that starts at LOAD. */
  const DEST := OVERLAY_PHYS - LOAD

  /** A machine with room for the largest overlay, in a 32-bit address space. */
  predicate HasRoom(m: seq<byte>) {
    DEST + OVERLAY_MAX <= |m| <= 0x8000_0000
  }

  // ---- the loop ---------------------------------------------------------------------------------

  function CopyWord(m: seq<byte>, s: nat, d: nat): (r: seq<byte>)
    requires s + 4 <= |m| && d + 4 <= |m|
    ensures |r| == |m|
  {
    m[..d] + m[s..s + 4] + m[d + 4..]
  }

  /** n words moved up one after the other, whatever they overlap. */
  function CopyWords(m: seq<byte>, src: nat, dst: nat, n: nat): (r: seq<byte>)
    requires src + 4 * n <= |m| && dst + 4 * n <= |m|
    ensures |r| == |m|
  {
    if n == 0 then m else CopyWord(CopyWords(m, src, dst, n - 1), src + 4 * (n - 1), dst + 4 * (n - 1))
  }

  /** size + 3 in 32 bits, over 4. */
  function Words(size: nat): nat {
    (size + 3) % 0x1_0000_0000 / 4
  }

  predicate HeaderSet(m: seq<byte>)
    requires |m| >= KERNEL_OFF
  {
    U32le(m, HDR_OFF) == MAGIC && U32le(m, HDR_OFF + 8) != 0
  }

  /** The copy stays inside memory, as the code relies on. */
  predicate CopySafe(m: seq<byte>)
    requires |m| >= KERNEL_OFF
  {
    HeaderSet(m) ==>
      var n := Words(U32le(m, HDR_OFF + 8));
      && U32le(m, HDR_OFF + 4) + 4 * n <= |m|
      && LOAD <= U32le(m, HDR_OFF + 12) && U32le(m, HDR_OFF + 12) - LOAD + 4 * n <= |m|
  }

  function AfterCopy(m: seq<byte>): (r: seq<byte>)
    requires |m| >= KERNEL_OFF && CopySafe(m)
    ensures |r| == |m|
  {
    if HeaderSet(m)
    then CopyWords(m, U32le(m, HDR_OFF + 4), U32le(m, HDR_OFF + 12) - LOAD, Words(U32le(m, HDR_OFF + 8)))
    else m
  }

  method MoveWord(mem: array<byte>, s: nat, d: nat)
    requires s + 4 <= mem.Length && d + 4 <= mem.Length
    modifies mem
    ensures mem[..] == CopyWord(old(mem[..]), s, d)
  {
    ghost var m := mem[..];
    mem[d], mem[d + 1], mem[d + 2], mem[d + 3] := mem[s], mem[s + 1], mem[s + 2], mem[s + 3];
    ghost var r := CopyWord(m, s, d);
    assert r[d] == m[s] && r[d + 1] == m[s + 1] && r[d + 2] == m[s + 2] && r[d + 3] == m[s + 3];
    assert forall i :: 0 <= i < |m| && !(d <= i < d + 4) ==> r[i] == m[i] == mem[i];
  }

  method CopyOverlay(mem: array<byte>)
    requires KERNEL_OFF <= mem.Length <= 0x8000_0000 && CopySafe(mem[..])
    modifies mem
    ensures mem[..] == AfterCopy(old(mem[..]))
  {
    hide U32le, CopyWord, Words;
    ghost var m := mem[..];
    if U32le(mem[..], HDR_OFF) != MAGIC || U32le(mem[..], HDR_OFF + 8) == 0 {
      return;
    }
    var src := U32le(mem[..], HDR_OFF + 4);
    var dst := U32le(mem[..], HDR_OFF + 12) - LOAD;
    var words := Words(U32le(mem[..], HDR_OFF + 8));
    var n := words;
    ghost var src0, dst0 := src, dst;
    while n > 0
      invariant 0 <= n <= words
      invariant src == src0 + 4 * (words - n) && dst == dst0 + 4 * (words - n)
      invariant src0 + 4 * words <= |m| == mem.Length && dst0 + 4 * words <= |m|
      invariant mem[..] == CopyWords(m, src0, dst0, words - n)
    {
      MoveWord(mem, src, dst);
      src, dst, n := src + 4, dst + 4, n - 1;
    }
  }

  // ---- without overlap --------------------------------------------------------------------------

  /** Where the two ranges do not meet, the words copied are the source's bytes and nothing else moves. */
  lemma {:induction false} CopiesRange(m: seq<byte>, src: nat, dst: nat, n: nat)
    requires src + 4 * n <= |m| && dst + 4 * n <= |m|
    requires src + 4 * n <= dst || dst + 4 * n <= src
    ensures CopyWords(m, src, dst, n) == m[..dst] + m[src..src + 4 * n] + m[dst + 4 * n..]
  {
    hide CopyWord;
    if n == 0 {
      assert m == m[..dst] + m[src..src] + m[dst..];
    } else {
      CopiesRange(m, src, dst, n - 1);
      NextWord(m, src, dst, n - 1);
    }
  }

  lemma NextWord(m: seq<byte>, src: nat, dst: nat, n: nat)
    requires src + 4 * n + 4 <= |m| && dst + 4 * n + 4 <= |m|
    requires src + 4 * n + 4 <= dst || dst + 4 * n + 4 <= src
    ensures CopyWord(m[..dst] + m[src..src + 4 * n] + m[dst + 4 * n..], src + 4 * n, dst + 4 * n)
            == m[..dst] + m[src..src + 4 * n + 4] + m[dst + 4 * n + 4..]
  {
    var w := m[..dst] + m[src..src + 4 * n] + m[dst + 4 * n..];
    assert w[src + 4 * n..src + 4 * n + 4] == m[src + 4 * n..src + 4 * n + 4];
    assert w[..dst + 4 * n] == m[..dst] + m[src..src + 4 * n];
    assert w[dst + 4 * n + 4..] == m[dst + 4 * n + 4..];
    assert m[src..src + 4 * n + 4] == m[src..src + 4 * n] + m[src + 4 * n..src + 4 * n + 4];
  }

  // ---- the image --------------------------------------------------------------------------------

  /** Loader, header, kernel and overlay each in their place, none touching another. */
  ghost predicate LaidOut(b: seq<byte>, ld: seq<byte>, kern: seq<byte>, ovl: seq<byte>, src: nat) {
    && |ld| <= HDR_OFF && KERNEL_OFF + |kern| <= src && src + |ovl| == |b| <= DEST
    && b[..|ld|] == ld && b[KERNEL_OFF..KERNEL_OFF + |kern|] == kern && b[src..] == ovl
    && b[HDR_OFF..HDR_OFF + 16] == if ovl == [] then Repeat(0, 16) else OverlayHeader(src, |ovl|)
  }

  lemma BaseParts(ld: seq<byte>, kern: seq<byte>)
    requires |ld| <= HDR_OFF
    ensures var b := Base(ld, kern);
            && b[..|ld|] == ld && b[KERNEL_OFF..KERNEL_OFF + |kern|] == kern
            && b[HDR_OFF..HDR_OFF + 16] == Repeat(0, 16) && |b| % 4096 == 0
  {
    var fill: seq<byte> := Repeat(0, KERNEL_OFF - |ld|);
    var n := |ld + fill + kern|;
    assert n == n / 4096 * 4096 + n % 4096;
    assert (n + Padding(n, 4096)) % 4096 == 0;
    hide Padding, Repeat;
  }

  lemma HeaderKeepsParts(b: seq<byte>, h: seq<byte>, lo: nat, hi: nat)
    requires |b| >= KERNEL_OFF && |h| == 16 && lo <= hi <= |b| && (hi <= HDR_OFF || HDR_OFF + 16 <= lo)
    ensures WithHeader(b, h)[lo..hi] == b[lo..hi] && WithHeader(b, h)[HDR_OFF..HDR_OFF + 16] == h
  {
  }

  lemma PrefixParts(base: seq<byte>, ovl: seq<byte>, lo: nat, hi: nat)
    requires lo <= hi <= |base|
    ensures (base + ovl)[lo..hi] == base[lo..hi] && (base + ovl)[|base|..] == ovl
  {
  }

  lemma ImageLaidOut(ld: seq<byte>, kern: seq<byte>, ovl: seq<byte>)
    requires |ld| <= HDR_OFF && Image(ld, kern, ovl).Ok?
    ensures LaidOut(Image(ld, kern, ovl).value, ld, kern, ovl, |Base(ld, kern)|)
    ensures |Base(ld, kern)| % 4096 == 0
  {
    BaseParts(ld, kern);
    hide Base, OverlayHeader, WithHeader, Repeat;
    var base := Base(ld, kern);
    PrefixParts(base, ovl, 0, |ld|);
    PrefixParts(base, ovl, KERNEL_OFF, KERNEL_OFF + |kern|);
    PrefixParts(base, ovl, HDR_OFF, HDR_OFF + 16);
    if ovl != [] {
      var h := OverlayHeader(|base|, |ovl|);
      HeaderKeepsParts(base + ovl, h, 0, |ld|);
      HeaderKeepsParts(base + ovl, h, KERNEL_OFF, KERNEL_OFF + |kern|);
      HeaderKeepsParts(base + ovl, h, |base|, |base + ovl|);
    }
  }

  // ---- the header read in memory ----------------------------------------------------------------

  lemma HeaderFields(h: seq<byte>, off: nat, n: nat)
    requires h == OverlayHeader(off, n) && Fits32(off) && Fits32(n)
    ensures LE(h[0..4]) == MAGIC && LE(h[4..8]) == off && LE(h[8..12]) == n && LE(h[12..16]) == OVERLAY_PHYS
  {
    var a, b, c, d := ToLE(MAGIC, 4), ToLE(off, 4), ToLE(n, 4), ToLE(OVERLAY_PHYS, 4);
    assert h == a + b + c + d;
    assert h[0..4] == a && h[4..8] == b && h[8..12] == c && h[12..16] == d;
    assert Pow256(4) == 256 * (256 * (256 * 256));
    hide ToLE, LE;
    LERoundTrip(MAGIC, 4);
    LERoundTrip(off, 4);
    LERoundTrip(n, 4);
    LERoundTrip(OVERLAY_PHYS, 4);
  }

  lemma FieldInMemory(m: seq<byte>, h: seq<byte>, i: nat)
    requires |m| >= KERNEL_OFF && m[HDR_OFF..HDR_OFF + 16] == h && i + 4 <= 16
    ensures U32le(m, HDR_OFF + i) == LE(h[i..i + 4])
  {
    SliceOfSlice(m, HDR_OFF, HDR_OFF + 16, i, i + 4);
  }

  lemma NoHeader(m: seq<byte>)
    requires |m| >= KERNEL_OFF && m[HDR_OFF..HDR_OFF + 16] == Repeat(0, 16)
    ensures U32le(m, HDR_OFF) == 0
  {
    FieldInMemory(m, Repeat(0, 16), 0);
    var z: seq<byte> := Repeat(0, 16)[0..4];
    assert z == [0, 0, 0, 0];
    assert z[1..] == [0, 0, 0] && z[1..][1..] == [0, 0] && z[1..][1..][1..] == [0];
  }

  lemma HeaderIsRead(m: seq<byte>, off: nat, n: nat)
    requires |m| >= KERNEL_OFF && m[HDR_OFF..HDR_OFF + 16] == OverlayHeader(off, n) && Fits32(off) && Fits32(n)
    ensures U32le(m, HDR_OFF) == MAGIC && U32le(m, HDR_OFF + 4) == off
    ensures U32le(m, HDR_OFF + 8) == n && U32le(m, HDR_OFF + 12) == OVERLAY_PHYS
  {
    hide OverlayHeader, U32le, LE;
    var h := OverlayHeader(off, n);
    HeaderFields(h, off, n);
    FieldInMemory(m, h, 0);
    FieldInMemory(m, h, 4);
    FieldInMemory(m, h, 8);
    FieldInMemory(m, h, 12);
  }

  lemma MemoryPart(m: seq<byte>, b: seq<byte>, lo: nat, hi: nat)
    requires |b| <= |m| && m[..|b|] == b && lo <= hi <= |b|
    ensures m[lo..hi] == b[lo..hi]
  {
    assert m[0..|b|] == b;
    SliceOfSlice(m, 0, |b|, lo, hi);
  }

  // ---- the result -------------------------------------------------------------------------------

  /** Exactly the overlay's bytes at DEST, and every other byte as it was. */
  function WithOverlay(m: seq<byte>, ovl: seq<byte>): (r: seq<byte>)
    requires DEST + |ovl| <= |m|
    ensures |r| == |m|
  {
    m[..DEST] + ovl + m[DEST + |ovl|..]
  }

  lemma BundleLaidOut(ld: seq<byte>, kern: seq<byte>, ovl: seq<byte>)
    requires Bundle(ld, kern, ovl).Ok?
    ensures |ovl| <= OVERLAY_MAX && |ld| <= HDR_OFF && PatchedKernel(kern, |ovl|).Ok?
    ensures var k := PatchedKernel(kern, |ovl|).value;
            LaidOut(Bundle(ld, kern, ovl).value, ld, k, ovl, |Base(ld, k)|)
  {
    assert |ovl| <= OVERLAY_MAX by { hide FdtPatch.Patched, LastMagic, U32be; }
    hide PatchedKernel, Image, Base, LaidOut;
    ImageLaidOut(ld, PatchedKernel(kern, |ovl|).value, ovl);
  }

  lemma WordsOf(n: nat)
    requires n <= OVERLAY_MAX
    ensures n <= 4 * Words(n) < n + 4 && (4 * Words(n) == n <==> n % 4 == 0)
  {
  }

  lemma NothingArrives(m: seq<byte>)
    requires HasRoom(m) && m[HDR_OFF..HDR_OFF + 16] == Repeat(0, 16)
    ensures CopySafe(m) && AfterCopy(m) == WithOverlay(m, [])
  {
    hide U32le;
    NoHeader(m);
    assert m == m[..DEST] + [] + m[DEST..];
  }

  lemma WordsArrive(m: seq<byte>, src: nat, ovl: seq<byte>)
    requires HasRoom(m) && 0 < |ovl| <= OVERLAY_MAX && |ovl| % 4 == 0
    requires KERNEL_OFF <= src && src + |ovl| <= DEST && m[src..src + |ovl|] == ovl
    requires m[HDR_OFF..HDR_OFF + 16] == OverlayHeader(src, |ovl|)
    ensures CopySafe(m) && AfterCopy(m) == WithOverlay(m, ovl)
  {
    hide U32le, OverlayHeader, Words, CopyWords;
    HeaderIsRead(m, src, |ovl|);
    WordsOf(|ovl|);
    CopiesRange(m, src, DEST, Words(|ovl|));
  }

  /** For every bundle that assemble.py accepts, with an overlay of whole words: the copy is inside memory
      and puts the overlay's bytes at dest; without an overlay nothing is copied. */
  lemma OverlayArrives(m: seq<byte>, ld: seq<byte>, kern: seq<byte>, ovl: seq<byte>)
    requires HasRoom(m) && Bundle(ld, kern, ovl).Ok? && Bundle(ld, kern, ovl).value <= m && |ovl| % 4 == 0
    ensures |ovl| <= OVERLAY_MAX && CopySafe(m) && AfterCopy(m) == WithOverlay(m, ovl)
  {
    hide Bundle, PatchedKernel, Base, U32le, OverlayHeader, AfterCopy, CopySafe, WithOverlay;
    BundleLaidOut(ld, kern, ovl);
    var b, src := Bundle(ld, kern, ovl).value, |Base(ld, PatchedKernel(kern, |ovl|).value)|;
    assert m[..|b|] == b;
    MemoryPart(m, b, HDR_OFF, HDR_OFF + 16);
    MemoryPart(m, b, src, |b|);
    if ovl == [] {
      NothingArrives(m);
    } else {
      WordsArrive(m, src, ovl);
    }
  }

  /** The kernel in the image is the given one, except that its appended devicetree is patched: the /chosen
      cells of that devicetree, and nothing else, now bound the overlay. */
  lemma KernelCells(kern: seq<byte>, n: nat)
    requires PatchedKernel(kern, n).Ok?
    ensures n <= OVERLAY_MAX && LastMagic(kern, |kern|).Some? && LastMagic(kern, |kern|).value + 8 <= |kern|
    ensures exists c :: DtbCells(kern, PatchedKernel(kern, n).value, LastMagic(kern, |kern|).value, c, n)
  {
    hide PatchedKernel, LastMagic, U32be, DtbAt, DtbCells, FdtRewalk.CellsOf, FdtRewalk.AgreesOff, FdtPatch.Patched;
    PatchedKernelIs(kern, n);
    var k, off := PatchedKernel(kern, n).value, LastMagic(kern, |kern|).value;
    var dtb := DtbAt(kern, off);
    var o := FdtPatch.Patched(dtb, OVERLAY_PHYS, OVERLAY_PHYS + n);
    var c := CellsWhenPatched(dtb, OVERLAY_PHYS, OVERLAY_PHYS + n);
    CellsSet(dtb, c, n);
    DtbInKernel(kern, off, dtb, o.blob, c, n);
  }

  lemma PatchedKernelIs(kern: seq<byte>, n: nat)
    requires PatchedKernel(kern, n).Ok?
    ensures n <= OVERLAY_MAX && LastMagic(kern, |kern|).Some? && LastMagic(kern, |kern|).value + 8 <= |kern|
    ensures var off := LastMagic(kern, |kern|).value;
            var dtb := DtbAt(kern, off);
            var o := FdtPatch.Patched(dtb, OVERLAY_PHYS, OVERLAY_PHYS + n);
            o.problem.None? && PatchedKernel(kern, n).value == kern[..off] + o.blob + kern[off + |dtb|..]
  {
    hide LastMagic, DtbAt, FdtPatch.Patched;
  }

  /** The devicetree of kern at off has the cells c, and in k it is the patched one. */
  ghost predicate DtbCells(kern: seq<byte>, k: seq<byte>, off: nat, c: FdtRewalk.Cells, n: nat)
    requires off + 8 <= |kern|
  {
    var dtb := DtbAt(kern, off);
    && FdtRewalk.CellsOf(dtb, c)
    && |k| == |kern| && off + c.start + 4 <= |k| && off + c.end + 4 <= |k|
    && U32be(k, off + c.start) == OVERLAY_PHYS && U32be(k, off + c.end) == OVERLAY_PHYS + n
    && k[off..off + |dtb|] == FdtPatch.Patched(dtb, OVERLAY_PHYS, OVERLAY_PHYS + n).blob
    && FdtRewalk.AgreesOff(kern, k, off + c.start, off + c.end)
  }

  lemma CellsWhenPatched(dtb: seq<byte>, start: nat, end: nat) returns (c: FdtRewalk.Cells)
    requires FdtPatch.Patched(dtb, start, end).problem.None?
    ensures FdtRewalk.CellsOf(dtb, c)
  {
    hide FdtPatch.Scan, FdtPatch.Collect, FdtPatch.Write32;
    var f := FdtPatch.Collect(FdtPatch.Scan(dtb).value);
    c := FdtRewalk.Cells(f.start.value, f.end.value);
  }

  lemma CellsSet(dtb: seq<byte>, c: FdtRewalk.Cells, n: nat)
    requires FdtRewalk.CellsOf(dtb, c) && n <= OVERLAY_MAX
    ensures var o := FdtPatch.Patched(dtb, OVERLAY_PHYS, OVERLAY_PHYS + n);
            && |o.blob| == |dtb| && c.start + 4 <= |dtb| && c.end + 4 <= |dtb|
            && U32be(o.blob, c.start) == OVERLAY_PHYS && U32be(o.blob, c.end) == OVERLAY_PHYS + n
            && FdtRewalk.AgreesOff(dtb, o.blob, c.start, c.end)
  {
    hide FdtPatch.Patched, FdtPatch.Scan, FdtPatch.Collect, FdtPatch.Write32, U32be, FdtRewalk.AgreesOff;
    FdtRewalk.PatchedIs(dtb, c, OVERLAY_PHYS, OVERLAY_PHYS + n);
    FdtRewalk.CellsApart(dtb, c);
    FdtRewalk.CellsReadBack(dtb, c, OVERLAY_PHYS, OVERLAY_PHYS + n);
    FdtRewalk.WritesAgree(dtb, c, OVERLAY_PHYS, OVERLAY_PHYS + n);
  }

  lemma DtbInKernel(kern: seq<byte>, off: nat, dtb: seq<byte>, blob: seq<byte>, c: FdtRewalk.Cells, n: nat)
    requires off + 8 <= |kern| && dtb == DtbAt(kern, off) && |blob| == |dtb|
    requires blob == FdtPatch.Patched(dtb, OVERLAY_PHYS, OVERLAY_PHYS + n).blob && FdtRewalk.CellsOf(dtb, c)
    requires c.start + 4 <= |dtb| && c.end + 4 <= |dtb|
    requires U32be(blob, c.start) == OVERLAY_PHYS && U32be(blob, c.end) == OVERLAY_PHYS + n
    requires FdtRewalk.AgreesOff(dtb, blob, c.start, c.end)
    ensures DtbCells(kern, kern[..off] + blob + kern[off + |dtb|..], off, c, n)
  {
    hide DtbAt, FdtPatch.Patched, FdtRewalk.CellsOf, U32be;
    var k := kern[..off] + blob + kern[off + |dtb|..];
    assert k[off..off + |dtb|] == blob;
    BlobWord(k, off, blob, c.start);
    BlobWord(k, off, blob, c.end);
    BlobAgrees(kern, k, off, dtb, blob, c);
  }

  lemma BlobWord(k: seq<byte>, off: nat, blob: seq<byte>, at: nat)
    requires off + |blob| <= |k| && k[off..off + |blob|] == blob && at + 4 <= |blob|
    ensures U32be(k, off + at) == U32be(blob, at)
  {
    SliceOfSlice(k, off, off + |blob|, at, at + 4);
  }

  lemma BlobAgrees(kern: seq<byte>, k: seq<byte>, off: nat, dtb: seq<byte>, blob: seq<byte>, c: FdtRewalk.Cells)
    requires off + |dtb| <= |kern| && kern[off..off + |dtb|] == dtb && |blob| == |dtb|
    requires k == kern[..off] + blob + kern[off + |dtb|..] && FdtRewalk.AgreesOff(dtb, blob, c.start, c.end)
    ensures FdtRewalk.AgreesOff(kern, k, off + c.start, off + c.end)
  {
    forall i | 0 <= i < |kern| && !(off + c.start <= i < off + c.start + 4) && !(off + c.end <= i < off + c.end + 4)
      ensures k[i] == kern[i]
    {
      if off <= i < off + |dtb| {
        assert k[i] == blob[i - off] == dtb[i - off] == kern[off..off + |dtb|][i - off];
      }
    }
  }

  // ---- from the directory tree to the kernel's initramfs ----------------------------------------

  /** In memory, at the given place, lies the devicetree of the kernel with its two /chosen cells set, and they
      bound an archive that lists the tree: every member in order with its contents, all of them unless one is
      called TRAILER!!!. Where no property name overlaps the cells, a walk of it finds these very cells. */
  ghost predicate InitrdLists(m: seq<byte>, at: nat, dtb: seq<byte>, nodes: seq<Node>) {
    exists c: FdtRewalk.Cells :: InitrdAt(m, at, dtb, c, nodes)
  }

  ghost predicate InitrdAt(m: seq<byte>, at: nat, dtb: seq<byte>, c: FdtRewalk.Cells, nodes: seq<Node>) {
    && FdtRewalk.CellsOf(dtb, c)
    && at + |dtb| <= |m| && at + c.start + 4 <= |m| && at + c.end + 4 <= |m|
    && FdtRewalk.AgreesOff(dtb, m[at..at + |dtb|], c.start, c.end)
    && (FdtRewalk.Patchable(dtb, c) ==> FdtRewalk.CellsOf(m[at..at + |dtb|], c))
    && LOAD <= U32be(m, at + c.start) <= U32be(m, at + c.end) <= LOAD + |m|
    && Lists(m[U32be(m, at + c.start) - LOAD..U32be(m, at + c.end) - LOAD], nodes)
  }

  ghost predicate Lists(archive: seq<byte>, nodes: seq<Node>) {
    var got := Contents(archive);
    && got.ending.Complete? && |got.members| <= |nodes|
    && (forall i :: 0 <= i < |got.members| ==> got.members[i] == NodeMember(nodes[i]))
    && (|got.members| == |nodes| <==> forall n :: n in nodes ==> n.name != TRAILER)
  }

  lemma CellInMemory(m: seq<byte>, k: seq<byte>, at: nat)
    requires KERNEL_OFF + |k| <= |m| && m[KERNEL_OFF..KERNEL_OFF + |k|] == k && at + 4 <= |k|
    ensures U32be(m, KERNEL_OFF + at) == U32be(k, at)
  {
    SliceOfSlice(m, KERNEL_OFF, KERNEL_OFF + |k|, at, at + 4);
  }

  /** The kernel's place in memory is not touched by the copy. */
  lemma KernelStays(m: seq<byte>, ld: seq<byte>, kern: seq<byte>, ovl: seq<byte>)
    requires HasRoom(m) && Bundle(ld, kern, ovl).Ok? && Bundle(ld, kern, ovl).value <= m && |ovl| <= OVERLAY_MAX
    ensures var m', k := WithOverlay(m, ovl), PatchedKernel(kern, |ovl|).value;
            && PatchedKernel(kern, |ovl|).Ok? && KERNEL_OFF + |k| <= DEST
            && m'[KERNEL_OFF..KERNEL_OFF + |k|] == k && m'[..|ld|] == ld
            && m'[DEST..DEST + |ovl|] == ovl
  {
    hide Bundle, PatchedKernel, Base, OverlayHeader;
    BundleLaidOut(ld, kern, ovl);
    var b, k, m' := Bundle(ld, kern, ovl).value, PatchedKernel(kern, |ovl|).value, WithOverlay(m, ovl);
    assert m[..|b|] == b;
    MemoryPart(m, b, 0, |ld|);
    MemoryPart(m, b, KERNEL_OFF, KERNEL_OFF + |k|);
    assert m'[..DEST] == m[..DEST];
    MemoryPart(m', m[..DEST], 0, |ld|);
    MemoryPart(m', m[..DEST], KERNEL_OFF, KERNEL_OFF + |k|);
    MemoryPart(m, m[..DEST], 0, |ld|);
    MemoryPart(m, m[..DEST], KERNEL_OFF, KERNEL_OFF + |k|);
  }

  lemma TreeLists(nodes: seq<Node>)
    requires TreeFits(nodes)
    ensures Lists(TreeArchive(nodes), nodes)
  {
    hide TreeArchive, Contents, NodeMember, TreeFits;
    TreeReadsBack(nodes);
  }

  lemma WholeWords(n: nat)
    requires n % 512 == 0
    ensures n % 4 == 0
  {
    assert n == 512 * (n / 512);
  }

  /** From tree to boot: whenever assemble.py accepts, the loader's copy leaves in memory, where the
      devicetree says, an archive of exactly the tree. */
  lemma BootFindsTree(m: seq<byte>, ld: seq<byte>, kern: seq<byte>, nodes: seq<Node>)
    requires TreeFits(nodes) && HasRoom(m)
    requires Bundle(ld, kern, TreeArchive(nodes)).Ok? && Bundle(ld, kern, TreeArchive(nodes)).value <= m
    ensures CopySafe(m) && LastMagic(kern, |kern|).Some? && LastMagic(kern, |kern|).value + 8 <= |kern|
    ensures var off := LastMagic(kern, |kern|).value;
            InitrdLists(AfterCopy(m), KERNEL_OFF + off, DtbAt(kern, off), nodes)
  {
    hide TreeArchive, Bundle, TreeFits, PatchedKernel, DtbCells, Lists, AfterCopy, CopySafe, WithOverlay, LastMagic,
         InitrdAt;
    var ovl := TreeArchive(nodes);
    TreeLists(nodes);
    TreeArchiveBlocks(nodes);
    WholeWords(|ovl|);
    OverlayArrives(m, ld, kern, ovl);
    KernelStays(m, ld, kern, ovl);
    KernelCells(kern, |ovl|);
    var k, off := PatchedKernel(kern, |ovl|).value, LastMagic(kern, |kern|).value;
    var c :| DtbCells(kern, k, off, c, |ovl|);
    InitrdFound(AfterCopy(m), kern, k, off, c, nodes);
  }

  lemma InitrdFound(m: seq<byte>, kern: seq<byte>, k: seq<byte>, off: nat, c: FdtRewalk.Cells, nodes: seq<Node>)
    requires HasRoom(m) && |TreeArchive(nodes)| <= OVERLAY_MAX && off + 8 <= |kern|
    requires KERNEL_OFF + |k| <= DEST && m[KERNEL_OFF..KERNEL_OFF + |k|] == k
    requires m[DEST..DEST + |TreeArchive(nodes)|] == TreeArchive(nodes)
    requires DtbCells(kern, k, off, c, |TreeArchive(nodes)|) && Lists(TreeArchive(nodes), nodes)
    ensures InitrdAt(m, KERNEL_OFF + off, DtbAt(kern, off), c, nodes)
  {
    hide U32be, TreeArchive, Lists, DtbAt, FdtPatch.Patched, FdtRewalk.AgreesOff, FdtRewalk.CellsOf;
    hide FdtRewalk.Patchable;
    CellInMemory(m, k, off + c.start);
    CellInMemory(m, k, off + c.end);
    DtbInMemory(m, kern, k, off, c, |TreeArchive(nodes)|);
  }

  /** The patched devicetree in memory differs in the cells only, and if it can be walked it has them. */
  lemma DtbInMemory(m: seq<byte>, kern: seq<byte>, k: seq<byte>, off: nat, c: FdtRewalk.Cells, n: nat)
    requires off + 8 <= |kern| && DtbCells(kern, k, off, c, n) && n <= OVERLAY_MAX
    requires KERNEL_OFF + |k| <= |m| && m[KERNEL_OFF..KERNEL_OFF + |k|] == k
    ensures var dtb, at := DtbAt(kern, off), KERNEL_OFF + off;
            && at + |dtb| <= |m| && FdtRewalk.AgreesOff(dtb, m[at..at + |dtb|], c.start, c.end)
            && (FdtRewalk.Patchable(dtb, c) ==> FdtRewalk.CellsOf(m[at..at + |dtb|], c))
  {
    hide U32be, DtbAt, FdtPatch.Patched, FdtPatch.Scan, FdtPatch.Collect, FdtRewalk.AgreesOff, FdtRewalk.NamesClear;
    var dtb := DtbAt(kern, off);
    SliceOfSlice(m, KERNEL_OFF, KERNEL_OFF + |k|, off, off + |dtb|);
    CellsSet(dtb, c, n);
    if FdtRewalk.Patchable(dtb, c) {
      FdtRewalk.PatchKeepsTree(dtb, c, OVERLAY_PHYS, OVERLAY_PHYS + n);
    }
  }
}
