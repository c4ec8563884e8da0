/** The image and the copy in numbers: where everything lies in a bundle, and what the loader's copy does with it. */
module BundleLayout {
  import opened Bytes
  import opened CpioFormat
  import opened BootBundle
  import opened OverlayCopy
  import FdtPatch

  // ---- the image --------------------------------------------------------------------------------

  ghost predicate ZeroBetween(b: seq<byte>, lo: nat, hi: nat) {
    hi <= |b| && forall i :: lo <= i < hi ==> b[i] == 0
  }

  /** Where the overlay starts: on the next page behind a kernel of n bytes. */
  ghost function OverlayStart(n: nat): nat {
    (0x8000 + n + 4095) / 4096 * 4096
  }

  /** Four words at 0x7F00, "OVL1", where the overlay is, its length and 0x88000000; or zeros without one. */
  ghost predicate HeaderStands(b: seq<byte>, src: nat, n: nat) {
    && |b| >= 0x8000
    && if n == 0 then ZeroBetween(b, 0x7F00, 0x7F10)
       else U32le(b, 0x7F00) == 0x314C_564F && U32le(b, 0x7F04) == src && U32le(b, 0x7F08) == n
            && U32le(b, 0x7F0C) == 0x8800_0000
  }

  /** Loader, header, kernel and overlay, with zeros between, below 0x88000000 in memory. */
  ghost predicate ImageStands(b: seq<byte>, ld: seq<byte>, k: seq<byte>, ovl: seq<byte>) {
    var src := OverlayStart(|k|);
    && |ld| <= 0x7F00 && |b| == src + |ovl| <= 0x0800_0000
    && b[..|ld|] == ld && ZeroBetween(b, |ld|, 0x7F00) && HeaderStands(b, src, |ovl|) && ZeroBetween(b, 0x7F10, 0x8000)
    && 0x8000 + |k| <= src && b[0x8000..0x8000 + |k|] == k && ZeroBetween(b, 0x8000 + |k|, src) && b[src..] == ovl
  }

  lemma BaseInNumbers(ld: seq<byte>, k: seq<byte>)
    requires |ld| <= 0x7F00
    ensures var b := Base(ld, k);
            && |b| == OverlayStart(|k|) && ZeroBetween(b, |ld|, 0x8000) && ZeroBetween(b, 0x8000 + |k|, |b|)
            && b[..|ld|] == ld && b[0x8000..0x8000 + |k|] == k
  {
    var fill: seq<byte> := Repeat(0, 0x8000 - |ld|);
    var body := ld + fill + k;
    NextPage(0x8000 + |k|);
    assert Base(ld, k) == body + Zeros(|body|, 4096);
    hide Padding;
    assert forall i :: |ld| <= i < 0x8000 ==> body[i] == fill[i - |ld|];
  }

  lemma NextPage(n: nat)
    ensures n + Padding(n, 4096) == (n + 4095) / 4096 * 4096
  {
    assert n == n / 4096 * 4096 + n % 4096;
  }

  lemma ImageInNumbers(ld: seq<byte>, k: seq<byte>, ovl: seq<byte>)
    requires |ld| <= 0x7F00 && Image(ld, k, ovl).Ok?
    ensures ImageStands(Image(ld, k, ovl).value, ld, k, ovl)
  {
    BaseInNumbers(ld, k);
    hide Base, OverlayHeader, U32le, OverlayStart;
    var base := Base(ld, k);
    var b := base + ovl;
    if ovl == [] {
      assert b == base;
    } else {
      var h := OverlayHeader(|base|, |ovl|);
      HeaderSetIn(b, |base|, |ovl|);
      HeaderKeepsParts(b, h, 0, |ld|);
      HeaderKeepsParts(b, h, 0x8000, 0x8000 + |k|);
      HeaderKeepsParts(b, h, |base|, |b|);
      KeepsZeros(b, h, |ld|, 0x7F00);
      KeepsZeros(b, h, 0x7F10, 0x8000);
      KeepsZeros(b, h, 0x8000 + |k|, |base|);
    }
  }

  lemma KeepsZeros(b: seq<byte>, h: seq<byte>, lo: nat, hi: nat)
    requires |b| >= 0x8000 && |h| == 16 && ZeroBetween(b, lo, hi) && (hi <= 0x7F00 || 0x7F10 <= lo)
    ensures ZeroBetween(WithHeader(b, h), lo, hi)
  {
  }

  lemma HeaderSetIn(b: seq<byte>, src: nat, n: nat)
    requires |b| >= 0x8000 && n > 0 && Fits32(src) && Fits32(n)
    ensures HeaderStands(WithHeader(b, OverlayHeader(src, n)), src, n)
  {
    hide U32le, OverlayHeader, WithHeader;
    HeaderKeepsParts(b, OverlayHeader(src, n), 0, 0);
    HeaderIsRead(WithHeader(b, OverlayHeader(src, n)), src, n);
  }

  /** A bundle is the loader, the kernel with its devicetree patched, and the overlay. */
  lemma BundleInNumbers(ld: seq<byte>, kern: seq<byte>, ovl: seq<byte>)
    requires Bundle(ld, kern, ovl).Ok?
    ensures |ovl| <= 0x0800_0000 && PatchedKernel(kern, |ovl|).Ok?
    ensures var k := PatchedKernel(kern, |ovl|).value;
            |k| == |kern| && ImageStands(Bundle(ld, kern, ovl).value, ld, k, ovl)
  {
    BundleLaidOut(ld, kern, ovl);
    KernelCells(kern, |ovl|);
    hide PatchedKernel, Image, ImageStands, U32be, DtbAt;
    ImageInNumbers(ld, PatchedKernel(kern, |ovl|).value, ovl);
  }

  // ---- the appended devicetree ------------------------------------------------------------------

  /** The last d0 0d fe ed. */
  ghost predicate LastTree(kern: seq<byte>, off: nat) {
    && TreeAt(kern, off) && forall i: nat :: i > off ==> !TreeAt(kern, i)
  }

  ghost predicate TreeAt(kern: seq<byte>, i: nat) {
    i + 4 <= |kern| && kern[i] == 0xd0 && kern[i + 1] == 0x0d && kern[i + 2] == 0xfe && kern[i + 3] == 0xed
  }

  lemma TreeInNumbers(kern: seq<byte>, i: nat)
    ensures MagicAt(kern, i) <==> TreeAt(kern, i)
  {
    if i + 4 <= |kern| { assert kern[i..i + 4] == [kern[i], kern[i + 1], kern[i + 2], kern[i + 3]]; }
  }

  lemma LastInNumbers(kern: seq<byte>)
    ensures match LastMagic(kern, |kern|)
            case None => forall i: nat :: !TreeAt(kern, i)
            case Some(off) => LastTree(kern, off)
  {
    forall i: nat ensures MagicAt(kern, i) <==> TreeAt(kern, i) { TreeInNumbers(kern, i); }
    hide LastMagic, MagicAt, TreeAt;
    forall i: nat | TreeAt(kern, i) ensures i < |kern| { TreeInside(kern, i); }
  }

  lemma TreeInside(kern: seq<byte>, i: nat)
    requires TreeAt(kern, i)
    ensures i + 4 <= |kern|
  {
  }

  /** The size is the big-endian word behind the magic, or what there is of the kernel. The two cells found are set to
      0x88000000 and to n behind that. */
  lemma PatchedInNumbers(kern: seq<byte>, off: nat, n: nat)
    requires LastTree(kern, off) && off + 8 <= |kern|
    ensures var size := U32be(kern, off + 4);
            var dtb := if off + size <= |kern| then kern[off..off + size] else kern[off..];
            var o := FdtPatch.Patched(dtb, 0x8800_0000, 0x8800_0000 + n);
            PatchedKernel(kern, n) ==
            if n > 0x0800_0000 then Err(OverlayTooLarge)
            else if o.problem.Some? then Err(BadDtb(o.problem.value))
            else Ok(kern[..off] + o.blob + kern[off + |dtb|..])
  {
    hide LastMagic, FdtPatch.Patched, U32be, LastTree;
    LastIs(kern, off);
    assert DtbAt(kern, off) == kern[off..Min(|kern|, off + U32be(kern, off + 4))];
    assert kern[off..|kern|] == kern[off..];
  }

  lemma LastIs(kern: seq<byte>, off: nat)
    requires LastTree(kern, off)
    ensures LastMagic(kern, |kern|) == Some(off)
  {
    LastInNumbers(kern);
    hide LastMagic, TreeAt;
  }

  lemma NoTree(kern: seq<byte>)
    requires forall i: nat :: !TreeAt(kern, i)
    ensures LastMagic(kern, |kern|) == None
  {
    LastInNumbers(kern);
    hide LastMagic, TreeAt;
  }

  /** Why there is no bundle. */
  lemma KernelRefused(ld: seq<byte>, kern: seq<byte>, ovl: seq<byte>, off: nat)
    ensures |ld| > 0x7F00 ==> Bundle(ld, kern, ovl) == Err(LoaderTooLong)
    ensures |ld| <= 0x7F00 && (forall i: nat :: !TreeAt(kern, i)) ==> Bundle(ld, kern, ovl) == Err(NoAppendedDtb)
    ensures |ld| <= 0x7F00 && LastTree(kern, off) && off + 8 > |kern| ==> Bundle(ld, kern, ovl) == Err(BadStruct)
    ensures |ld| <= 0x7F00 && PatchedKernel(kern, |ovl|).Err? ==>
              Bundle(ld, kern, ovl) == Err(PatchedKernel(kern, |ovl|).error)
  {
    hide LastMagic, FdtPatch.Patched, U32be, LastTree, TreeAt, DtbAt;
    if forall i: nat :: !TreeAt(kern, i) { NoTree(kern); }
    if LastTree(kern, off) { LastIs(kern, off); }
  }

  lemma ImageRefused(ld: seq<byte>, kern: seq<byte>, ovl: seq<byte>)
    requires |ld| <= 0x7F00 && PatchedKernel(kern, |ovl|).Ok?
    ensures var src := OverlayStart(|PatchedKernel(kern, |ovl|).value|);
            if ovl != [] && src >= 0x1_0000_0000 then Bundle(ld, kern, ovl) == Err(BadStruct)
            else if src + |ovl| > 0x0800_0000 then Bundle(ld, kern, ovl) == Err(RunsIntoOverlay)
            else Bundle(ld, kern, ovl).Ok?
  {
    hide PatchedKernel, OverlayStart, Base;
    BaseInNumbers(ld, PatchedKernel(kern, |ovl|).value);
  }

  // ---- the copy ---------------------------------------------------------------------------------

  /** The copy is of the words the header at 0x7F00 names, in memory that starts at 0x80000000, if the magic is there
      and the length is not zero; three more bytes count as another word, in 32 bits. */
  lemma CopyInNumbers(m: seq<byte>)
    requires |m| >= 0x8000 && CopySafe(m)
    ensures if U32le(m, 0x7F00) == 0x314C_564F && U32le(m, 0x7F08) != 0 then
              var src, dst, n := U32le(m, 0x7F04), U32le(m, 0x7F0C) - 0x8000_0000,
                                 (U32le(m, 0x7F08) + 3) % 0x1_0000_0000 / 4;
              dst >= 0 && src + 4 * n <= |m| && dst + 4 * n <= |m| && AfterCopy(m) == CopyWords(m, src, dst, n)
            else AfterCopy(m) == m
  {
    hide U32le, CopyWords;
  }

  /** Words are copied one by one, the first ones first. */
  lemma {:induction false} FirstWordsFirst(m: seq<byte>, src: nat, dst: nat, a: nat, b: nat)
    requires src + 4 * (a + b) <= |m| && dst + 4 * (a + b) <= |m|
    ensures CopyWords(m, src, dst, a + b)
            == CopyWords(CopyWords(m, src, dst, a), src + 4 * a, dst + 4 * a, b)
    decreases b
  {
    hide CopyWord;
    if b > 0 { FirstWordsFirst(m, src, dst, a, b - 1); }
  }

  lemma OneWord(m: seq<byte>, src: nat, dst: nat, i: nat)
    requires src + 4 <= |m| && dst + 4 <= |m| && i < |m|
    ensures CopyWords(m, src, dst, 1)[i] == if dst <= i < dst + 4 then m[src + (i - dst)] else m[i]
  {
    assert CopyWords(m, src, dst, 0) == m;
    assert m[src..src + 4][..4] == m[src..src + 4];
  }
}
