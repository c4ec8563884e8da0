/** assemble.py: main lays loader, kernel and overlay out in one image. */
module BootBundle {
  import opened Bytes
  import opened CpioFormat
  import opened CpioWriters
  import FdtPatch

  const LOAD := 0x8000_0000
  const HDR_OFF := 0x7F00
  const KERNEL_OFF := 0x8000
  const OVERLAY_PHYS := 0x8800_0000
  const OVERLAY_MAX := 0x0800_0000
  const MAGIC := 0x314C_564F
  const DTB_MAGIC: seq<byte> := [0xd0, 0x0d, 0xfe, 0xed]

  datatype BundleError =
    | LoaderTooLong
    | NoAppendedDtb
    | BadStruct
    | OverlayTooLarge
    | BadDtb(problem: FdtPatch.FdtError)
    | RunsIntoOverlay

  type Bundled = Result<seq<byte>, BundleError>

  predicate MagicAt(k: seq<byte>, i: nat) {
    i + 4 <= |k| && k[i..i + 4] == DTB_MAGIC
  }

  /** kern.rfind(magic), looking below n. */
  function LastMagic(k: seq<byte>, n: nat): (r: Option<nat>)
    ensures r.Some? ==> r.value < n && MagicAt(k, r.value) && forall i :: r.value < i < n ==> !MagicAt(k, i)
    ensures r.None? ==> forall i :: 0 <= i < n ==> !MagicAt(k, i)
  {
    if n == 0 then None else if MagicAt(k, n - 1) then Some(n - 1) else LastMagic(k, n - 1)
  }

  /** The devicetree appended at off, cut to what is there. */
  function DtbAt(kern: seq<byte>, off: nat): (dtb: seq<byte>)
    requires off + 8 <= |kern|
    ensures off + |dtb| <= |kern| && kern[off..off + |dtb|] == dtb
  {
    kern[off..Min(|kern|, off + U32be(kern, off + 4))]
  }

  /** The kernel with its devicetree pointing at an overlay of n bytes. */
  function PatchedKernel(kern: seq<byte>, n: nat): Bundled {
    match LastMagic(kern, |kern|)
    case None => Err(NoAppendedDtb)
    case Some(off) =>
      if off + 8 > |kern| then Err(BadStruct)
      else
        var dtb := DtbAt(kern, off);
        if n > OVERLAY_MAX then Err(OverlayTooLarge)
        else
          var o := FdtPatch.Patched(dtb, OVERLAY_PHYS, OVERLAY_PHYS + n);
          if o.problem.Some? then Err(BadDtb(o.problem.value))
          else Ok(kern[..off] + o.blob + kern[off + |dtb|..])
  }

  /** Loader and kernel, filled up to the page the overlay starts on. */
  function Base(ld: seq<byte>, kern: seq<byte>): (b: seq<byte>)
    requires |ld| <= HDR_OFF
    ensures |b| >= KERNEL_OFF + |kern|
  {
    var body := ld + Repeat(0, KERNEL_OFF - |ld|) + kern;
    body + Zeros(|body|, 4096)
  }

  function OverlayHeader(off: nat, n: nat): (h: seq<byte>)
    ensures |h| == 16
  {
    ToLE(MAGIC, 4) + ToLE(off, 4) + ToLE(n, 4) + ToLE(OVERLAY_PHYS, 4)
  }

  function WithHeader(b: seq<byte>, h: seq<byte>): (r: seq<byte>)
    requires |b| >= KERNEL_OFF && |h| == 16
    ensures |r| == |b|
  {
    b[..HDR_OFF] + h + b[HDR_OFF + 16..]
  }

  function Image(ld: seq<byte>, kern: seq<byte>, ovl: seq<byte>): Bundled
    requires |ld| <= HDR_OFF
  {
    var base := Base(ld, kern);
    if ovl != [] && !Fits32(|base|) then Err(BadStruct)
    else
      var b := base + ovl;
      var b' := if ovl == [] then b else WithHeader(b, OverlayHeader(|base|, |ovl|));
      if LOAD + |b'| > OVERLAY_PHYS then Err(RunsIntoOverlay) else Ok(b')
  }

  function Bundle(ld: seq<byte>, kern: seq<byte>, ovl: seq<byte>): Bundled {
    if |ld| > HDR_OFF then Err(LoaderTooLong)
    else
      match PatchedKernel(kern, |ovl|)
      case Err(e) => Err(e)
      case Ok(patched) => Image(ld, patched, ovl)
  }

  /** The overlay of a directory, or none. */
  function OverlayOf(tree: Option<seq<Node>>): seq<byte> {
    if tree.Some? then TreeArchive(tree.value) else []
  }

  method FindDtb(kern: seq<byte>) returns (r: Option<nat>)
    ensures r == LastMagic(kern, |kern|)
  {
    hide MagicAt;
    var i := |kern|;
    while i > 0
      invariant 0 <= i <= |kern| && LastMagic(kern, |kern|) == LastMagic(kern, i)
    {
      i := i - 1;
      if MagicAt(kern, i) {
        return Some(i);
      }
    }
    r := None;
  }

  method PatchKernel(kern: seq<byte>, n: nat) returns (r: Bundled)
    ensures r == PatchedKernel(kern, n)
  {
    hide LastMagic, U32be, DtbAt, FdtPatch.Patched;
    var at := FindDtb(kern);
    if at.None? { return Err(NoAppendedDtb); }
    var off := at.value;
    if off + 8 > |kern| { return Err(BadStruct); }
    var bytes := DtbAt(kern, off);
    if n > OVERLAY_MAX { return Err(OverlayTooLarge); }
    var dtb := new byte[|bytes|](i requires 0 <= i < |bytes| => bytes[i]);
    assert dtb[..] == bytes;
    var problem := FdtPatch.PatchInitrd(dtb, OVERLAY_PHYS, OVERLAY_PHYS + n);
    if problem.Some? { return Err(BadDtb(problem.value)); }
    r := Ok(kern[..off] + dtb[..] + kern[off + dtb.Length..]);
  }

  method Assemble(ld: seq<byte>, kern: seq<byte>, tree: Option<seq<Node>>) returns (r: Bundled)
    ensures r == Bundle(ld, kern, OverlayOf(tree))
  {
    hide PatchedKernel, TreeArchive, Repeat, Zeros, OverlayHeader;
    if |ld| > HDR_OFF { return Err(LoaderTooLong); }
    var ovl: seq<byte> := [];
    if tree.Some? { ovl := Cpio(tree.value); }
    var patched := PatchKernel(kern, |ovl|);
    if patched.Err? { return patched; }
    var b := ld + Repeat(0, KERNEL_OFF - |ld|) + patched.value;
    b := b + Zeros(|b|, 4096);
    var off := |b|;
    b := b + ovl;
    if ovl != [] {
      if !Fits32(off) { return Err(BadStruct); }
      b := WithHeader(b, OverlayHeader(off, |ovl|));
    }
    if LOAD + |b| > OVERLAY_PHYS { return Err(RunsIntoOverlay); }
    r := Ok(b);
  }
}
