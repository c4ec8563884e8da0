/** patch_iboot.py: the instruction helpers and resolve_bootargs, an ADRP and ADD pair made to point at a new
    literal (section C6.2 of Arm DDI 0487). Instruction fields do not overlap, so or-ing them is adding. */
module IbootRedirect {
  import opened Bytes
  import opened IbootSlots

  const PAGE := 0x1000
  const ADRP := 0x9000_0000
  const ADD := 0x9100_0000
  const HALF21 := 0x10_0000
  const ALL21 := 0x20_0000

  // ---- ADRP -------------------------------------------------------------------------------------

  function SignExtend21(imm: nat): int
    requires imm < ALL21
  {
    if imm >= HALF21 then imm - ALL21 else imm
  }

  function DecodeAdrpPage(insn: nat, pc: nat): int {
    pc / PAGE * PAGE + SignExtend21(insn / 32 % 0x8_0000 * 4 + insn / 0x2000_0000 % 4) * PAGE
  }

  /** Pages from pc to target. */
  function PageDistance(pc: nat, target: nat): int {
    target / PAGE - pc / PAGE
  }

  function AdrpWord(imm: nat, reg: nat): nat
    requires imm < ALL21
  {
    ADRP + imm % 4 * 0x2000_0000 + imm / 4 * 32 + reg % 32
  }

  /** imm21 & 0x1FFFFF */
  function Low21(d: int): (r: nat)
    requires -HALF21 <= d < HALF21
    ensures r < ALL21 && SignExtend21(r) == d
  {
    if d < 0 then d + ALL21 else d
  }

  predicate InReach(d: int) {
    -HALF21 <= d < HALF21
  }

  function EncodeAdrp(reg: nat, pc: nat, target: nat): Option<nat> {
    var d := PageDistance(pc, target);
    if !InReach(d) then None else Some(AdrpWord(Low21(d), reg))
  }

  /** An ADRP of this register. */
  predicate IsAdrp(w: nat, reg: nat) {
    w / 0x8000_0000 == 1 && w / 0x100_0000 % 32 == 16 && w % 32 == reg
  }

  lemma AdrpFields(lo: nat, hi: nat, r: nat)
    requires lo < 4 && hi < 0x8_0000 && r < 32
    ensures var w := ADRP + lo * 0x2000_0000 + hi * 32 + r;
            && w / 32 % 0x8_0000 == hi && w / 0x2000_0000 % 4 == lo && IsAdrp(w, r) && w < 0x1_0000_0000
  {
    var w := ADRP + lo * 0x2000_0000 + hi * 32 + r;
    assert w / 32 == 0x480_0000 + lo * 0x100_0000 + hi;
    assert w / 0x2000_0000 == 4 + lo;
    assert w / 0x100_0000 == 144 + 32 * lo;
    LowOfSum(lo, hi);
  }

  lemma LowOfSum(lo: nat, hi: nat)
    requires hi < 0x8_0000
    ensures (0x480_0000 + lo * 0x100_0000 + hi) % 0x8_0000 == hi
  {
    assert 0x480_0000 + lo * 0x100_0000 + hi == (144 + 32 * lo) * 0x8_0000 + hi;
  }

  /** Encoding succeeds exactly within four gigabytes either way, and decodes to the target's page. */
  lemma AdrpRoundTrip(reg: nat, pc: nat, target: nat)
    ensures EncodeAdrp(reg, pc, target).Some? <==> InReach(PageDistance(pc, target))
    ensures EncodeAdrp(reg, pc, target).Some? ==>
              var w := EncodeAdrp(reg, pc, target).value;
              DecodeAdrpPage(w, pc) == target / PAGE * PAGE && IsAdrp(w, reg % 32) && w < 0x1_0000_0000
  {
    var d := PageDistance(pc, target);
    if InReach(d) {
      var imm := Low21(d);
      SplitBy4(imm);
      AdrpFields(imm % 4, imm / 4, reg % 32);
      hide IsAdrp;
    }
  }

  lemma SplitBy4(imm: nat)
    requires imm < ALL21
    ensures imm / 4 < 0x8_0000 && imm == imm / 4 * 4 + imm % 4
  {
  }

  // ---- ADD --------------------------------------------------------------------------------------

  function DecodeAddImm12(insn: nat): nat {
    insn / 1024 % 0x1000 * (if insn / 0x40_0000 % 2 == 1 then 0x1000 else 1)
  }

  function AddWord(sh: nat, imm12: nat, src: nat, dst: nat): nat {
    ADD + sh * 0x40_0000 + imm12 * 1024 + src % 32 * 32 + dst % 32
  }

  function EncodeAddImm(dst: nat, src: nat, imm: nat): Option<nat> {
    if imm < 0x1000 then Some(AddWord(0, imm, src, dst))
    else if imm % 0x1000 == 0 && imm / 0x1000 < 0x1000 then Some(AddWord(1, imm / 0x1000, src, dst))
    else None
  }

  /** A 64-bit ADD immediate, unshifted if sh is 0, of src into dst. */
  predicate IsAdd(w: nat, sh: nat, src: nat, dst: nat) {
    w / 0x40_0000 == 0x244 + sh && w % 1024 == src * 32 + dst
  }

  lemma AddFields(sh: nat, imm12: nat, src: nat, dst: nat)
    requires sh < 2 && imm12 < 0x1000
    ensures var w := AddWord(sh, imm12, src, dst);
            && w / 1024 % 0x1000 == imm12 && w / 0x40_0000 % 2 == sh
            && IsAdd(w, sh, src % 32, dst % 32) && w < 0x1_0000_0000
  {
    var low := src % 32 * 32 + dst % 32;
    var w := ADD + sh * 0x40_0000 + imm12 * 1024 + low;
    assert w / 1024 == 0x24_4000 + sh * 0x1000 + imm12;
    assert w / 0x40_0000 == 0x244 + sh;
    AddLow(sh, imm12);
  }

  lemma AddLow(sh: nat, imm12: nat)
    requires imm12 < 0x1000
    ensures (0x24_4000 + sh * 0x1000 + imm12) % 0x1000 == imm12
  {
    assert 0x24_4000 + sh * 0x1000 + imm12 == (0x244 + sh) * 0x1000 + imm12;
  }

  lemma AddRoundTrip(dst: nat, src: nat, imm: nat)
    ensures EncodeAddImm(dst, src, imm).Some? <==> imm < 0x1000 || (imm % 0x1000 == 0 && imm < 0x100_0000)
    ensures EncodeAddImm(dst, src, imm).Some? ==>
              var w := EncodeAddImm(dst, src, imm).value;
              DecodeAddImm12(w) == imm && w < 0x1_0000_0000 &&
              IsAdd(w, if imm < 0x1000 then 0 else 1, src % 32, dst % 32)
  {
    hide AddWord, IsAdd;
    if imm < 0x1000 {
      AddFields(0, imm, src, dst);
    } else if imm % 0x1000 == 0 && imm / 0x1000 < 0x1000 {
      AddFields(1, imm / 0x1000, src, dst);
    }
  }

  // ---- the call site ----------------------------------------------------------------------------

  datatype RedirectError = BadArgs | SiteCount(n: nat) | NoRoom(error: SlotError) | OutOfReach

  /** Where the pair at off points, relative to the image. */
  function PointsAt(data: seq<byte>, base: nat, off: nat): int
    requires off + 8 <= |data|
  {
    DecodeAdrpPage(U32le(data, off), base + off) + DecodeAddImm12(U32le(data, off + 4)) - base
  }

  /** ADD X0,SP or SUB X0,X29 */
  predicate IsBuffer(w: nat) {
    (w / 0x40_0000 == 0x244 && w % 1024 == 0x3E0) || (w / 0x40_0000 == 0x344 && w % 1024 == 0x3A0)
  }

  /** ADRP X2; ADD X2,X2; ADD X0,SP or SUB X0,X29; MOV W1,#0x400; BL; and a lone "%s" where X2 points. */
  predicate CallSite(data: seq<byte>, base: nat, off: nat) {
    && off + 20 < |data| && off % 4 == 0
    && IsAdrp(U32le(data, off), 2)
    && U32le(data, off + 4) / 0x40_0000 == 0x244 && U32le(data, off + 4) % 1024 == 0x42
    && IsBuffer(U32le(data, off + 8))
    && U32le(data, off + 12) == 0x5280_8001 && U32le(data, off + 16) / 0x400_0000 == 0x25
    && var f := PointsAt(data, base, off);
       1 <= f && f + 3 <= |data| && data[f - 1..f + 3] == [0, 0x25, 0x73, 0]
  }

  /** The call sites among the first n words, in order. */
  function Sites(data: seq<byte>, base: nat, n: nat): (offs: seq<nat>)
    ensures forall o :: o in offs ==> CallSite(data, base, o)
  {
    if n == 0 then []
    else Sites(data, base, n - 1) + if CallSite(data, base, 4 * (n - 1)) then [4 * (n - 1)] else []
  }

  function AllSites(data: seq<byte>, base: nat): seq<nat> {
    Sites(data, base, |data| / 4 + 1)
  }

  lemma {:induction false} SitesAreAll(data: seq<byte>, base: nat, n: nat)
    ensures forall o: nat :: o in Sites(data, base, n) <==> CallSite(data, base, o) && o < 4 * n
  {
    hide CallSite;
    if n > 0 {
      SitesAreAll(data, base, n - 1);
      forall o: nat | CallSite(data, base, o) && 4 * n - 4 <= o < 4 * n ensures o == 4 * (n - 1) {
        SiteAligned(data, base, o);
      }
    }
  }

  /** The search misses no call site. */
  lemma AllSitesExact(data: seq<byte>, base: nat)
    ensures forall o: nat :: o in AllSites(data, base) <==> CallSite(data, base, o)
  {
    hide Sites, CallSite;
    SitesAreAll(data, base, |data| / 4 + 1);
    forall o: nat | CallSite(data, base, o) ensures o < 4 * (|data| / 4 + 1) {
      SiteAligned(data, base, o);
    }
  }

  lemma SiteAligned(data: seq<byte>, base: nat, o: nat)
    requires CallSite(data, base, o)
    ensures o % 4 == 0 && o + 20 < |data|
  {
    hide U32le, PointsAt, IsAdrp;
  }

  method FindCallSite(data: seq<byte>, base: nat) returns (r: Result<nat, RedirectError>)
    ensures r == var s := AllSites(data, base); if |s| == 1 then Ok(s[0]) else Err(SiteCount(|s|))
  {
    hide CallSite;
    var found: seq<nat> := [];
    for k := 0 to |data| / 4 + 1
      invariant found == Sites(data, base, k)
    {
      if CallSite(data, base, 4 * k) {
        found := found + [4 * k];
      }
    }
    r := if |found| == 1 then Ok(found[0]) else Err(SiteCount(|found|));
  }

  // ---- the patches ------------------------------------------------------------------------------

  /** The two words with what was there, and the literal. */
  datatype Redirect = Redirect(site: nat, oldAdrp: nat, oldAdd: nat, adrp: nat, add: nat, at: nat, literal: seq<byte>)

  predicate GoodArgs(args: seq<byte>) {
    args != [] && forall c :: c in args ==> 0 < c < 128 && c != 0x25
  }

  function Resolved(data: seq<byte>, base: nat, args: seq<byte>): Result<Redirect, RedirectError> {
    if !GoodArgs(args) then Err(BadArgs)
    else if |AllSites(data, base)| != 1 then Err(SiteCount(|AllSites(data, base)|))
    else
      var o := AllSites(data, base)[0];
      match ChosenSlot(data, |args| + 1)
      case Err(e) => Err(NoRoom(e))
      case Ok(s) =>
        var adrp := EncodeAdrp(2, base + o, base + s.at);
        var add := EncodeAddImm(2, 2, (base + s.at) % PAGE);
        if adrp.None? || add.None? then Err(OutOfReach)
        else
          SiteInside(data, base, o);
          Ok(Redirect(o, U32le(data, o), U32le(data, o + 4), adrp.value, add.value, s.at, args + [0]))
  }

  lemma SiteInside(data: seq<byte>, base: nat, o: nat)
    requires o in AllSites(data, base)
    ensures CallSite(data, base, o) && o + 20 < |data| && o % 4 == 0
  {
    hide CallSite;
    SiteAligned(data, base, o);
  }

  method ResolveBootargs(data: seq<byte>, base: nat, args: seq<byte>) returns (r: Result<Redirect, RedirectError>)
    ensures r == Resolved(data, base, args)
  {
    hide AllSites, ChosenSlot, CallSite, EncodeAdrp, EncodeAddImm, U32le;
    if !GoodArgs(args) { return Err(BadArgs); }
    var site := FindCallSite(data, base);
    if site.Err? { return Err(site.error); }
    var o := site.value;
    var slot := FindPageTailSlot(data, |args| + 1);
    if slot.Err? { return Err(NoRoom(slot.error)); }
    var adrp := EncodeAdrp(2, base + o, base + slot.value.at);
    var add := EncodeAddImm(2, 2, (base + slot.value.at) % PAGE);
    if adrp.None? || add.None? { return Err(OutOfReach); }
    SiteInside(data, base, o);
    r := Ok(Redirect(o, U32le(data, o), U32le(data, o + 4), adrp.value, add.value, slot.value.at, args + [0]));
  }

  /** It works out exactly if there is one site, a slot, and the slot's page is within reach. */
  lemma ResolvedIff(data: seq<byte>, base: nat, args: seq<byte>)
    ensures Resolved(data, base, args).Ok? <==>
            && GoodArgs(args) && |AllSites(data, base)| == 1 && ChosenSlot(data, |args| + 1).Ok?
            && InReach(PageDistance(base + AllSites(data, base)[0], base + ChosenSlot(data, |args| + 1).value.at))
  {
    hide AllSites, ChosenSlot, EncodeAdrp, EncodeAddImm, CallSite, U32le;
    if |AllSites(data, base)| == 1 && ChosenSlot(data, |args| + 1).Ok? {
      var o, at := AllSites(data, base)[0], ChosenSlot(data, |args| + 1).value.at;
      AdrpRoundTrip(2, base + o, base + at);
      AddRoundTrip(2, 2, (base + at) % PAGE);
    }
  }

  // ---- applying them ----------------------------------------------------------------------------

  function Patch(d: seq<byte>, at: nat, b: seq<byte>): (r: seq<byte>)
    requires at + |b| <= |d|
    ensures |r| == |d| && r[at..at + |b|] == b
    ensures forall i :: 0 <= i < |d| && !(at <= i < at + |b|) ==> r[i] == d[i]
  {
    d[..at] + b + d[at + |b|..]
  }

  predicate Applicable(d: seq<byte>, p: Redirect) {
    p.site + 8 <= |d| && p.at + |p.literal| <= |d|
  }

  function Applied(d: seq<byte>, p: Redirect): (r: seq<byte>)
    requires Applicable(d, p)
    ensures |r| == |d|
  {
    Patch(Patch(Patch(d, p.site, ToLE(p.adrp, 4)), p.site + 4, ToLE(p.add, 4)), p.at, p.literal)
  }

  method PutBytes(data: array<byte>, at: nat, b: seq<byte>)
    requires at + |b| <= data.Length
    modifies data
    ensures data[..] == Patch(old(data[..]), at, b)
  {
    for k := 0 to |b|
      invariant forall i :: 0 <= i < data.Length && !(at <= i < at + k) ==> data[i] == old(data[i])
      invariant data[at..at + k] == b[..k]
    {
      data[at + k] := b[k];
    }
    ghost var r := Patch(old(data[..]), at, b);
    assert data[..at] == old(data[..])[..at];
    assert data[at + |b|..] == old(data[..])[at + |b|..];
    assert data[..] == data[..at] + data[at..at + |b|] + data[at + |b|..];
    assert b[..|b|] == b;
  }

  /** apply_word: refused if the word is not the one that was resolved. */
  method ApplyWord(data: array<byte>, off: nat, orig: nat, repl: nat) returns (ok: bool)
    requires off + 4 <= data.Length
    modifies data
    ensures ok == (U32le(old(data[..]), off) == orig)
    ensures data[..] == if ok then Patch(old(data[..]), off, ToLE(repl, 4)) else old(data[..])
  {
    hide ToLE, Patch;
    ok := U32le(data[..], off) == orig;
    if ok {
      PutBytes(data, off, ToLE(repl, 4));
    }
  }

  /** The three patches in turn; a word that is not the one resolved stops them, with those before it done. */
  method Apply(data: array<byte>, p: Redirect) returns (ok: bool)
    requires Applicable(data[..], p)
    modifies data
    ensures ok == (U32le(old(data[..]), p.site) == p.oldAdrp && U32le(old(data[..]), p.site + 4) == p.oldAdd)
    ensures data[..] == if ok then Applied(old(data[..]), p)
                        else if U32le(old(data[..]), p.site) == p.oldAdrp
                        then Patch(old(data[..]), p.site, ToLE(p.adrp, 4))
                        else old(data[..])
  {
    hide ToLE, U32le;
    ghost var d := data[..];
    ok := ApplyWord(data, p.site, p.oldAdrp, p.adrp);
    if !ok { return; }
    assert U32le(data[..], p.site + 4) == U32le(d, p.site + 4) by { WordKept(d, p.site, ToLE(p.adrp, 4), p.site + 4); }
    hide Patch;
    ok := ApplyWord(data, p.site + 4, p.oldAdd, p.add);
    if !ok { return; }
    PutBytes(data, p.at, p.literal);
  }

  lemma WordKept(d: seq<byte>, at: nat, b: seq<byte>, o: nat)
    requires at + |b| <= |d| && o + 4 <= |d| && (at + |b| <= o || o + 4 <= at)
    ensures U32le(Patch(d, at, b), o) == U32le(d, o)
  {
    assert Patch(d, at, b)[o..o + 4] == d[o..o + 4];
  }

  lemma WordSet(d: seq<byte>, at: nat, w: nat)
    requires at + 4 <= |d| && w < 0x1_0000_0000
    ensures U32le(Patch(d, at, ToLE(w, 4)), at) == w
  {
    hide ToLE, LE, Patch;
    assert Pow256(4) == 256 * (256 * (256 * 256));
    LERoundTrip(w, 4);
  }

  // ---- the literal and the words are apart ------------------------------------------------------

  /** The top byte of either instruction is not zero. */
  lemma TopByte(d: seq<byte>, o: nat)
    requires o + 4 <= |d| && U32le(d, o) >= 0x100_0000
    ensures d[o + 3] != 0
  {
    LE4(d[o..o + 4]);
  }

  lemma LE4(s: seq<byte>)
    requires |s| == 4
    ensures LE(s) == s[0] as int + 256 * (s[1] as int + 256 * (s[2] as int + 256 * s[3] as int))
  {
    hide LE;
    LEUnfolds(s);
    LEUnfolds(s[1..]);
    LEUnfolds(s[2..]);
    LEUnfolds(s[3..]);
    assert s[1..][1..] == s[2..] && s[2..][1..] == s[3..] && s[3..][1..] == s[4..];
  }

  /** A zero run that ends on a 256-byte boundary cannot reach into an aligned word whose top byte is set. */
  lemma RunMissesWord(data: seq<byte>, r: Run, o: nat)
    requires Maximal(data, r) && r.end % 256 == 0 && o % 4 == 0 && o + 4 <= |data| && data[o + 3] != 0
    ensures o + 4 <= r.start || r.end <= o
  {
    hide LowBit;
    EndsOnWord(r.end);
  }

  lemma EndsOnWord(n: nat)
    requires n % 256 == 0
    ensures n % 4 == 0
  {
    var q := n / 256;
    assert n == 256 * q + n % 256;
    assert n / 4 == 64 * q;
  }

  lemma SiteWords(data: seq<byte>, base: nat, o: nat)
    requires CallSite(data, base, o)
    ensures o + 8 <= |data| && U32le(data, o) >= 0x100_0000 && U32le(data, o + 4) >= 0x100_0000
  {
    hide U32le, PointsAt;
  }

  lemma RedirectApart(data: seq<byte>, base: nat, args: seq<byte>)
    requires Resolved(data, base, args).Ok?
    ensures var p := Resolved(data, base, args).value;
            && Applicable(data, p) && (p.at + |p.literal| <= p.site || p.site + 8 <= p.at)
            && forall i :: p.at <= i < p.at + |p.literal| ==> data[i] == 0
  {
    hide AllSites, ChosenSlot, CallSite, EncodeAdrp, EncodeAddImm, U32le;
    var p := Resolved(data, base, args).value;
    SlotIsFree(data, |args| + 1);
    var s := ChosenSlot(data, |args| + 1).value;
    var r :| FreeIn(data, |args| + 1, s, r);
    SiteInside(data, base, p.site);
    SiteWords(data, base, p.site);
    TopByte(data, p.site);
    TopByte(data, p.site + 4);
    RunMissesWord(data, r, p.site);
    RunMissesWord(data, r, p.site + 4);
  }

  // ---- the result -------------------------------------------------------------------------------

  /** After the patches the pair still loads X2, with the address of the literal, which is in place; all
      other bytes are as they were. */
  ghost predicate Redirected(data: seq<byte>, out: seq<byte>, base: nat, p: Redirect) {
    && |out| == |data| && Applicable(data, p)
    && PointsAt(out, base, p.site) == p.at
    && IsAdrp(U32le(out, p.site), 2) && IsAdd(U32le(out, p.site + 4), 0, 2, 2)
    && out[p.at..p.at + |p.literal|] == p.literal
    && forall i :: 0 <= i < |data| && !(p.site <= i < p.site + 8) && !(p.at <= i < p.at + |p.literal|) ==>
         out[i] == data[i]
  }

  lemma WordsDecode(base: nat, o: nat, at: nat)
    requires EncodeAdrp(2, base + o, base + at).Some? && EncodeAddImm(2, 2, (base + at) % PAGE).Some?
    ensures var x, y := EncodeAdrp(2, base + o, base + at).value, EncodeAddImm(2, 2, (base + at) % PAGE).value;
            && DecodeAdrpPage(x, base + o) + DecodeAddImm12(y) == base + at
            && IsAdrp(x, 2) && IsAdd(y, 0, 2, 2) && x < 0x1_0000_0000 && y < 0x1_0000_0000
  {
    hide DecodeAdrpPage, DecodeAddImm12, EncodeAdrp, EncodeAddImm, IsAdrp, IsAdd;
    AdrpRoundTrip(2, base + o, base + at);
    AddRoundTrip(2, 2, (base + at) % PAGE);
  }

  lemma AppliedWords(d: seq<byte>, p: Redirect)
    requires Applicable(d, p) && (p.at + |p.literal| <= p.site || p.site + 8 <= p.at)
    requires p.adrp < 0x1_0000_0000 && p.add < 0x1_0000_0000
    ensures U32le(Applied(d, p), p.site) == p.adrp && U32le(Applied(d, p), p.site + 4) == p.add
  {
    hide ToLE, U32le, Patch;
    var d1 := Patch(d, p.site, ToLE(p.adrp, 4));
    var d2 := Patch(d1, p.site + 4, ToLE(p.add, 4));
    WordSet(d, p.site, p.adrp);
    WordKept(d1, p.site + 4, ToLE(p.add, 4), p.site);
    WordSet(d1, p.site + 4, p.add);
    WordKept(d2, p.at, p.literal, p.site);
    WordKept(d2, p.at, p.literal, p.site + 4);
  }

  lemma RedirectLands(data: seq<byte>, base: nat, args: seq<byte>)
    requires Resolved(data, base, args).Ok?
    ensures var p := Resolved(data, base, args).value;
            Applicable(data, p) && p.literal == args + [0] && Redirected(data, Applied(data, p), base, p)
  {
    hide AllSites, ChosenSlot, CallSite, EncodeAdrp, EncodeAddImm, U32le, DecodeAdrpPage, DecodeAddImm12, ToLE, IsAdrp,
         IsAdd, GoodArgs, Patch;
    RedirectApart(data, base, args);
    var p := Resolved(data, base, args).value;
    WordsDecode(base, p.site, p.at);
    AppliedWords(data, p);
  }
}
