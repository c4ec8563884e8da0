/** The newc archive: a record per member, and release-check.py's reader cpio_members. */
module CpioFormat {
  import opened Bytes

  const SLASH: byte := 0x2F
  const TRAILER: seq<byte> := [0x54, 0x52, 0x41, 0x49, 0x4C, 0x45, 0x52, 0x21, 0x21, 0x21]
  const NEWC: seq<byte> := [0x30, 0x37, 0x30, 0x37, 0x30, 0x31]
  const NEWC_CRC: seq<byte> := [0x30, 0x37, 0x30, 0x37, 0x30, 0x32]

  // ---- %08X and int(s, 16) ----------------------------------------------------------------------

  function HexDigit(v: nat): (c: byte)
    requires v < 16
  {
    if v < 10 then 0x30 + v else 0x41 + v - 10
  }

  /** Upper-case hexadecimal with at least k digits. */
  function Hex(n: nat, k: nat): seq<byte>
    decreases n, k
  {
    if n == 0 && k == 0 then [] else Hex(n / 16, if k == 0 then 0 else k - 1) + [HexDigit(n % 16)]
  }

  function HexValue(c: byte): Option<nat> {
    if 0x30 <= c <= 0x39 then Some(c - 0x30)
    else if 0x41 <= c <= 0x46 then Some(c - 0x41 + 10)
    else if 0x61 <= c <= 0x66 then Some(c - 0x61 + 10)
    else None
  }

  predicate Blank(c: byte) {
    c == 0x20 || 0x09 <= c <= 0x0D
  }

  function SkipBlanks(s: seq<byte>): (r: seq<byte>)
    ensures |r| <= |s|
  {
    if s != [] && Blank(s[0]) then SkipBlanks(s[1..]) else s
  }

  /** What the last character read was. */
  datatype Last = Nothing | Digit | Underscore

  /** Digits with single underscores between them, then blanks; n is what was read so far. */
  function ReadDigits(s: seq<byte>, n: nat, last: Last): Option<nat> {
    if s == [] then if last.Digit? then Some(n) else None
    else if HexValue(s[0]).Some? then ReadDigits(s[1..], 16 * n + HexValue(s[0]).value, Digit)
    else if !last.Digit? then None
    else if s[0] == 0x5F then ReadDigits(s[1..], n, Underscore)
    else if SkipBlanks(s) == [] then Some(n)
    else None
  }

  /** Behind 0x or 0X one underscore is allowed. */
  function SkipPrefix(s: seq<byte>): seq<byte> {
    if |s| < 2 || s[0] != 0x30 || (s[1] != 0x78 && s[1] != 0x58) then s
    else if |s| > 2 && s[2] == 0x5F then s[3..]
    else s[2..]
  }

  /** int(s, 16): blanks, a sign, a prefix, the digits, blanks. */
  function ReadNumber(s: seq<byte>): Option<int> {
    var t := SkipBlanks(s);
    var signed := t != [] && (t[0] == 0x2B || t[0] == 0x2D);
    match ReadDigits(SkipPrefix(if signed then t[1..] else t), 0, Nothing)
    case None => None
    case Some(n) =>
      var value: int := n;
      Some(if signed && t[0] == 0x2D then -value else value)
  }

  /** 16 to the power k. */
  function Pow16(k: nat): (p: nat)
    ensures p > 0
  {
    if k == 0 then 1 else 16 * Pow16(k - 1)
  }

  lemma DigitReads(v: nat, tail: seq<byte>, before: nat, last: Last)
    requires v < 16
    ensures ReadDigits([HexDigit(v)] + tail, before, last) == ReadDigits(tail, 16 * before + v, Digit)
  {
    assert ([HexDigit(v)] + tail)[1..] == tail;
  }

  lemma PlaceValue(before: nat, k: nat, n: nat)
    requires k > 0
    ensures 16 * (before * Pow16(k - 1) + n / 16) + n % 16 == before * Pow16(k) + n
  {
    assert before * (16 * Pow16(k - 1)) == 16 * (before * Pow16(k - 1));
  }

  lemma {:induction false} DigitsRead(n: nat, k: nat, before: nat, last: Last, tail: seq<byte>)
    requires n < Pow16(k)
    ensures |Hex(n, k)| == k
    ensures ReadDigits(Hex(n, k) + tail, before, last)
            == ReadDigits(tail, before * Pow16(k) + n, if k == 0 then last else Digit)
  {
    hide ReadDigits, HexDigit;
    if k == 0 {
      assert [] + tail == tail;
    } else {
      var c := HexDigit(n % 16);
      DigitsRead(n / 16, k - 1, before, last, [c] + tail);
      DigitReads(n % 16, tail, before * Pow16(k - 1) + n / 16, if k == 1 then last else Digit);
      PlaceValue(before, k, n);
      hide Pow16;
      assert Hex(n, k) + tail == Hex(n / 16, k - 1) + ([c] + tail);
    }
  }

  predicate PlainDigit(c: byte) {
    0x30 <= c <= 0x39 || 0x41 <= c <= 0x46
  }

  lemma {:induction false} HexIsPlain(n: nat, k: nat)
    requires n < Pow16(k)
    ensures forall c :: c in Hex(n, k) ==> PlainDigit(c)
  {
    if k > 0 { HexIsPlain(n / 16, k - 1); }
  }

  lemma PlainReads(s: seq<byte>)
    requires s != [] && forall c :: c in s ==> PlainDigit(c)
    ensures ReadNumber(s) == match ReadDigits(s, 0, Nothing) case None => None case Some(n) => Some(n)
  {
    hide ReadDigits;
    assert s[0] in s && (|s| > 1 ==> s[1] in s);
  }

  lemma NoDigitsLeft(n: nat)
    ensures ReadDigits([], n, Digit) == Some(n)
  {
  }

  lemma HexRoundTrip(n: nat, k: nat)
    requires n < Pow16(k)
    ensures |Hex(n, k)| == k && (k > 0 ==> ReadNumber(Hex(n, k)) == Some(n))
  {
    hide *;
    DigitsRead(n, k, 0, Nothing, []);
    HexIsPlain(n, k);
    assert Hex(n, k) + [] == Hex(n, k);
    if k > 0 {
      PlainReads(Hex(n, k));
      NoDigitsLeft(n);
      assert 0 * Pow16(k) + n == n;
    }
  }

  lemma HexFieldReads(n: nat)
    requires Fits32(n)
    ensures |Hex(n, 8)| == 8 && ReadNumber(Hex(n, 8)) == Some(n)
  {
    assert Pow16(8) == 16 * (16 * (16 * (16 * (16 * (16 * (16 * 16))))));
    hide Hex, ReadNumber;
    HexRoundTrip(n, 8);
  }

  // ---- a record ---------------------------------------------------------------------------------

  datatype Entry = Entry(name: seq<byte>, ino: nat, mode: nat, nlink: nat, mtime: nat, data: seq<byte>)

  function FieldsOf(e: Entry): (fs: seq<nat>)
    ensures |fs| == 13
  {
    [e.ino, e.mode, 0, 0, e.nlink, e.mtime, |e.data|, 0, 0, 0, 0, |e.name| + 1, 0]
  }

  predicate EntryFits(e: Entry) {
    Fits32(e.ino) && Fits32(e.mode) && Fits32(e.nlink) && Fits32(e.mtime) && Fits32(|e.data|) && Fits32(|e.name| + 1)
  }

  function FieldBytes(fs: seq<nat>): seq<byte> {
    if fs == [] then [] else FieldBytes(fs[..|fs| - 1]) + Hex(fs[|fs| - 1], 8)
  }

  /** The zero bytes that bring a length to a multiple of k. */
  function Zeros(n: nat, k: nat): (z: seq<byte>)
    requires k > 0
    ensures |z| == Padding(n, k) && forall i :: 0 <= i < |z| ==> z[i] == 0
  {
    Repeat(0, Padding(n, k))
  }

  function HeaderBytes(e: Entry): seq<byte> {
    NEWC + FieldBytes(FieldsOf(e))
  }

  function NamePart(e: Entry): seq<byte> {
    HeaderBytes(e) + e.name + [0]
  }

  /** Header and name padded to 4, data padded to 4. */
  function Record(e: Entry): seq<byte> {
    NamePart(e) + Zeros(|NamePart(e)|, 4) + (e.data + Zeros(|e.data|, 4))
  }

  function Records(es: seq<Entry>): seq<byte> {
    if es == [] then [] else Record(es[0]) + Records(es[1..])
  }

  lemma {:induction false} RecordsSnoc(es: seq<Entry>, e: Entry)
    ensures Records(es + [e]) == Records(es) + Record(e)
  {
    hide Record;
    if es == [] {
      assert [e][1..] == [];
      assert Record(e) + [] == Record(e) == [] + Record(e);
    } else {
      RecordsSnoc(es[1..], e);
      assert (es + [e])[1..] == es[1..] + [e];
      assert Record(es[0]) + (Records(es[1..]) + Record(e)) == Record(es[0]) + Records(es[1..]) + Record(e);
    }
  }

  // ---- the reader -------------------------------------------------------------------------------

  /** One member: its name, and its contents if it is a regular file. */
  datatype Member = Member(name: seq<byte>, content: Option<seq<byte>>)

  /** A number that cannot be read ends the reader with ValueError; a position it comes back to, over negative
      sizes, makes it go round for ever. */
  datatype Ending = Complete | BadNumber | Endless

  /** What the reader yields, the first time round. */
  datatype Listing = Listing(members: seq<Member>, ending: Ending)

  /** An index, negative ones counted from the end. */
  function FromEnd(n: nat, i: int): nat {
    if i < 0 then Max(0, n + i) else i
  }

  /** d[a:b] */
  function Part(d: seq<byte>, a: int, b: int): (s: seq<byte>)
    ensures 0 <= a <= b <= |d| ==> s == d[a..b]
  {
    Slice(d, FromEnd(|d|, a), FromEnd(|d|, b))
  }

  predicate HeaderAt(d: seq<byte>, p: int) {
    p + 110 <= |d| && (Part(d, p, p + 6) == NEWC || Part(d, p, p + 6) == NEWC_CRC)
  }

  lemma HeaderInside(d: seq<byte>, p: int)
    requires HeaderAt(d, p)
    ensures -|d| <= p <= |d|
  {
  }

  /** The first n of the thirteen header numbers. */
  function FieldsAt(d: seq<byte>, p: int, n: nat): (r: Option<seq<int>>)
    requires n <= 13
    ensures r.Some? ==> |r.value| == n
  {
    if n == 0 then Some([])
    else
      var before, f := FieldsAt(d, p, n - 1), ReadNumber(Part(d, p + 8 * n - 2, p + 8 * n + 6));
      if before.Some? && f.Some? then Some(before.value + [f.value]) else None
  }

  /** (mode & 0170000) == 0100000 */
  predicate Regular(mode: int) {
    mode / 0x1000 % 16 == 8
  }

  /** One turn of the reader's loop. */
  datatype Turn = Stop | Broken | Yield(member: Member, next: int)

  function MemberAt(d: seq<byte>, p: int): Turn {
    match FieldsAt(d, p, 13)
    case None => Broken
    case Some(f) =>
      var name := Part(d, p + 110, p + 109 + f[11]);
      if name == TRAILER then Stop
      else
        var start := Align4(p + 110 + f[11]);
        Yield(Member(name, if Regular(f[1]) then Some(Part(d, start, start + f[6])) else None), Align4(start + f[6]))
  }

  /** Positions where a header can be. */
  predicate Positions(d: seq<byte>, seen: set<int>) {
    forall p :: p in seen ==> -|d| <= p <= |d|
  }

  lemma OneMore(d: seq<byte>, p: int, seen: set<int>)
    requires Positions(d, seen) && HeaderAt(d, p)
    ensures Positions(d, seen + {p}) && |seen + {p}| <= 2 * |d| + 1
  {
    HeaderInside(d, p);
    hide HeaderAt;
    RangeCount(seen + {p}, -|d|, |d| + 1);
  }

  /** What the reader yields from p on, seen being the positions before it. */
  function MembersFrom(d: seq<byte>, p: int, seen: set<int>): Listing
    requires Positions(d, seen)
    decreases 2 * |d| + 1 - |seen|
  {
    if !HeaderAt(d, p) then Listing([], Complete)
    else if p in seen then Listing([], Endless)
    else
      match MemberAt(d, p)
      case Stop => Listing([], Complete)
      case Broken => Listing([], BadNumber)
      case Yield(m, next) =>
        OneMore(d, p, seen);
        var rest := MembersFrom(d, next, seen + {p});
        Listing([m] + rest.members, rest.ending)
  }

  function Contents(d: seq<byte>): Listing {
    MembersFrom(d, 0, {})
  }

  method ReadFields(d: seq<byte>, p: int) returns (r: Option<seq<int>>)
    ensures r == FieldsAt(d, p, 13)
  {
    hide ReadNumber;
    r := Some([]);
    for i := 0 to 13
      invariant r == FieldsAt(d, p, i)
    {
      var f := ReadNumber(Part(d, p + 6 + 8 * i, p + 14 + 8 * i));
      r := if r.Some? && f.Some? then Some(r.value + [f.value]) else None;
    }
  }

  method ReadMember(d: seq<byte>, p: int) returns (t: Turn)
    ensures t == MemberAt(d, p)
  {
    hide FieldsAt, Part;
    var f := ReadFields(d, p);
    if f.None? {
      return Broken;
    }
    var name := Part(d, p + 110, p + 109 + f.value[11]);
    if name == TRAILER {
      return Stop;
    }
    var start := Align4(p + 110 + f.value[11]);
    var content := if Regular(f.value[1]) then Some(Part(d, start, start + f.value[6])) else None;
    t := Yield(Member(name, content), Align4(start + f.value[6]));
  }

  /** cpio_members */
  method Members(d: seq<byte>) returns (r: Listing)
    ensures r == Contents(d)
  {
    hide MemberAt, HeaderAt, Positions;
    var p: int, ms: seq<Member>, seen: set<int> := 0, [], {};
    assert Positions(d, {}) by { NoPositions(d); }
    ghost var all := MembersFrom(d, 0, {});
    assert [] + all.members == all.members;
    while HeaderAt(d, p)
      invariant Positions(d, seen)
      invariant var rest := MembersFrom(d, p, seen); all == Listing(ms + rest.members, rest.ending)
      decreases 2 * |d| + 1 - |seen|
    {
      assert ms + [] == ms;
      if p in seen {
        return Listing(ms, Endless);
      }
      var t := ReadMember(d, p);
      if !t.Yield? {
        return Listing(ms, if t.Broken? then BadNumber else Complete);
      }
      OneMore(d, p, seen);
      ghost var rest := MembersFrom(d, t.next, seen + {p}).members;
      assert ms + ([t.member] + rest) == ms + [t.member] + rest;
      p, ms, seen := t.next, ms + [t.member], seen + {p};
    }
    assert ms + [] == ms;
    r := Listing(ms, Complete);
  }

  lemma NoPositions(d: seq<byte>)
    ensures Positions(d, {})
  {
  }

  /** No header in the archive claims a negative size. */
  ghost predicate SizesCount(d: seq<byte>) {
    forall p :: HeaderAt(d, p) && FieldsAt(d, p, 13).Some? ==>
      FieldsAt(d, p, 13).value[6] >= 0 && FieldsAt(d, p, 13).value[11] >= 0
  }

  lemma MemberMoves(d: seq<byte>, p: int)
    requires SizesCount(d) && HeaderAt(d, p) && MemberAt(d, p).Yield?
    ensures MemberAt(d, p).next > p
  {
    hide HeaderAt, FieldsAt, Part;
  }

  /** Without negative sizes the reader always ends. */
  lemma {:induction false} ReaderEnds(d: seq<byte>, p: int, seen: set<int>)
    requires SizesCount(d) && Positions(d, seen) && forall q :: q in seen ==> q < p
    ensures MembersFrom(d, p, seen).ending != Endless
    decreases 2 * |d| + 1 - |seen|
  {
    hide SizesCount, MemberAt, HeaderAt, Positions;
    if HeaderAt(d, p) && MemberAt(d, p).Yield? {
      MemberMoves(d, p);
      OneMore(d, p, seen);
      ReaderEnds(d, MemberAt(d, p).next, seen + {p});
    }
  }
}
