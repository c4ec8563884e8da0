/** The texts that int(x, 16) reads as a number, and the slices that the archive reader takes with such numbers. */
module CpioNumbers {
  import opened Bytes
  import opened CpioFormat

  /** A space, or one of the five control characters from tab to carriage return. */
  predicate BlankChar(c: byte) {
    c == 0x20 || c == 0x09 || c == 0x0A || c == 0x0B || c == 0x0C || c == 0x0D
  }

  predicate HexChar(c: byte) {
    0x30 <= c <= 0x39 || 0x41 <= c <= 0x46 || 0x61 <= c <= 0x66
  }

  function HexOf(c: byte): int
    requires HexChar(c)
  {
    if c < 0x40 then c - 0x30 else if c < 0x60 then c - 0x37 else c - 0x57
  }

  ghost predicate AllBlank(s: seq<byte>) {
    forall c :: c in s ==> BlankChar(c)
  }

  /** Hexadecimal digits, at least one, with single underscores between them; afterDigit says what stands before. */
  predicate DigitRun(g: seq<byte>, afterDigit: bool) {
    if g == [] then afterDigit
    else if HexChar(g[0]) then DigitRun(g[1..], true)
    else g[0] == 0x5F && afterDigit && DigitRun(g[1..], false)
  }

  /** The number they continue n to. */
  function Value(g: seq<byte>, n: int): int {
    if g == [] then n else Value(g[1..], if HexChar(g[0]) then 16 * n + HexOf(g[0]) else n)
  }

  /** Nothing, 0x or 0X, or one of these and an underscore. */
  ghost predicate Prefix(p: seq<byte>) {
    p in {[], [0x30, 0x78], [0x30, 0x58], [0x30, 0x78, 0x5F], [0x30, 0x58, 0x5F]}
  }

  ghost predicate Sign(s: seq<byte>) {
    s == [] || s == [0x2B] || s == [0x2D]
  }

  /** Blanks, a sign, a prefix, the digits and blanks. */
  datatype NumberText = NumberText(before: seq<byte>, sign: seq<byte>, prefix: seq<byte>, digits: seq<byte>,
                                   behind: seq<byte>)

  ghost predicate Writes(t: NumberText, s: seq<byte>, v: int) {
    && AllBlank(t.before) && Sign(t.sign) && Prefix(t.prefix) && DigitRun(t.digits, false) && AllBlank(t.behind)
    && s == t.before + (t.sign + (t.prefix + (t.digits + t.behind)))
    && v == if t.sign == [0x2D] then -Value(t.digits, 0) else Value(t.digits, 0)
  }

  // ---- the digits -------------------------------------------------------------------------------

  lemma CharIs(c: byte)
    ensures HexValue(c) == if HexChar(c) then Some(HexOf(c)) else None
    ensures Blank(c) <==> BlankChar(c)
    ensures BlankChar(c) ==> !HexChar(c) && c != 0x5F && c != 0x2B && c != 0x2D
  {
  }

  lemma {:induction false} BlanksSkipped(a: seq<byte>, s: seq<byte>)
    requires AllBlank(a) && (s != [] ==> !BlankChar(s[0]))
    ensures SkipBlanks(a + s) == s
  {
    if a == [] {
      assert a + s == s;
      if s != [] { CharIs(s[0]); }
    } else {
      CharIs(a[0]);
      assert (a + s)[1..] == a[1..] + s;
      BlanksSkipped(a[1..], s);
    }
  }

  lemma {:induction false} SkippedBlanks(s: seq<byte>) returns (a: seq<byte>)
    ensures AllBlank(a) && s == a + SkipBlanks(s)
    ensures SkipBlanks(s) != [] ==> !BlankChar(SkipBlanks(s)[0])
  {
    if s != [] && Blank(s[0]) {
      CharIs(s[0]);
      a := SkippedBlanks(s[1..]);
      a := [s[0]] + a;
    } else {
      if s != [] { CharIs(s[0]); }
      a := [];
    }
  }

  /** A run of digits and blanks reads as the number. */
  lemma {:induction false} RunReads(g: seq<byte>, b: seq<byte>, n: nat, last: Last)
    requires DigitRun(g, last.Digit?) && AllBlank(b)
    ensures Value(g, n) >= 0 && ReadDigits(g + b, n, last) == Some(Value(g, n))
    decreases |g|
  {
    if g == [] {
      assert g + b == b;
      BlankEnd(b, n);
    } else {
      CharIs(g[0]);
      assert (g + b)[0] == g[0] && (g + b)[1..] == g[1..] + b;
      if HexChar(g[0]) {
        RunReads(g[1..], b, 16 * n + HexOf(g[0]), Digit);
      } else {
        RunReads(g[1..], b, n, Underscore);
      }
    }
  }

  lemma BlankEnd(b: seq<byte>, n: nat)
    requires AllBlank(b)
    ensures ReadDigits(b, n, Digit) == Some(n)
  {
    if b != [] {
      CharIs(b[0]);
      BlanksSkipped(b, []);
      assert b + [] == b;
    }
  }

  /** And nothing else does. */
  lemma {:induction false} ReadIsRun(s: seq<byte>, n: nat, last: Last) returns (g: seq<byte>, b: seq<byte>)
    requires ReadDigits(s, n, last).Some?
    ensures s == g + b && DigitRun(g, last.Digit?) && AllBlank(b)
    ensures ReadDigits(s, n, last) == Some(Value(g, n))
    decreases |s|
  {
    if s == [] {
      g, b := [], [];
    } else {
      CharIs(s[0]);
      if HexChar(s[0]) {
        g, b := ReadIsRun(s[1..], 16 * n + HexOf(s[0]), Digit);
        g := [s[0]] + g;
      } else if s[0] == 0x5F {
        g, b := ReadIsRun(s[1..], n, Underscore);
        g := [s[0]] + g;
      } else {
        var a := SkippedBlanks(s);
        assert a + [] == a;
        g, b := [], s;
      }
    }
  }

  // ---- prefix and sign --------------------------------------------------------------------------

  lemma RunStarts(g: seq<byte>)
    requires DigitRun(g, false)
    ensures g != [] && HexChar(g[0]) && (|g| > 1 ==> HexChar(g[1]) || g[1] == 0x5F)
  {
    assert |g| > 1 ==> g[1..][0] == g[1];
  }

  lemma PrefixSkipped(p: seq<byte>, g: seq<byte>, b: seq<byte>)
    requires Prefix(p) && DigitRun(g, false) && AllBlank(b)
    ensures SkipPrefix(p + (g + b)) == g + b
  {
    RunStarts(g);
    var s := p + (g + b);
    assert |p| <= |s| && s[|p|] == g[0];
    if p == [] {
      assert s == g + b;
      assert |s| > 1 ==> s[1] == if |g| > 1 then g[1] else b[0];
      if |g| == 1 && b != [] { CharIs(b[0]); }
    } else {
      assert s[0] == p[0] && s[1] == p[1] && s[|p|..] == g + b;
      if |p| == 3 { assert s[2] == p[2]; }
    }
  }

  lemma SkippedPrefix(s: seq<byte>) returns (p: seq<byte>)
    ensures Prefix(p) && s == p + SkipPrefix(s)
  {
    var k := |s| - |SkipPrefix(s)|;
    p := s[..k];
    if k == 2 { assert p == [s[0], s[1]]; }
    if k == 3 { assert p == [s[0], s[1], s[2]]; }
  }

  /** What ReadNumber does behind the blanks. */
  lemma SignRead(t: seq<byte>, sign: seq<byte>, rest: seq<byte>)
    requires Sign(sign) && t == sign + rest && (sign == [] && rest != [] ==> rest[0] != 0x2B && rest[0] != 0x2D)
    requires t != [] ==> !BlankChar(t[0])
    ensures ReadNumber(t) == match ReadDigits(SkipPrefix(rest), 0, Nothing)
                             case None => None
                             case Some(n) => Some(if sign == [0x2D] then -(n as int) else n)
  {
    hide ReadDigits, SkipPrefix;
    BlanksSkipped([], t);
    assert [] + t == t;
    if sign != [] { assert t[1..] == rest && t[0] == sign[0]; } else { assert t == rest; }
  }

  lemma BlanksFirst(a: seq<byte>, t: seq<byte>)
    requires AllBlank(a) && t != [] && !BlankChar(t[0])
    ensures ReadNumber(a + t) == ReadNumber(t)
  {
    hide ReadDigits, SkipPrefix;
    BlanksSkipped(a, t);
    BlanksSkipped([], t);
    assert [] + t == t;
  }

  /** A text is read as a number if it writes that number. */
  lemma NumberReads(t: NumberText, s: seq<byte>, v: int)
    requires Writes(t, s, v)
    ensures ReadNumber(s) == Some(v)
  {
    hide ReadNumber, ReadDigits, SkipPrefix, Value, DigitRun, AllBlank;
    var rest := t.prefix + (t.digits + t.behind);
    FirstIsNoSign(t.prefix, t.digits, t.behind);
    FirstIsNoBlank(t.sign, rest);
    PrefixSkipped(t.prefix, t.digits, t.behind);
    RunReads(t.digits, t.behind, 0, Nothing);
    SignRead(t.sign + rest, t.sign, rest);
    BlanksFirst(t.before, t.sign + rest);
  }

  lemma FirstIsNoSign(p: seq<byte>, g: seq<byte>, b: seq<byte>)
    requires Prefix(p) && DigitRun(g, false)
    ensures var rest := p + (g + b); rest != [] && rest[0] != 0x2B && rest[0] != 0x2D && !BlankChar(rest[0])
  {
    RunStarts(g);
    var rest := p + (g + b);
    assert rest[0] == if p == [] then g[0] else p[0];
  }

  lemma FirstIsNoBlank(sign: seq<byte>, rest: seq<byte>)
    requires Sign(sign) && rest != [] && !BlankChar(rest[0])
    ensures sign + rest != [] && !BlankChar((sign + rest)[0])
  {
  }

  /** And only then. */
  lemma NumberWritten(s: seq<byte>) returns (t: NumberText)
    requires ReadNumber(s).Some?
    ensures Writes(t, s, ReadNumber(s).value)
  {
    hide ReadDigits, SkipPrefix, SkipBlanks, Value, DigitRun, AllBlank;
    var before := SkippedBlanks(s);
    var u := SkipBlanks(s);
    var signed := u != [] && (u[0] == 0x2B || u[0] == 0x2D);
    var rest := if signed then u[1..] else u;
    var sign: seq<byte> := if signed then [u[0]] else [];
    var prefix := SkippedPrefix(rest);
    var digits, behind := ReadIsRun(SkipPrefix(rest), 0, Nothing);
    t := NumberText(before, sign, prefix, digits, behind);
    assert u == sign + rest;
  }

  // ---- slices -----------------------------------------------------------------------------------

  /** Where a slice bound falls in n bytes: counted from the end if it is negative, and inside at any rate. */
  function Bound(n: nat, i: int): (k: nat)
    ensures k <= n
  {
    if i + n < 0 then 0 else if i < 0 then n + i else if i > n then n else i
  }

  lemma PartInNumbers(d: seq<byte>, a: int, b: int)
    ensures var lo, hi := Bound(|d|, a), Bound(|d|, b); Part(d, a, b) == if lo <= hi then d[lo..hi] else []
  {
  }

  // ---- any header -------------------------------------------------------------------------------

  /** The k-th number of the header at p, if it is one. */
  ghost function NumberAt(d: seq<byte>, p: int, k: nat): Option<int> {
    ReadNumber(Part(d, p + 6 + 8 * k, p + 14 + 8 * k))
  }

  /** The thirteen numbers are read in the order they stand, and one that is none breaks the reader. */
  lemma {:induction false} FieldsInNumbers(d: seq<byte>, p: int, n: nat)
    requires n <= 13
    ensures FieldsAt(d, p, n).Some? <==> forall k :: 0 <= k < n ==> NumberAt(d, p, k).Some?
    ensures FieldsAt(d, p, n).Some? ==> forall k :: 0 <= k < n ==> NumberAt(d, p, k) == Some(FieldsAt(d, p, n).value[k])
  {
    hide ReadNumber, Part;
    if n > 0 {
      FieldsInNumbers(d, p, n - 1);
      var last := NumberAt(d, p, n - 1);
    }
  }

  /** One turn of the reader over any header, with any numbers: second the mode, seventh the size and twelfth the
      length of the name. */
  lemma MemberInNumbers(d: seq<byte>, p: int)
    ensures match FieldsAt(d, p, 13)
            case None => MemberAt(d, p) == Broken
            case Some(f) =>
              var name, start := Part(d, p + 110, p + 110 + f[11] - 1), (p + 110 + f[11] + 3) / 4 * 4;
              MemberAt(d, p) ==
              if name == [0x54, 0x52, 0x41, 0x49, 0x4C, 0x45, 0x52, 0x21, 0x21, 0x21] then Stop
              else Yield(Member(name, if f[1] / 0x1000 % 16 == 8 then Some(Part(d, start, start + f[6])) else None),
                         (start + f[6] + 3) / 4 * 4)
  {
    hide Part, FieldsAt;
    var f := FieldsAt(d, p, 13);
    if f.Some? { assert p + 110 + f.value[11] - 1 == p + 109 + f.value[11]; }
  }
}
