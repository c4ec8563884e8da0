/** A structure block written token by token, as section 5.4 of the Devicetree Specification v0.4 lays it out, is walked
    as those tokens; and the names, in characters. */
module FdtTokens {
  import opened Bytes
  import opened FdtPatch

  // ---- characters -------------------------------------------------------------------------------

  /** The bytes of a string of ASCII characters. */
  ghost function Ascii(s: string): seq<byte>
    requires forall i :: 0 <= i < |s| ==> s[i] < 128 as char
  {
    seq(|s|, i requires 0 <= i < |s| => s[i] as int)
  }

  /** The two properties looked for are linux,initrd-start and linux,initrd-end of /chosen. */
  lemma NamesInCharacters()
    ensures Chosen() == [[], Ascii("chosen")]
    ensures StartName() == Ascii("linux,initrd-start") && EndName() == Ascii("linux,initrd-end")
  {
    assert StartName() == Ascii("linux,initrd-start");
    assert EndName() == Ascii("linux,initrd-end");
    assert Chosen()[1] == Ascii("chosen");
  }

  /** The numbers that stand for a character. */
  ghost predicate Scalar(c: nat) {
    c < 0xD800 || 0xE000 <= c < 0x11_0000
  }

  /** UTF-8. */
  ghost function Utf8Bytes(c: nat): seq<byte>
    requires Scalar(c)
  {
    if c < 0x80 then [c]
    else if c < 0x800 then [0xC0 + c / 64, 0x80 + c % 64]
    else if c < 0x1_0000 then [0xE0 + c / 4096, 0x80 + c / 64 % 64, 0x80 + c % 64]
    else [0xF0 + c / 262144, 0x80 + c / 4096 % 64, 0x80 + c / 64 % 64, 0x80 + c % 64]
  }

  ghost function Text(cs: seq<nat>): seq<byte>
    requires forall c :: c in cs ==> Scalar(c)
  {
    if cs == [] then [] else Utf8Bytes(cs[0]) + Text(cs[1..])
  }

  lemma CharRead(c: nat, tail: seq<byte>)
    requires Scalar(c)
    ensures CharLength(Utf8Bytes(c) + tail) == |Utf8Bytes(c)|
  {
    var b := Utf8Bytes(c);
    assert forall i :: 0 <= i < |b| ==> (b + tail)[i] == b[i];
    CharDigits(c);
  }

  lemma CharDigits(c: nat)
    requires Scalar(c)
    ensures c / 4096 * 64 + c / 64 % 64 == c / 64
    ensures c / 262144 * 64 + c / 4096 % 64 == c / 4096
  {
  }

  lemma {:induction false} TextIsUtf8(cs: seq<nat>)
    requires forall c :: c in cs ==> Scalar(c)
    ensures Utf8(Text(cs))
  {
    if cs != [] {
      TextIsUtf8(cs[1..]);
      CharRead(cs[0], Text(cs[1..]));
      var b, rest := Utf8Bytes(cs[0]), Text(cs[1..]);
      assert (b + rest)[|b|..] == rest;
      hide CharLength;
    }
  }

  lemma TwoDigits(x: nat, y: nat)
    requires y < 64
    ensures (x * 64 + y) / 64 == x && (x * 64 + y) % 64 == y
  {
  }

  lemma TwoBytes(s: seq<byte>) returns (c: nat)
    requires |s| == 2 && 0xc2 <= s[0] <= 0xdf && 0x80 <= s[1] <= 0xbf
    ensures Scalar(c) && s == Utf8Bytes(c)
  {
    var x: int, y: int := s[0] - 0xc0, s[1] - 0x80;
    c := x * 64 + y;
    TwoDigits(x, y);
    assert s == [s[0], s[1]];
  }

  lemma ThreeBytes(s: seq<byte>) returns (c: nat)
    requires |s| == 3 && 0xe0 <= s[0] <= 0xef && 0x80 <= s[2] <= 0xbf
    requires (if s[0] == 0xe0 then 0xa0 else 0x80) <= s[1] <= (if s[0] == 0xed then 0x9f else 0xbf)
    ensures Scalar(c) && s == Utf8Bytes(c)
  {
    var x: int, y: int, z: int := s[0] - 0xe0, s[1] - 0x80, s[2] - 0x80;
    c := (x * 64 + y) * 64 + z;
    TwoDigits(x * 64 + y, z);
    TwoDigits(x, y);
    assert c / 4096 == c / 64 / 64;
    assert s == [s[0], s[1], s[2]];
  }

  lemma FourBytes(s: seq<byte>) returns (c: nat)
    requires |s| == 4 && 0xf0 <= s[0] <= 0xf4 && 0x80 <= s[2] <= 0xbf && 0x80 <= s[3] <= 0xbf
    requires (if s[0] == 0xf0 then 0x90 else 0x80) <= s[1] <= (if s[0] == 0xf4 then 0x8f else 0xbf)
    ensures Scalar(c) && s == Utf8Bytes(c)
  {
    var x: int, y: int, z: int, w: int := s[0] - 0xf0, s[1] - 0x80, s[2] - 0x80, s[3] - 0x80;
    c := ((x * 64 + y) * 64 + z) * 64 + w;
    TwoDigits((x * 64 + y) * 64 + z, w);
    TwoDigits(x * 64 + y, z);
    TwoDigits(x, y);
    assert c / 4096 == c / 64 / 64 && c / 262144 == c / 64 / 64 / 64;
    assert s == [s[0], s[1], s[2], s[3]];
  }

  lemma CharWritten(s: seq<byte>) returns (c: nat)
    requires s != [] && CharLength(s) > 0
    ensures Scalar(c) && s[..CharLength(s)] == Utf8Bytes(c)
  {
    hide Scalar, Utf8Bytes;
    if s[0] < 0x80 {
      c := OneByte(s);
    } else if s[0] < 0xe0 {
      c := TwoBytes(s[..2]);
    } else if s[0] < 0xf0 {
      c := ThreeBytes(s[..3]);
    } else {
      c := FourBytes(s[..4]);
    }
  }

  lemma OneByte(s: seq<byte>) returns (c: nat)
    requires s != [] && s[0] < 0x80
    ensures Scalar(c) && s[..1] == Utf8Bytes(c)
  {
    c := s[0];
    assert s[..1] == [s[0]];
  }

  /** Names decode exactly if they are the UTF-8 of some characters. */
  lemma {:induction false} Utf8IsText(s: seq<byte>) returns (cs: seq<nat>)
    requires Utf8(s)
    ensures forall c :: c in cs ==> Scalar(c)
    ensures Text(cs) == s
  {
    if s == [] {
      cs := [];
    } else {
      var n := CharLength(s);
      var c := CharWritten(s);
      var rest := Utf8IsText(s[n..]);
      cs := [c] + rest;
      assert s == s[..n] + s[n..] && cs[1..] == rest;
    }
  }

  // ---- tokens -----------------------------------------------------------------------------------

  /** at and nameAt: where the value and the name lie in the blob. */
  datatype Token =
    | NodeBegins(name: Name)
    | NodeEnds
    | Property(at: nat, nameAt: nat, name: Name, value: seq<byte>)
    | Nothing

  /** These bytes and a zero, none of them zero, and decodable. */
  ghost predicate NameAt(d: seq<byte>, p: nat, name: Name) {
    p + |name| < |d| && d[p..p + |name|] == name && d[p + |name|] == 0 && 0 !in name && Utf8(name)
  }

  ghost predicate TokenWord(d: seq<byte>, p: nat, tok: byte) {
    p + 4 <= |d| && d[p] == 0 && d[p + 1] == 0 && d[p + 2] == 0 && d[p + 3] == tok
  }

  /** The token at p, with the next one at next: 1 and a name, 2, 3 with the length, the offset of the name and the
      value, or 4; filled up to a multiple of four. */
  ghost predicate TokenAt(d: seq<byte>, strings: nat, p: nat, t: Token, next: nat) {
    match t
    case NodeBegins(name) => TokenWord(d, p, 1) && NameAt(d, p + 4, name) && next == (p + |name| + 8) / 4 * 4
    case NodeEnds => TokenWord(d, p, 2) && next == p + 4
    case Property(at, nameAt, name, value) =>
      && TokenWord(d, p, 3) && at == p + 12 && at + |value| <= |d| && U32be(d, p + 4) == |value|
      && nameAt == strings + U32be(d, p + 8) && NameAt(d, nameAt, name) && d[at..at + |value|] == value
      && next == (at + |value| + 3) / 4 * 4
    case Nothing => TokenWord(d, p, 4) && next == p + 4
  }

  /** The tokens one after the other, then 9. */
  ghost predicate TokensAt(d: seq<byte>, strings: nat, p: nat, ts: seq<Token>)
    decreases |ts|
  {
    if ts == [] then TokenWord(d, p, 9)
    else exists next: nat :: TokenAt(d, strings, p, ts[0], next) && TokensAt(d, strings, next, ts[1..])
  }

  /** No more nodes end than begin, and the two properties looked for are of four bytes. */
  ghost predicate WellNested(path: seq<Name>, ts: seq<Token>)
    decreases |ts|
  {
    ts == [] ||
    match ts[0]
    case NodeBegins(name) => WellNested(path + [name], ts[1..])
    case NodeEnds => path != [] && WellNested(path[..|path| - 1], ts[1..])
    case Property(_, _, name, value) =>
      && (path == [[], Ascii("chosen")] && (name == Ascii("linux,initrd-start") || name == Ascii("linux,initrd-end"))
          ==> |value| == 4)
      && WellNested(path, ts[1..])
    case Nothing => WellNested(path, ts[1..])
  }

  ghost function EventOf(t: Token): Event {
    match t
    case NodeBegins(name) => Begin(name)
    case NodeEnds => Leave
    case Property(at, nameAt, name, value) => Prop(name, nameAt, at, |value|)
    case Nothing => Nop
  }

  ghost function EventsOf(ts: seq<Token>): seq<Event> {
    if ts == [] then [] else [EventOf(ts[0])] + EventsOf(ts[1..])
  }

  lemma WordReads(d: seq<byte>, p: nat, tok: byte)
    requires TokenWord(d, p, tok)
    ensures U32be(d, p) == tok
  {
    U32beInNumbers(d, p);
  }

  lemma NameEndsAt(d: seq<byte>, p: nat, name: Name)
    requires NameAt(d, p, name)
    ensures IndexZero(d, p) == Some(p + |name|)
  {
    hide Utf8;
    var e := IndexZero(d, p);
    assert forall i :: p <= i < p + |name| ==> d[i] == name[i - p] != 0 by {
      forall i | p <= i < p + |name| ensures d[i] == name[i - p] && name[i - p] in name {
        assert d[p..p + |name|][i - p] == name[i - p];
      }
    }
  }

  lemma TokenTurn(d: seq<byte>, strings: nat, p: nat, path: seq<Name>, t: Token, next: nat)
    requires TokenAt(d, strings, p, t, next) && WellNested(path, [t])
    ensures TurnAt(d, strings, p, path) == Move(EventOf(t), next, After(path, EventOf(t)))
  {
    hide Utf8, U32be, Ascii, IndexZero, IsInitrd, PropTurn;
    match t {
      case NodeBegins(name) =>
        WordReads(d, p, 1);
        NameEndsAt(d, p + 4, name);
      case NodeEnds => WordReads(d, p, 2);
      case Property(at, nameAt, name, value) => PropertyTurn(d, strings, p, path, t, next);
      case Nothing => WordReads(d, p, 4);
    }
  }

  lemma PropertyTurn(d: seq<byte>, strings: nat, p: nat, path: seq<Name>, t: Token, next: nat)
    requires t.Property? && TokenAt(d, strings, p, t, next) && WellNested(path, [t])
    ensures TurnAt(d, strings, p, path) == Move(EventOf(t), next, path)
  {
    NamesInCharacters();
    hide Utf8, U32be, Ascii, StartName, EndName, Chosen, IndexZero;
    WordReads(d, p, 3);
    NameEndsAt(d, t.nameAt, t.name);
  }

  lemma NestedOne(path: seq<Name>, ts: seq<Token>)
    requires ts != [] && WellNested(path, ts)
    ensures WellNested(path, [ts[0]]) && WellNested(After(path, EventOf(ts[0])), ts[1..])
  {
    hide Ascii;
    assert [ts[0]][1..] == [];
  }

  /** A structure block written so is walked as its tokens. */
  lemma {:induction false} TokensAreWalked(d: seq<byte>, strings: nat, p: nat, path: seq<Name>, ts: seq<Token>)
    requires TokensAt(d, strings, p, ts) && WellNested(path, ts)
    ensures Walk(d, strings, p, path) == Ok(EventsOf(ts))
    decreases |ts|
  {
    hide TokenAt, WellNested, After, EventOf, TurnAt;
    if ts == [] {
      EndTurn(d, strings, p, path);
    } else {
      var next: nat :| TokenAt(d, strings, p, ts[0], next) && TokensAt(d, strings, next, ts[1..]);
      NestedOne(path, ts);
      TokenTurn(d, strings, p, path, ts[0], next);
      TokensAreWalked(d, strings, next, After(path, EventOf(ts[0])), ts[1..]);
    }
  }

  lemma EndTurn(d: seq<byte>, strings: nat, p: nat, path: seq<Name>)
    requires TokenWord(d, p, 9)
    ensures TurnAt(d, strings, p, path) == Halt
  {
    WordReads(d, p, 9);
    hide U32be;
  }

  /** The scan starts at the offsets the header gives: the structure at its third word, the strings at its fourth. */
  lemma ScanInNumbers(d: seq<byte>)
    ensures Scan(d) == if |d| < 16 then Err(StructError)
                       else if d[..4] != [0xd0, 0x0d, 0xfe, 0xed] then Err(NoDtb)
                       else Walk(d, U32be(d, 12), U32be(d, 8), [])
  {
    hide Walk, BE;
    if |d| >= 16 {
      U32beInNumbers(d, 0);
      assert d[..4] == [d[0], d[1], d[2], d[3]];
    }
  }

  /** What ends the walk with an error. */
  lemma TurnFails(d: seq<byte>, strings: nat, p: nat, path: seq<Name>)
    ensures p + 4 > |d| ==> TurnAt(d, strings, p, path) == Fail(StructError)
    ensures p + 4 <= |d| && U32be(d, p) !in {1, 2, 3, 4, 9} ==> TurnAt(d, strings, p, path) == Fail(BadToken)
    ensures TokenWord(d, p, 1) && (forall i :: p + 4 <= i < |d| ==> d[i] != 0) ==>
              TurnAt(d, strings, p, path) == Fail(NoTerminator)
    ensures TokenWord(d, p, 2) && path == [] ==> TurnAt(d, strings, p, path) == Fail(PopEmpty)
    ensures TokenWord(d, p, 3) && p + 12 > |d| ==> TurnAt(d, strings, p, path) == Fail(StructError)
    ensures TokenWord(d, p, 3) && p + 12 <= |d| && (forall i :: strings + U32be(d, p + 8) <= i < |d| ==> d[i] != 0) ==>
              TurnAt(d, strings, p, path) == Fail(NoTerminator)
  {
    hide U32be, Utf8, IsInitrd;
    if TokenWord(d, p, 1) { WordReads(d, p, 1); }
    if TokenWord(d, p, 2) { WordReads(d, p, 2); }
    if TokenWord(d, p, 3) { WordReads(d, p, 3); }
  }

  /** A name that is not UTF-8, or a cell looked for that is not of four bytes. */
  lemma NameFails(d: seq<byte>, strings: nat, p: nat, path: seq<Name>, e: nat)
    requires p + 12 <= |d| && p + 4 <= e < |d| && d[e] == 0
    ensures TokenWord(d, p, 1) && 0 !in d[p + 4..e] && !Utf8(d[p + 4..e]) ==>
              TurnAt(d, strings, p, path) == Fail(NotUtf8)
    ensures var at := strings + U32be(d, p + 8);
            TokenWord(d, p, 3) && at <= e && 0 !in d[at..e] ==>
              if !Utf8(d[at..e]) then TurnAt(d, strings, p, path) == Fail(NotUtf8)
              else path == [[], Ascii("chosen")] && U32be(d, p + 4) != 4
                   && (d[at..e] == Ascii("linux,initrd-start") || d[at..e] == Ascii("linux,initrd-end")) ==>
                     TurnAt(d, strings, p, path) == Fail(NotOneCell)
  {
    NamesInCharacters();
    hide U32be, Utf8, Ascii, StartName, EndName, Chosen, IndexZero;
    if TokenWord(d, p, 1) && 0 !in d[p + 4..e] {
      WordReads(d, p, 1);
      ZeroAt(d, p + 4, e);
    }
    var at := strings + U32be(d, p + 8);
    if TokenWord(d, p, 3) && at <= e && 0 !in d[at..e] {
      WordReads(d, p, 3);
      ZeroAt(d, at, e);
    }
  }

  lemma ZeroAt(d: seq<byte>, p: nat, e: nat)
    requires p <= e < |d| && d[e] == 0 && 0 !in d[p..e]
    ensures IndexZero(d, p) == Some(e)
  {
    var z := IndexZero(d, p);
    assert forall i :: p <= i < e ==> d[i] != 0 by {
      forall i | p <= i < e ensures d[i] in d[p..e] { assert d[p..e][i - p] == d[i]; }
    }
  }
}
