/** The complzss stream: tokens, the 4096-byte ring seen as a function of the output, the packing of
    tokens behind flag bytes, and one reference decoder. */
module LzssFormat {
  import opened Bytes

  const N := 4096
  const F := 18
  const THR := 2

  datatype Token = Lit(c: byte) | Ref(pos: nat, len: nat)

  predicate ValidToken(t: Token) {
    t.Ref? ==> t.pos < N && THR + 1 <= t.len <= F
  }

  predicate ValidTokens(ts: seq<Token>) {
    forall t :: t in ts ==> ValidToken(t)
  }

  function TokenBytes(t: Token): (b: seq<byte>)
    requires ValidToken(t)
  {
    match t
    case Lit(c) => [c]
    case Ref(pos, len) => [pos % 256, pos / 256 * 16 + (len - (THR + 1))]
  }

  function Body(ts: seq<Token>): seq<byte>
    requires ValidTokens(ts)
  {
    if ts == [] then [] else TokenBytes(ts[0]) + Body(ts[1..])
  }

  /** Bit k is set when token k is a literal. */
  function Flags(ts: seq<Token>): (f: nat)
    ensures f < Pow2(|ts|)
  {
    if ts == [] then 0 else (if ts[0].Lit? then 1 else 0) + 2 * Flags(ts[1..])
  }

  function FlagByte(ts: seq<Token>): (f: byte)
    requires |ts| <= 8
    ensures f == Flags(ts)
  {
    assert Pow2(8) == 256;
    Pow2Monotone(|ts|, 8);
    Flags(ts)
  }

  lemma {:induction false} Pow2Monotone(a: nat, b: nat)
    requires a <= b
    ensures Pow2(a) <= Pow2(b)
  {
    if a < b { Pow2Monotone(a, b - 1); }
  }

  /** A flag byte and the tokens it announces. */
  function Group(ts: seq<Token>): seq<byte>
    requires ValidTokens(ts) && |ts| <= 8
  {
    [FlagByte(ts)] + Body(ts)
  }

  /** The stream of a token list: groups of eight, the last one possibly shorter. */
  function Pack(ts: seq<Token>): seq<byte>
    requires ValidTokens(ts)
  {
    if ts == [] then []
    else if |ts| <= 8 then Group(ts)
    else Group(ts[..8]) + Pack(ts[8..])
  }

  // ---- the ring as a function of the output -----------------------------------------------------

  /** How many bytes ago ring cell x was last written, once n bytes have gone through the ring:
      byte j goes to cell (N - F + j) mod N, so the age is between 1 and N. */
  function Age(n: nat, x: nat): (a: nat)
    ensures 1 <= a <= N
  {
    (n + (N - F) - 1 - x) % N + 1
  }

  function Cell(fill: byte, out: seq<byte>, x: nat): byte {
    var a := Age(|out|, x);
    if a <= |out| then out[|out| - a] else fill
  }

  ghost predicate RingHolds(ring: seq<byte>, fill: byte, out: seq<byte>) {
    |ring| == N && forall x :: 0 <= x < N ==> ring[x] == Cell(fill, out, x)
  }

  /** The cell the next byte is written to. */
  function WritePos(n: nat): (r: nat)
    ensures r < N
  {
    (N - F + n) % N
  }

  lemma AgeStep(n: nat, x: nat)
    requires x < N
    ensures x == WritePos(n) ==> Age(n + 1, x) == 1 && Age(n, x) == N
    ensures x != WritePos(n) ==> Age(n + 1, x) == Age(n, x) + 1
  {
    var v := n + (N - F) - 1 - x;
    assert (v + 1) % N == if v % N == N - 1 then 0 else v % N + 1;
    assert (v + 1 + x) % N == x <==> (v + 1) % N == 0;
  }

  lemma CellStep(fill: byte, out: seq<byte>, c: byte, x: nat)
    requires x < N
    ensures Cell(fill, out + [c], x) == if x == WritePos(|out|) then c else Cell(fill, out, x)
  {
    AgeStep(|out|, x);
  }

  lemma RingStep(ring: seq<byte>, fill: byte, out: seq<byte>, c: byte)
    requires RingHolds(ring, fill, out)
    ensures RingHolds(ring[WritePos(|out|) := c], fill, out + [c])
    ensures WritePos(|out| + 1) == (WritePos(|out|) + 1) % N
  {
    var r := WritePos(|out|);
    forall x | 0 <= x < N
      ensures ring[r := c][x] == Cell(fill, out + [c], x)
    {
      hide Cell;
      CellStep(fill, out, c, x);
    }
  }

  lemma RingStart(fill: byte)
    ensures RingHolds(Repeat(fill, N), fill, [])
  {
  }

  // ---- playing tokens ---------------------------------------------------------------------------

  /** len bytes read from the ring at pos, each written back before the next is read. */
  function Copy(fill: byte, out: seq<byte>, pos: nat, len: nat): (r: seq<byte>)
    ensures |r| == |out| + len && r[..|out|] == out
    decreases len
  {
    if len == 0 then out
    else Copy(fill, out + [Cell(fill, out, pos % N)], pos + 1, len - 1)
  }

  function Expand(fill: byte, out: seq<byte>, t: Token): (r: seq<byte>)
    ensures |out| <= |r| && r[..|out|] == out
  {
    match t
    case Lit(c) => out + [c]
    case Ref(pos, len) => Copy(fill, out, pos, len)
  }

  // ---- the reference decoder --------------------------------------------------------------------

  /** Why decoding stopped: enough output, no more input, a reference cut after its first byte, or a
      flag byte with nothing behind it. */
  datatype Stop = Full | Ended | CutRef | LoneFlag

  datatype Decoded = Decoded(out: seq<byte>, stop: Stop)

  function RefAt(src: seq<byte>, i: nat): (t: Token)
    requires i + 1 < |src|
    ensures t.Ref? && ValidToken(t)
  {
    var b1: int, b2: int := src[i], src[i + 1];
    Ref(b1 + b2 / 16 * 256, b2 % 16 + THR + 1)
  }

  /** Decode from input position i with nb flag bits left in fl (lowest first). */
  function Decode(fill: byte, src: seq<byte>, i: nat, fl: nat, nb: nat, out: seq<byte>, outlen: nat): (d: Decoded)
    requires i <= |src|
    decreases |src| - i
  {
    if |out| >= outlen then Decoded(out, Full)
    else if i == |src| then Decoded(out, Ended)
    else if nb == 0 then
      if i + 1 == |src| then Decoded(out, LoneFlag)
      else Decode(fill, src, i + 1, src[i], 8, out, outlen)
    else if fl % 2 == 1 then
      Decode(fill, src, i + 1, fl / 2, nb - 1, out + [src[i]], outlen)
    else if i + 1 == |src| then Decoded(out, CutRef)
    else Decode(fill, src, i + 2, fl / 2, nb - 1, Expand(fill, out, RefAt(src, i)), outlen)
  }

  function DecodeAll(fill: byte, src: seq<byte>, outlen: nat): Decoded {
    Decode(fill, src, 0, 0, 0, [], outlen)
  }

  lemma RefRoundTrip(t: Token, a: seq<byte>, b: seq<byte>)
    requires ValidToken(t) && t.Ref?
    ensures RefAt(a + TokenBytes(t) + b, |a|) == t
  {
    var s := a + TokenBytes(t) + b;
    assert s[|a|] == t.pos % 256 && s[|a| + 1] == t.pos / 256 * 16 + (t.len - 3);
  }
}
