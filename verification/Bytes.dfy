/** Bytes, fixed-width integers and the two error-carrying wrappers shared by all modules. */
module Bytes {

  type byte = x: int | 0 <= x < 256

  datatype Option<+T> = None | Some(value: T)

  datatype Result<+T, +E> = Ok(value: T) | Err(error: E)

  /** 1 << n. */
  function Pow2(n: nat): (p: nat)
    ensures p > 0
  {
    if n == 0 then 1 else 2 * Pow2(n - 1)
  }

  /** A run of n equal elements. */
  function Repeat<T>(x: T, n: nat): (s: seq<T>)
    ensures |s| == n && forall i :: 0 <= i < n ==> s[i] == x
  {
    seq(n, _ => x)
  }

  function Min(a: int, b: int): int {
    if a <= b then a else b
  }

  function Max(a: int, b: int): int {
    if a <= b then b else a
  }

  /** s[a:b] with both ends cut to the sequence. */
  function Slice<T>(s: seq<T>, a: nat, b: nat): (r: seq<T>)
    ensures a <= b <= |s| ==> r == s[a..b]
    ensures |r| <= if a <= b then b - a else 0
  {
    var lo := Min(a, |s|);
    var hi := Max(lo, Min(b, |s|));
    s[lo..hi]
  }

  /** s is what is left of src from position i on. */
  ghost predicate Rest(src: seq<byte>, i: nat, s: seq<byte>) {
    i <= |src| && src[i..] == s
  }

  lemma RestSkips(src: seq<byte>, i: nat, a: seq<byte>, b: seq<byte>)
    requires Rest(src, i, a + b)
    ensures i + |a| + |b| == |src| && Rest(src, i + |a|, b) && src[i..i + |a|] == a
  {
    assert src[i..i + |a|] == (a + b)[..|a|];
    assert src[i + |a|..] == src[i..][|a|..];
  }

  lemma SliceOfSlice(d: seq<byte>, a: nat, b: nat, i: nat, j: nat)
    requires a <= b <= |d| && i <= j <= b - a
    ensures d[a..b][i..j] == d[a + i..a + j]
  {
    var s, t := d[a..b][i..j], d[a + i..a + j];
    assert |s| == |t|;
    forall k | 0 <= k < |s| ensures s[k] == t[k] {
      assert s[k] == d[a..b][i + k] == d[a + (i + k)];
    }
  }

  /** A set of numbers from a range has no more than fit there. */
  lemma {:induction false} RangeCount(s: set<int>, lo: int, hi: int)
    requires lo <= hi && forall x :: x in s ==> lo <= x < hi
    ensures |s| <= hi - lo
    decreases hi - lo
  {
    if lo == hi {
      assert s == {};
    } else {
      RangeCount(s - {hi - 1}, lo, hi - 1);
      assert hi - 1 in s ==> |s| == |s - {hi - 1}| + 1;
      assert hi - 1 !in s ==> s - {hi - 1} == s;
    }
  }

  // ---- alignment and width ----------------------------------------------------------------------

  /** What is missing from n to a multiple of k. */
  function Padding(n: nat, k: nat): (z: nat)
    requires k > 0
    ensures z < k
  {
    (k - n % k) % k
  }

  /** The next multiple of four. */
  function Align4(n: int): (r: int)
    ensures n <= r < n + 4 && r % 4 == 0
  {
    (n + 3) / 4 * 4
  }

  lemma PaddingAligns(n: nat)
    ensures n + Padding(n, 4) == Align4(n) && Align4(n) % 4 == 0
  {
    assert n == n / 4 * 4 + n % 4;
  }

  lemma AlignShifts(p: nat, n: nat)
    requires p % 4 == 0
    ensures Align4(p + n) == p + Align4(n)
  {
  }

  predicate Fits32(n: nat) {
    n < 0x1_0000_0000
  }

  // ---- integers as bytes ------------------------------------------------------------------------

  function LE(s: seq<byte>): (n: nat)
  {
    if s == [] then 0 else s[0] + 256 * LE(s[1..])
  }

  function BE(s: seq<byte>): (n: nat)
  {
    if s == [] then 0 else BE(s[..|s| - 1]) * 256 + s[|s| - 1]
  }

  /** The k low bytes of n, lowest first. */
  function ToLE(n: nat, k: nat): (s: seq<byte>)
    ensures |s| == k
  {
    if k == 0 then [] else [n % 256] + ToLE(n / 256, k - 1)
  }

  /** The k low bytes of n, highest first. */
  function ToBE(n: nat, k: nat): (s: seq<byte>)
    ensures |s| == k
  {
    if k == 0 then [] else ToBE(n / 256, k - 1) + [n % 256]
  }

  /** 256 to the power k. */
  function Pow256(k: nat): (p: nat)
    ensures p > 0
  {
    if k == 0 then 1 else 256 * Pow256(k - 1)
  }

  lemma {:induction false} LERoundTrip(n: nat, k: nat)
    requires n < Pow256(k)
    ensures LE(ToLE(n, k)) == n
  {
    if k > 0 { LERoundTrip(n / 256, k - 1); }
  }

  lemma {:induction false} BERoundTrip(n: nat, k: nat)
    requires n < Pow256(k)
    ensures BE(ToBE(n, k)) == n
  {
    if k > 0 {
      BERoundTrip(n / 256, k - 1);
      assert ToBE(n, k)[..k - 1] == ToBE(n / 256, k - 1);
    }
  }

  lemma LEUnfolds(s: seq<byte>)
    requires s != []
    ensures LE(s) == s[0] + 256 * LE(s[1..])
    ensures |s| == 1 ==> LE(s[1..]) == 0
  {
  }

  lemma {:induction false} LEBound(s: seq<byte>)
    ensures LE(s) < Pow256(|s|)
  {
    if s != [] { LEBound(s[1..]); }
  }

  lemma {:induction false} BEBound(s: seq<byte>)
    ensures BE(s) < Pow256(|s|)
  {
    if s != [] { BEBound(s[..|s| - 1]); }
  }

  lemma BytesOfWord(s: seq<byte>)
    requires |s| == 4
    ensures BE(s) == ((s[0] as int * 256 + s[1]) * 256 + s[2]) * 256 + s[3]
  {
    assert s[..3][..2] == s[..2] && s[..2][..1] == s[..1] && s[..1][..0] == [];
    assert BE(s[..1]) == BE([]) * 256 + s[0];
    assert BE(s[..2]) == s[0] as int * 256 + s[1];
    assert BE(s[..3]) == (s[0] as int * 256 + s[1]) * 256 + s[2];
  }

  function U16be(b: seq<byte>, o: nat): nat
    requires o + 2 <= |b|
  {
    BE(b[o..o + 2])
  }

  function U32be(b: seq<byte>, o: nat): nat
    requires o + 4 <= |b|
  {
    BE(b[o..o + 4])
  }

  function U64be(b: seq<byte>, o: nat): nat
    requires o + 8 <= |b|
  {
    BE(b[o..o + 8])
  }

  function U16le(b: seq<byte>, o: nat): nat
    requires o + 2 <= |b|
  {
    LE(b[o..o + 2])
  }

  function U32le(b: seq<byte>, o: nat): nat
    requires o + 4 <= |b|
  {
    LE(b[o..o + 4])
  }

  // ---- the same in single bytes -----------------------------------------------------------------

  lemma U16leInNumbers(b: seq<byte>, o: nat)
    requires o + 2 <= |b|
    ensures U16le(b, o) == b[o + 1] as int * 256 + b[o]
  {
    var s := b[o..o + 2];
    LEUnfolds(s);
    LEUnfolds(s[1..]);
  }

  lemma U32leInNumbers(b: seq<byte>, o: nat)
    requires o + 4 <= |b|
    ensures U32le(b, o)
            == b[o + 3] as int * 16777216 + b[o + 2] as int * 65536 + b[o + 1] as int * 256 + b[o]
  {
    var s := b[o..o + 4];
    LEUnfolds(s);
    LEUnfolds(s[1..]);
    LEUnfolds(s[1..][1..]);
    LEUnfolds(s[1..][1..][1..]);
  }

  lemma U32beInNumbers(b: seq<byte>, o: nat)
    requires o + 4 <= |b|
    ensures U32be(b, o)
            == b[o] as int * 16777216 + b[o + 1] as int * 65536 + b[o + 2] as int * 256 + b[o + 3]
  {
    BytesOfWord(b[o..o + 4]);
  }

  lemma U16beInNumbers(b: seq<byte>, o: nat)
    requires o + 2 <= |b|
    ensures U16be(b, o) == b[o] as int * 256 + b[o + 1]
  {
    var s := b[o..o + 2];
    assert s[..1][..0] == [] && BE(s[..1]) == BE([]) * 256 + s[0];
  }

  lemma U64beInNumbers(b: seq<byte>, o: nat)
    requires o + 8 <= |b|
    ensures U64be(b, o) == U32be(b, o) * 0x1_0000_0000 + U32be(b, o + 4)
  {
    var s := b[o..o + 8];
    assert s[..4] == b[o..o + 4] && s[4..] == b[o + 4..o + 8];
    BETail(s[..4], s[4..]);
    assert s == s[..4] + s[4..];
    assert Pow256(4) == 0x1_0000_0000;
  }

  lemma {:induction false} BETail(a: seq<byte>, b: seq<byte>)
    ensures BE(a + b) == BE(a) * Pow256(|b|) + BE(b)
  {
    if b == [] {
      assert a + b == a;
    } else {
      var k := |b| - 1;
      BETail(a, b[..k]);
      assert (a + b)[..|a| + k] == a + b[..k];
      ShiftedSum(BE(a), Pow256(k), BE(b[..k]), b[k]);
    }
  }

  lemma ShiftedSum(x: nat, p: nat, y: nat, z: nat)
    ensures (x * p + y) * 256 + z == x * (256 * p) + (y * 256 + z)
  {
  }

  lemma ToLEInNumbers(n: nat)
    ensures ToLE(n, 2) == [n % 256, n / 256 % 256]
    ensures ToLE(n, 4) == [n % 256, n / 256 % 256, n / 65536 % 256, n / 16777216 % 256]
  {
    assert n / 256 / 256 == n / 65536 && n / 65536 / 256 == n / 16777216;
    assert ToLE(n / 16777216, 1) == [n / 16777216 % 256];
    assert ToLE(n / 65536, 2) == [n / 65536 % 256] + ToLE(n / 16777216, 1);
    assert ToLE(n / 256, 3) == [n / 256 % 256] + ToLE(n / 65536, 2);
    assert ToLE(n / 256, 1) == [n / 256 % 256];
  }
}
