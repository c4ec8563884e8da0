/** repair_lzss_img4.py: reading and writing DER items (section 8.1 of ITU-T X.690), definite lengths only. */
module DerItems {
  import opened Bytes

  datatype DerError =
    | IndexError
    | IndefiniteLength
    | TruncatedObject
    | LengthTooLong
    | NotOneSequence
    | NotImg4
    | NotFourFieldsAndRecord
    | NotLzss
    | NoCompressionSequence
    | BadRecord
    | NotLzssEnum
    | SizeMismatch
    | AssertionFailed

  /** tag, contents and the whole encoding of one item. */
  datatype Child = Child(tag: byte, body: seq<byte>, enc: seq<byte>)

  datatype Item = Item(child: Child, end: nat)

  // ---- reading ----------------------------------------------------------------------------------

  /** Past the continuation bytes of a high tag number. */
  function SkipTag(data: seq<byte>, pos: nat): (r: Result<nat, DerError>)
    ensures r.Ok? ==> pos < r.value <= |data|
    decreases |data| - pos
  {
    if pos >= |data| then Err(IndexError)
    else if data[pos] >= 128 then SkipTag(data, pos + 1)
    else Ok(pos + 1)
  }

  function AfterTag(data: seq<byte>, start: nat): (r: Result<nat, DerError>)
    requires start < |data|
    ensures r.Ok? ==> start < r.value <= |data|
  {
    if data[start] % 32 == 31 then SkipTag(data, start + 1) else Ok(start + 1)
  }

  datatype Header = Header(bodyStart: nat, length: nat)

  /** Where the contents start and how long they are, from the length at pos. */
  function LengthAt(data: seq<byte>, pos: nat): (r: Result<Header, DerError>)
    ensures r.Ok? ==> r.value.bodyStart > pos
  {
    if pos >= |data| then Err(IndexError)
    else if data[pos] < 128 then Ok(Header(pos + 1, data[pos]))
    else
      var count := data[pos] - 128;
      if count == 0 then Err(IndefiniteLength)
      else Ok(Header(pos + 1 + count, BE(Slice(data, pos + 1, pos + 1 + count))))
  }

  function ItemAt(data: seq<byte>, start: nat): (r: Result<Item, DerError>)
    ensures r.Ok? ==> start < r.value.end <= |data| && r.value.child.enc == data[start..r.value.end]
  {
    if start >= |data| then Err(IndexError)
    else
      match AfterTag(data, start)
      case Err(e) => Err(e)
      case Ok(pos) =>
        match LengthAt(data, pos)
        case Err(e) => Err(e)
        case Ok(h) =>
          var end := h.bodyStart + h.length;
          if end > |data| then Err(TruncatedObject)
          else Ok(Item(Child(data[start], data[h.bodyStart..end], data[start..end]), end))
  }

  function ChildrenFrom(data: seq<byte>, pos: nat): Result<seq<Child>, DerError>
    decreases |data| - pos
  {
    if pos >= |data| then Ok([])
    else
      match ItemAt(data, pos)
      case Err(e) => Err(e)
      case Ok(it) =>
        match ChildrenFrom(data, it.end)
        case Err(e) => Err(e)
        case Ok(rest) => Ok([it.child] + rest)
  }

  function Children(data: seq<byte>): Result<seq<Child>, DerError> {
    ChildrenFrom(data, 0)
  }

  /** The tag loop of item. */
  method ReadTag(data: seq<byte>, start: nat) returns (r: Result<nat, DerError>)
    requires start < |data|
    ensures r == AfterTag(data, start)
  {
    var pos := start + 1;
    if data[start] % 32 == 31 {
      while pos < |data| && data[pos] >= 128
        invariant start < pos <= |data|
        invariant SkipTag(data, pos) == AfterTag(data, start)
      {
        pos := pos + 1;
      }
      if pos >= |data| {
        return Err(IndexError);
      }
      pos := pos + 1;
    }
    r := Ok(pos);
  }

  method ReadItem(data: seq<byte>, start: nat) returns (r: Result<Item, DerError>)
    ensures r == ItemAt(data, start)
  {
    if start >= |data| {
      return Err(IndexError);
    }
    var tag := data[start];
    var past := ReadTag(data, start);
    if past.Err? {
      return Err(past.error);
    }
    hide AfterTag;
    var pos := past.value;
    if pos >= |data| {
      return Err(IndexError);
    }
    var length: nat := data[pos];
    pos := pos + 1;
    if length >= 128 {
      var count := length - 128;
      if count == 0 {
        return Err(IndefiniteLength);
      }
      length := BE(Slice(data, pos, pos + count));
      pos := pos + count;
    }
    var end := pos + length;
    if end > |data| {
      return Err(TruncatedObject);
    }
    r := Ok(Item(Child(tag, data[pos..end], data[start..end]), end));
  }

  method ReadChildren(data: seq<byte>) returns (r: Result<seq<Child>, DerError>)
    ensures r == Children(data)
  {
    hide ItemAt;
    var result: seq<Child>, pos := [], 0;
    ghost var all := ChildrenFrom(data, 0);
    if all.Ok? { assert [] + all.value == all.value; }
    while pos < |data|
      invariant pos <= |data|
      invariant match ChildrenFrom(data, pos)
                case Err(e) => Children(data) == Err(e)
                case Ok(rest) => Children(data) == Ok(result + rest)
      decreases |data| - pos
    {
      var it := ReadItem(data, pos);
      if it.Err? {
        return Err(it.error);
      }
      ghost var rest := ChildrenFrom(data, it.value.end);
      if rest.Ok? { assert result + ([it.value.child] + rest.value) == result + [it.value.child] + rest.value; }
      result, pos := result + [it.value.child], it.value.end;
    }
    assert result + [] == result;
    r := Ok(result);
  }

  // ---- locality ---------------------------------------------------------------------------------

  lemma {:induction false} SkipTagMoves(d: seq<byte>, p: nat, e: seq<byte>, q: nat)
    requires SkipTag(d, p).Ok?
    requires var n := SkipTag(d, p).value - p; q + n <= |e| && d[p..p + n] == e[q..q + n]
    ensures SkipTag(e, q) == Ok(q + (SkipTag(d, p).value - p))
    decreases |d| - p
  {
    var n := SkipTag(d, p).value - p;
    assert d[p] == d[p..p + n][0] == e[q..q + n][0] == e[q];
    if d[p] >= 128 {
      assert d[p + 1..p + n] == d[p..p + n][1..] == e[q..q + n][1..] == e[q + 1..q + n];
      SkipTagMoves(d, p + 1, e, q + 1);
    }
  }

  lemma AfterTagMoves(d: seq<byte>, p: nat, e: seq<byte>, q: nat)
    requires p < |d| && AfterTag(d, p).Ok?
    requires var n := AfterTag(d, p).value - p; q + n <= |e| && d[p..p + n] == e[q..q + n]
    ensures q < |e| && e[q] == d[p] && AfterTag(e, q) == Ok(q + (AfterTag(d, p).value - p))
  {
    var n := AfterTag(d, p).value - p;
    assert d[p] == d[p..p + n][0] == e[q..q + n][0] == e[q];
    if d[p] % 32 == 31 {
      assert d[p + 1..p + n] == d[p..p + n][1..] == e[q..q + n][1..] == e[q + 1..q + n];
      SkipTagMoves(d, p + 1, e, q + 1);
    }
  }

  lemma LengthMoves(d: seq<byte>, p: nat, e: seq<byte>, q: nat)
    requires LengthAt(d, p).Ok?
    requires var n := LengthAt(d, p).value.bodyStart - p; p + n <= |d| && q + n <= |e| && d[p..p + n] == e[q..q + n]
    ensures LengthAt(e, q) == Ok(Header(q + (LengthAt(d, p).value.bodyStart - p), LengthAt(d, p).value.length))
  {
    var n := LengthAt(d, p).value.bodyStart - p;
    assert d[p] == d[p..p + n][0] == e[q..q + n][0] == e[q];
    if d[p] >= 128 {
      assert d[p + 1..p + n] == d[p..p + n][1..] == e[q..q + n][1..] == e[q + 1..q + n];
    }
  }

  lemma ItemUnfolds(d: seq<byte>, p: nat, tagEnd: nat, h: Header)
    requires p < |d| && AfterTag(d, p) == Ok(tagEnd) && LengthAt(d, tagEnd) == Ok(h)
    requires h.bodyStart + h.length <= |d|
    ensures p < h.bodyStart
    ensures var end := h.bodyStart + h.length;
            ItemAt(d, p) == Ok(Item(Child(d[p], d[h.bodyStart..end], d[p..end]), end))
  {
    hide AfterTag, LengthAt;
  }

  lemma ItemParts(d: seq<byte>, p: nat) returns (tagEnd: nat, h: Header)
    requires ItemAt(d, p).Ok?
    ensures p < |d| && AfterTag(d, p) == Ok(tagEnd) && LengthAt(d, tagEnd) == Ok(h)
    ensures p < tagEnd < h.bodyStart && h.bodyStart + h.length == ItemAt(d, p).value.end
  {
    hide AfterTag, LengthAt;
    tagEnd := AfterTag(d, p).value;
    h := LengthAt(d, tagEnd).value;
  }

  /** An item means the same wherever its bytes stand. */
  lemma ItemMoves(d: seq<byte>, p: nat, e: seq<byte>, q: nat)
    requires ItemAt(d, p).Ok?
    requires var n := ItemAt(d, p).value.end - p; q + n <= |e| && d[p..p + n] == e[q..q + n]
    ensures ItemAt(e, q) == Ok(Item(ItemAt(d, p).value.child, q + (ItemAt(d, p).value.end - p)))
  {
    hide AfterTag, LengthAt, ItemAt;
    var n := ItemAt(d, p).value.end - p;
    var tagEnd, h := ItemParts(d, p);
    SubsMatch(d, p, e, q, n, 0, tagEnd - p);
    AfterTagMoves(d, p, e, q);
    SubsMatch(d, p, e, q, n, tagEnd - p, h.bodyStart - p);
    LengthMoves(d, tagEnd, e, q + (tagEnd - p));
    ItemPartsMove(d, p, tagEnd, h, e, q);
  }

  lemma ItemPartsMove(d: seq<byte>, p: nat, tagEnd: nat, h: Header, e: seq<byte>, q: nat)
    requires p < |d| && AfterTag(d, p) == Ok(tagEnd) && LengthAt(d, tagEnd) == Ok(h) && p < h.bodyStart
    requires q < |e| && e[q] == d[p] && tagEnd >= p
    requires AfterTag(e, q) == Ok(q + (tagEnd - p))
    requires LengthAt(e, q + (tagEnd - p)) == Ok(Header(q + (h.bodyStart - p), h.length))
    requires var n := h.bodyStart + h.length - p; p + n <= |d| && q + n <= |e| && d[p..p + n] == e[q..q + n]
    ensures ItemAt(d, p).Ok?
    ensures ItemAt(e, q) == Ok(Item(ItemAt(d, p).value.child, q + (ItemAt(d, p).value.end - p)))
  {
    var n := h.bodyStart + h.length - p;
    hide AfterTag, LengthAt;
    SubsMatch(d, p, e, q, n, h.bodyStart - p, n);
    ItemUnfolds(d, p, tagEnd, h);
    ItemUnfolds(e, q, q + (tagEnd - p), Header(q + (h.bodyStart - p), h.length));
    hide ItemAt;
  }

  lemma SubsMatch(d: seq<byte>, p: nat, e: seq<byte>, q: nat, n: nat, a: nat, b: nat)
    requires p + n <= |d| && q + n <= |e| && d[p..p + n] == e[q..q + n] && a <= b <= n
    ensures d[p + a..p + b] == e[q + a..q + b]
  {
    SliceOfSlice(d, p, p + n, a, b);
    SliceOfSlice(e, q, q + n, a, b);
  }

  /** The child's encoding, read on its own, is that child and nothing else. */
  predicate Whole(c: Child) {
    ItemAt(c.enc, 0) == Ok(Item(c, |c.enc|))
  }

  lemma ItemIsWhole(d: seq<byte>, p: nat)
    requires ItemAt(d, p).Ok?
    ensures Whole(ItemAt(d, p).value.child)
  {
    var it := ItemAt(d, p).value;
    assert it.child.enc[0..|it.child.enc|] == it.child.enc;
    ItemMoves(d, p, it.child.enc, 0);
  }

  lemma WholeAt(e: seq<byte>, q: nat, c: Child)
    requires Whole(c) && q + |c.enc| <= |e| && e[q..q + |c.enc|] == c.enc
    ensures ItemAt(e, q) == Ok(Item(c, q + |c.enc|))
  {
    assert c.enc[0..0 + |c.enc|] == c.enc;
    ItemMoves(c.enc, 0, e, q);
  }

  // ---- a list of items and its concatenation ----------------------------------------------------

  function Encoded(cs: seq<Child>): seq<byte> {
    if cs == [] then [] else cs[0].enc + Encoded(cs[1..])
  }

  predicate AllWhole(cs: seq<Child>) {
    forall c :: c in cs ==> Whole(c)
  }

  lemma ChildrenEnd(e: seq<byte>, pos: nat)
    requires Rest(e, pos, [])
    ensures ChildrenFrom(e, pos) == Ok([])
  {
  }

  lemma ChildrenStep(e: seq<byte>, pos: nat, it: Item, rest: seq<Child>)
    requires pos < |e| && ItemAt(e, pos) == Ok(it) && ChildrenFrom(e, it.end) == Ok(rest)
    ensures ChildrenFrom(e, pos) == Ok([it.child] + rest)
  {
    hide ItemAt;
  }

  lemma {:induction false} ChildrenOfEncodedFrom(e: seq<byte>, pos: nat, cs: seq<Child>)
    requires AllWhole(cs) && Rest(e, pos, Encoded(cs))
    ensures ChildrenFrom(e, pos) == Ok(cs)
    decreases |cs|
  {
    hide ItemAt, ChildrenFrom, Rest;
    if cs == [] {
      ChildrenEnd(e, pos);
    } else {
      var c, rest := cs[0], cs[1..];
      assert Whole(c) && |c.enc| > 0;
      assert cs == [c] + rest;
      RestSkips(e, pos, c.enc, Encoded(rest));
      hide Whole, Encoded;
      WholeAt(e, pos, c);
      ChildrenOfEncodedFrom(e, pos + |c.enc|, rest);
      ChildrenStep(e, pos, Item(c, pos + |c.enc|), rest);
    }
  }

  /** children inverts concatenation, both ways. */
  lemma ChildrenOfEncoded(cs: seq<Child>)
    requires AllWhole(cs)
    ensures Children(Encoded(cs)) == Ok(cs)
  {
    assert Rest(Encoded(cs), 0, Encoded(cs));
    ChildrenOfEncodedFrom(Encoded(cs), 0, cs);
  }

  lemma {:induction false} EncodedOfChildrenFrom(data: seq<byte>, pos: nat)
    requires pos <= |data| && ChildrenFrom(data, pos).Ok?
    ensures var cs := ChildrenFrom(data, pos).value; AllWhole(cs) && Encoded(cs) == data[pos..]
    decreases |data| - pos
  {
    hide ItemAt, ChildrenFrom, Whole, Encoded, AllWhole;
    ChildrenParts(data, pos);
    if pos < |data| {
      var it := ItemAt(data, pos).value;
      ItemIsWhole(data, pos);
      EncodedOfChildrenFrom(data, it.end);
      ChildInFront(it.child, ChildrenFrom(data, it.end).value);
      assert data[pos..] == data[pos..it.end] + data[it.end..];
    } else {
      NoChildren();
      assert data[pos..] == [];
    }
  }

  lemma ChildrenParts(data: seq<byte>, pos: nat)
    requires ChildrenFrom(data, pos).Ok?
    ensures if pos >= |data| then ChildrenFrom(data, pos) == Ok([])
            else
              && ItemAt(data, pos).Ok?
              && ChildrenFrom(data, ItemAt(data, pos).value.end).Ok?
              && ChildrenFrom(data, pos).value
                 == [ItemAt(data, pos).value.child] + ChildrenFrom(data, ItemAt(data, pos).value.end).value
  {
    hide ItemAt;
  }

  lemma NoChildren()
    ensures AllWhole([]) && Encoded([]) == []
  {
  }

  lemma ChildInFront(c: Child, rest: seq<Child>)
    requires Whole(c) && AllWhole(rest)
    ensures AllWhole([c] + rest) && Encoded([c] + rest) == c.enc + Encoded(rest)
  {
    hide Whole;
    var cs := [c] + rest;
    assert cs[0] == c && cs[1..] == rest;
  }

  lemma EncodedOfChildren(data: seq<byte>)
    requires Children(data).Ok?
    ensures AllWhole(Children(data).value) && Encoded(Children(data).value) == data
  {
    EncodedOfChildrenFrom(data, 0);
  }

  lemma {:induction false} EncodedConcat(a: seq<Child>, b: seq<Child>)
    ensures Encoded(a + b) == Encoded(a) + Encoded(b)
    decreases |a|
  {
    if a == [] {
      assert a + b == b;
    } else {
      assert (a + b)[1..] == a[1..] + b;
      EncodedConcat(a[1..], b);
    }
  }

  // ---- writing a SEQUENCE -----------------------------------------------------------------------

  /** (n.bit_length() + 7) // 8 */
  function ByteLength(n: nat): nat {
    if n == 0 then 0 else 1 + ByteLength(n / 256)
  }

  lemma {:induction false} ByteLengthFits(n: nat)
    ensures n < Pow256(ByteLength(n))
  {
    if n > 0 { ByteLengthFits(n / 256); }
  }

  lemma {:induction false} ByteLengthLeast(n: nat, k: nat)
    requires n < Pow256(k)
    ensures ByteLength(n) <= k
    decreases k
  {
    if n > 0 {
      ByteLengthLeast(n / 256, k - 1);
    }
  }

  function Sequence(body: seq<byte>): (r: Result<seq<byte>, DerError>) {
    var n := |body|;
    if n < 128 then Ok([0x30, n] + body)
    else if ByteLength(n) > 127 then Err(LengthTooLong)
    else Ok([0x30, 128 + ByteLength(n)] + ToBE(n, ByteLength(n)) + body)
  }

  /** What sequence writes, item reads back: for every body short enough to have a length at all. */
  lemma SequenceRoundTrip(body: seq<byte>)
    requires Sequence(body).Ok?
    ensures Whole(Child(0x30, body, Sequence(body).value))
  {
    var e, n := Sequence(body).value, |body|;
    if n < 128 {
      assert e[2..] == body;
      HeaderMakesWhole(e, Header(2, n), body);
    } else {
      var k := ByteLength(n);
      ByteLengthFits(n);
      assert k > 0;
      hide ByteLength;
      LongHeader(e, n, k, body);
      HeaderMakesWhole(e, Header(2 + k, n), body);
    }
  }

  lemma LongHeader(e: seq<byte>, n: nat, k: nat, body: seq<byte>)
    requires 0 < k < 128 && n < Pow256(k) && e == [0x30, 128 + k] + ToBE(n, k) + body
    ensures LengthAt(e, 1) == Ok(Header(2 + k, n)) && e[2 + k..] == body
  {
    hide ToBE, BE, Pow256;
    assert e[2..2 + k] == ToBE(n, k);
    BERoundTrip(n, k);
  }

  lemma HeaderMakesWhole(e: seq<byte>, h: Header, body: seq<byte>)
    requires e != [] && e[0] == 0x30 && LengthAt(e, 1) == Ok(h)
    requires h.bodyStart + h.length == |e| && e[h.bodyStart..] == body
    ensures Whole(Child(0x30, body, e))
  {
    hide LengthAt;
    assert e[0..|e|] == e && e[h.bodyStart..|e|] == body;
  }

  /** sequence never writes more bytes than any item of at least that length takes, and never fails
      where one was read. */
  lemma SequenceIsMinimal(body: seq<byte>, c: Child)
    requires Whole(c) && |body| <= |c.body|
    ensures Sequence(body).Ok? && |Sequence(body).value| + |c.body| <= |c.enc| + |body|
  {
    var tagEnd := AfterTag(c.enc, 0).value;
    var h := LengthAt(c.enc, tagEnd).value;
    var n := |body|;
    if n >= 128 {
      var count := c.enc[tagEnd] - 128;
      BEBound(Slice(c.enc, tagEnd + 1, tagEnd + 1 + count));
      ByteLengthLeast(n, count);
    }
  }
}
