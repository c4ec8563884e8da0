/** The bytes of DER items and of an IMG4, as the repair reads them. */
module Img4Bytes {
  import opened Bytes
  import opened DerItems
  import opened Img4Repair

  // ---- one item ---------------------------------------------------------------------------------

  /** The rest of an identifier: nothing, or for the tag number 31 bytes with the top bit set and one without. */
  ghost predicate TagRest(t: byte, ext: seq<byte>) {
    if t % 32 == 31 then
      ext != [] && ext[|ext| - 1] < 128 && forall i :: 0 <= i < |ext| - 1 ==> ext[i] >= 128
    else ext == []
  }

  /** A length: one byte below 128, or 128 plus the number of bytes that hold it, the highest first. */
  ghost predicate LengthOf(len: seq<byte>, n: nat) {
    || (len == [n] && n < 128)
    || (|len| >= 2 && len[0] == 128 + (|len| - 1) && BE(len[1..]) == n)
  }

  lemma {:induction false} SkipsTag(d: seq<byte>, p: nat, n: nat)
    requires p + n < |d| && d[p + n] < 128 && forall i :: p <= i < p + n ==> d[i] >= 128
    ensures SkipTag(d, p) == Ok(p + n + 1)
    decreases n
  {
    if n > 0 { SkipsTag(d, p + 1, n - 1); }
  }

  lemma TagReads(t: byte, ext: seq<byte>, more: seq<byte>)
    requires TagRest(t, ext)
    ensures AfterTag([t] + ext + more, 0) == Ok(1 + |ext|)
  {
    var d := [t] + ext + more;
    if t % 32 == 31 {
      forall i | 0 <= i < |ext| ensures d[1 + i] == ext[i] { }
      SkipsTag(d, 1, |ext| - 1);
    }
  }

  lemma LengthReads(front: seq<byte>, len: seq<byte>, n: nat, more: seq<byte>)
    requires LengthOf(len, n)
    ensures LengthAt(front + len + more, |front|) == Ok(Header(|front| + |len|, n))
  {
    var d := front + len + more;
    assert d[|front|] == len[0];
    if |len| >= 2 {
      assert d[|front| + 1..|front| + |len|] == len[1..];
    }
  }

  /** Identifier, length and contents, whatever follows, read as that item; more contents than there are is an error. */
  lemma EncodedItemReads(t: byte, ext: seq<byte>, len: seq<byte>, n: nat, body: seq<byte>)
    requires TagRest(t, ext) && LengthOf(len, n)
    ensures var enc := [t] + ext + len;
            ItemAt(enc + body, 0) ==
            if n > |body| then Err(TruncatedObject)
            else Ok(Item(Child(t, body[..n], enc + body[..n]), |enc| + n))
  {
    var front := [t] + ext;
    var d := front + len + body;
    hide AfterTag, LengthAt;
    assert d == front + (len + body);
    TagReads(t, ext, len + body);
    LengthReads(front, len, n, body);
    var at := |front| + |len|;
    if n <= |body| {
      assert d[at..at + n] == body[..n] && d[..at + n] == front + len + body[..n];
    }
  }

  /** Data that ends before the length is an IndexError, and a length of 128 is indefinite. */
  lemma ItemCutShort(t: byte, ext: seq<byte>, more: seq<byte>)
    requires t % 32 == 31
    ensures (forall i :: 0 <= i < |ext| ==> ext[i] >= 128) ==> ItemAt([t] + ext, 0) == Err(IndexError)
    ensures TagRest(t, ext) ==> ItemAt([t] + ext, 0) == Err(IndexError)
                                && ItemAt([t] + ext + [128] + more, 0) == Err(IndefiniteLength)
  {
    var d := [t] + ext;
    if forall i :: 0 <= i < |ext| ==> ext[i] >= 128 { SkipsPast(d, 1); }
    if TagRest(t, ext) {
      TagReads(t, ext, []);
      assert d + [] == d;
      TagReads(t, ext, [128] + more);
      assert d + [128] + more == d + ([128] + more);
      assert (d + [128] + more)[1 + |ext|] == 128;
    }
  }

  lemma {:induction false} SkipsPast(d: seq<byte>, p: nat)
    requires p <= |d| && forall i :: p <= i < |d| ==> d[i] >= 128
    ensures SkipTag(d, p) == Err(IndexError)
    decreases |d| - p
  {
    if p < |d| { SkipsPast(d, p + 1); }
  }

  lemma ShortTagCut(t: byte, more: seq<byte>)
    requires t % 32 != 31
    ensures ItemAt([], 0) == Err(IndexError) && ItemAt([t], 0) == Err(IndexError)
    ensures ItemAt([t, 128] + more, 0) == Err(IndefiniteLength)
  {
  }

  // ---- which inputs are accepted ----------------------------------------------------------------

  /** Bytes 12 to 15 of a complzss header, or what there is of them. */
  ghost function HeaderSize(c: seq<byte>): nat {
    if |c| >= 16 then c[12] as int * 0x100_0000 + c[13] as int * 0x1_0000 + c[14] as int * 0x100 + c[15]
    else BE(if |c| > 12 then c[12..] else [])
  }

  /** Two INTEGERs, a zero and the size of the uncompressed data. */
  ghost predicate GoodRecord(record: seq<Child>, c: seq<byte>) {
    |record| == 2 && record[0].tag == 2 && record[1].tag == 2 && BE(record[0].body) == 0
    && BE(record[1].body) == HeaderSize(c)
  }

  /** "IMG4" first; "IM4P" first of five fields, the fourth an OCTET STRING that starts with "complzss" and the fifth
      a SEQUENCE. */
  ghost predicate GoodFields(outer: seq<Child>, payload: seq<Child>) {
    && |outer| >= 2 && outer[0].tag == 0x16 && outer[0].body == [0x49, 0x4D, 0x47, 0x34]
    && |payload| == 5 && payload[0].tag == 0x16 && payload[0].body == [0x49, 0x4D, 0x34, 0x50]
    && payload[3].tag == 0x04 && [0x63, 0x6F, 0x6D, 0x70, 0x6C, 0x7A, 0x73, 0x73] <= payload[3].body
    && payload[4].tag == 0x30
  }

  lemma RecordInNumbers(record: seq<Child>, c: seq<byte>)
    ensures RecordProblem(record, c) ==
            if |record| != 2 || record[0].tag != 2 || record[1].tag != 2 then Some(BadRecord)
            else if BE(record[0].body) != 0 then Some(NotLzssEnum)
            else if BE(record[1].body) != HeaderSize(c) then Some(SizeMismatch)
            else None
  {
    hide BE;
    if |c| >= 16 {
      U32beInNumbers(c, 12);
    } else {
      assert Slice(c, 12, 16) == if |c| > 12 then c[12..] else [];
    }
  }

  lemma OutermostReads(data: seq<byte>, outer: seq<Child>, payload: seq<Child>)
    requires Img4Of(data, outer, payload)
    ensures ItemAt(data, 0) == Ok(Item(Child(0x30, Encoded(outer), data), |data|))
    ensures Children(Encoded(outer)) == Ok(outer) && Children(outer[1].body) == Ok(payload)
  {
    ChildrenOfEncoded(outer);
    ChildrenOfEncoded(payload);
  }

  /** An IMG4 of these items is accepted exactly if its fields are good and so is the record in the fifth. */
  lemma AcceptedIff(data: seq<byte>, outer: seq<Child>, payload: seq<Child>)
    requires Img4Of(data, outer, payload)
    ensures Accept(data) == Ok(Accepted(outer, payload)) <==>
            && GoodFields(outer, payload) && Children(payload[4].body).Ok?
            && GoodRecord(Children(payload[4].body).value, payload[3].body)
    ensures Accept(data).Ok? ==> Accept(data) == Ok(Accepted(outer, payload))
  {
    OutermostReads(data, outer, payload);
    hide Img4Of, ItemAt, Children, Encoded, RecordProblem, BE;
    if |payload| == 5 && Children(payload[4].body).Ok? {
      RecordInNumbers(Children(payload[4].body).value, payload[3].body);
    }
  }

  /** What else is wrong with it is said of the first thing that is. */
  lemma RefusedAs(data: seq<byte>, outer: seq<Child>, payload: seq<Child>)
    requires Img4Of(data, outer, payload)
    ensures var r := RepairSpec(data);
            if outer[0].tag != 0x16 || outer[0].body != [0x49, 0x4D, 0x47, 0x34] then r == Err(NotImg4)
            else if |payload| != 5 || payload[0].tag != 0x16 || payload[0].body != [0x49, 0x4D, 0x34, 0x50]
            then r == Err(NotFourFieldsAndRecord)
            else if payload[3].tag != 0x04 || !([0x63, 0x6F, 0x6D, 0x70, 0x6C, 0x7A, 0x73, 0x73] <= payload[3].body)
            then r == Err(NotLzss)
            else if payload[4].tag != 0x30 then r == Err(NoCompressionSequence)
            else match Children(payload[4].body)
                 case Err(e) => r == Err(e)
                 case Ok(record) =>
                   if |record| != 2 || record[0].tag != 2 || record[1].tag != 2 then r == Err(BadRecord)
                   else if BE(record[0].body) != 0 then r == Err(NotLzssEnum)
                   else if BE(record[1].body) != HeaderSize(payload[3].body) then r == Err(SizeMismatch)
                   else r.Ok?
  {
    OutermostReads(data, outer, payload);
    RepairRemovesOnlyTheRecord(data);
    hide Img4Of, ItemAt, Children, Encoded, RecordProblem, BE, Rebuilt, ClosingChecks, HeaderSize, RepairSpec, Trimmed,
         Sequence;
    if |payload| == 5 && Children(payload[4].body).Ok? {
      RecordInNumbers(Children(payload[4].body).value, payload[3].body);
    }
  }

  /** An input that is no SEQUENCE, or not only one. */
  lemma NoSequence(data: seq<byte>)
    ensures ItemAt(data, 0).Err? ==> RepairSpec(data) == Err(ItemAt(data, 0).error)
    ensures ItemAt(data, 0).Ok? && (ItemAt(data, 0).value.child.tag != 0x30 || ItemAt(data, 0).value.end != |data|) ==>
              RepairSpec(data) == Err(NotOneSequence)
  {
    hide ItemAt, Children;
  }

  /** A SEQUENCE of fewer than two items, or one whose second item is none. */
  lemma OuterRefused(data: seq<byte>, outer: seq<Child>)
    requires AllWhole(outer) && Whole(Child(0x30, Encoded(outer), data))
    ensures var r := RepairSpec(data);
            && (outer == [] ==> r == Err(IndexError))
            && (outer != [] && (outer[0].tag != 0x16 || outer[0].body != [0x49, 0x4D, 0x47, 0x34]) ==>
                  r == Err(NotImg4))
            && (|outer| == 1 && outer[0].tag == 0x16 && outer[0].body == [0x49, 0x4D, 0x47, 0x34] ==>
                  r == Err(IndexError))
            && (|outer| >= 2 && outer[1].tag != 0x30 ==> r == Err(NotImg4))
  {
    ChildrenOfEncoded(outer);
    hide ItemAt, Children, Encoded;
    assert ItemAt(data, 0) == Ok(Item(Child(0x30, Encoded(outer), data), |data|));
    assert Children(Encoded(outer)) == Ok(outer);
  }
}
