/** Whatever is written as newc records, cpio_members reads back, up to the first trailer. */
module CpioRoundTrip {
  import opened Bytes
  import opened CpioFormat

  // ---- the header -------------------------------------------------------------------------------

  lemma {:induction false} FieldBytesAt(fs: seq<nat>, i: nat)
    requires i < |fs| && forall f :: f in fs ==> Fits32(f)
    ensures |FieldBytes(fs)| == 8 * |fs| && FieldBytes(fs)[8 * i..8 * i + 8] == Hex(fs[i], 8)
  {
    hide Hex;
    var last, init := fs[|fs| - 1], fs[..|fs| - 1];
    assert last in fs;
    HexFieldReads(last);
    if init == [] {
      assert FieldBytes(fs) == [] + Hex(last, 8);
    } else {
      FieldBytesAt(init, Min(i, |init| - 1));
      assert FieldBytes(fs) == FieldBytes(init) + Hex(last, 8);
    }
  }

  lemma FieldsFit(e: Entry)
    requires EntryFits(e)
    ensures forall f :: f in FieldsOf(e) ==> Fits32(f)
    ensures |FieldBytes(FieldsOf(e))| == 104 && |HeaderBytes(e)| == 110
  {
    FieldBytesAt(FieldsOf(e), 0) by { assert forall f :: f in FieldsOf(e) ==> Fits32(f); }
    hide FieldBytes;
  }

  lemma {:induction false} FieldsRead(d: seq<byte>, p: nat, fs: seq<nat>, n: nat)
    requires p + 110 <= |d| && |fs| == 13 && n <= 13 && forall f :: f in fs ==> Fits32(f)
    requires d[p + 6..p + 110] == FieldBytes(fs)
    ensures FieldsAt(d, p, n) == Some(fs[..n])
  {
    hide FieldBytes, Fits32, ReadNumber, Hex;
    if n > 0 {
      FieldsRead(d, p, fs, n - 1);
      FieldBytesAt(fs, n - 1);
      var f := fs[n - 1];
      assert f in fs;
      HexFieldReads(f);
      SliceOfSlice(d, p + 6, p + 110, 8 * (n - 1), 8 * (n - 1) + 8);
      assert fs[..n - 1] + [f] == fs[..n];
    }
  }

  // ---- one record -------------------------------------------------------------------------------

  function MemberOf(e: Entry): Member {
    Member(e.name, if Regular(e.mode) then Some(e.data) else None)
  }

  /** Where a record's parts are. */
  ghost predicate RecordLies(d: seq<byte>, p: nat, e: Entry) {
    var start := Align4(p + 111 + |e.name|);
    && p + 111 + |e.name| <= start && start + |e.data| <= |d|
    && d[p..p + 6] == NEWC && d[p + 6..p + 110] == FieldBytes(FieldsOf(e))
    && d[p + 110..p + 110 + |e.name|] == e.name
    && d[start..start + |e.data|] == e.data
  }

  lemma RecordSize(e: Entry)
    requires EntryFits(e)
    ensures |NamePart(e)| == 111 + |e.name|
    ensures |Record(e)| == Align4(111 + |e.name|) + Align4(|e.data|) && |Record(e)| % 4 == 0
  {
    hide HeaderBytes, FieldBytes, FieldsOf, EntryFits, Align4, Padding;
    FieldsFit(e);
    PaddingAligns(111 + |e.name|);
    PaddingAligns(|e.data|);
  }

  lemma NameLies(d: seq<byte>, p: nat, e: Entry, after: seq<byte>)
    requires EntryFits(e) && Rest(d, p, NamePart(e) + after)
    ensures p + 111 + |e.name| <= |d|
    ensures d[p..p + 6] == NEWC && d[p + 6..p + 110] == FieldBytes(FieldsOf(e))
    ensures d[p + 110..p + 110 + |e.name|] == e.name
  {
    FieldsFit(e);
    var f := FieldBytes(FieldsOf(e));
    var zero: seq<byte> := [0];
    assert NamePart(e) + after == NEWC + (f + (e.name + (zero + after)));
    hide FieldBytes, Rest;
    RestSkips(d, p, NEWC, f + (e.name + (zero + after)));
    RestSkips(d, p + 6, f, e.name + (zero + after));
    RestSkips(d, p + 110, e.name, zero + after);
  }

  lemma DataLies(d: seq<byte>, p: nat, e: Entry, tail: seq<byte>)
    requires EntryFits(e) && Rest(d, p, Record(e) + tail)
    ensures var start := p + Align4(111 + |e.name|);
            start + |e.data| <= |d| && d[start..start + |e.data|] == e.data
  {
    var head: seq<byte> := NamePart(e) + Zeros(|NamePart(e)|, 4);
    var z: seq<byte> := Zeros(|e.data|, 4);
    assert Record(e) + tail == head + (e.data + (z + tail));
    RecordSize(e);
    PaddingAligns(|NamePart(e)|);
    hide Record, NamePart, Padding, Rest, EntryFits;
    RestSkips(d, p, head, e.data + (z + tail));
    RestSkips(d, p + |head|, e.data, z + tail);
  }

  function AfterName(e: Entry): seq<byte> {
    Zeros(|NamePart(e)|, 4) + (e.data + Zeros(|e.data|, 4))
  }

  lemma NameFirst(e: Entry, tail: seq<byte>)
    ensures Record(e) + tail == NamePart(e) + (AfterName(e) + tail)
  {
    hide NamePart, Zeros;
  }

  lemma AlignGrows(n: nat)
    ensures n <= Align4(n)
  {
  }

  lemma RecordLocates(d: seq<byte>, p: nat, e: Entry, tail: seq<byte>)
    requires EntryFits(e) && p % 4 == 0 && Rest(d, p, Record(e) + tail)
    ensures RecordLies(d, p, e)
  {
    hide Record, NamePart, FieldBytes, FieldsOf, Zeros, Padding, Rest, EntryFits, Align4;
    NameFirst(e, tail);
    NameLies(d, p, e, AfterName(e) + tail);
    DataLies(d, p, e, tail);
    AlignShifts(p, 111 + |e.name|);
    AlignGrows(p + 111 + |e.name|);
  }

  lemma FieldsListed(e: Entry)
    ensures FieldsOf(e)[..13] == FieldsOf(e)
    ensures FieldsOf(e)[1] == e.mode && FieldsOf(e)[6] == |e.data| && FieldsOf(e)[11] == |e.name| + 1
  {
  }

  lemma MemberReads(d: seq<byte>, p: nat, e: Entry)
    requires EntryFits(e) && RecordLies(d, p, e)
    ensures HeaderAt(d, p)
    ensures MemberAt(d, p) == if e.name == TRAILER then Stop
                              else Yield(MemberOf(e), Align4(Align4(p + 111 + |e.name|) + |e.data|))
  {
    hide FieldBytes, FieldsOf, FieldsAt, EntryFits, Align4, Fits32, Regular, Slice, FromEnd, Part;
    FieldsFit(e);
    FieldsListed(e);
    FieldsRead(d, p, FieldsOf(e), 13);
  }

  lemma RecordEnds(p: nat, e: Entry)
    requires EntryFits(e) && p % 4 == 0
    ensures Align4(Align4(p + 111 + |e.name|) + |e.data|) == p + |Record(e)| && (p + |Record(e)|) % 4 == 0
  {
    hide *;
    RecordSize(e);
    PaddingAligns(111 + |e.name|);
    AlignShifts(p, 111 + |e.name|);
    AlignShifts(p + Align4(111 + |e.name|), |e.data|);
  }

  lemma RecordReads(d: seq<byte>, p: nat, e: Entry, tail: seq<byte>)
    requires EntryFits(e) && p % 4 == 0 && Rest(d, p, Record(e) + tail)
    ensures HeaderAt(d, p) && Rest(d, p + |Record(e)|, tail) && (p + |Record(e)|) % 4 == 0
    ensures MemberAt(d, p) == if e.name == TRAILER then Stop else Yield(MemberOf(e), p + |Record(e)|)
  {
    hide *;
    RecordLocates(d, p, e, tail);
    RestSkips(d, p, Record(e), tail);
    MemberReads(d, p, e);
    RecordEnds(p, e);
  }

  // ---- an archive -------------------------------------------------------------------------------

  function TrailerEntry(ino: nat, nlink: nat): Entry {
    Entry(TRAILER, ino, 0, nlink, 0, [])
  }

  /** The members of the entries before the first one called TRAILER!!!. */
  function Listed(es: seq<Entry>): seq<Member> {
    if es == [] || es[0].name == TRAILER then [] else [MemberOf(es[0])] + Listed(es[1..])
  }

  ghost predicate AllFit(es: seq<Entry>) {
    forall e :: e in es ==> EntryFits(e)
  }

  lemma RecordHasSize(e: Entry)
    ensures |Record(e)| > 0
  {
    hide HeaderBytes, Padding;
  }

  /** Records, a trailer, and anything after it. */
  lemma {:induction false} RecordsRead(d: seq<byte>, p: nat, seen: set<int>, es: seq<Entry>, last: Entry,
        tail: seq<byte>)
    requires AllFit(es) && EntryFits(last) && last.name == TRAILER
    requires p % 4 == 0 && Rest(d, p, Records(es) + (Record(last) + tail))
    requires Positions(d, seen) && forall q :: q in seen ==> q < p
    ensures MembersFrom(d, p, seen) == Listing(Listed(es), Complete)
    decreases |es|
  {
    hide Record, EntryFits, HeaderAt, MemberAt, Rest, Positions;
    if es == [] {
      assert [] + (Record(last) + tail) == Record(last) + tail;
      RecordReads(d, p, last, tail);
    } else {
      var rest := Records(es[1..]) + (Record(last) + tail);
      assert Records(es) + (Record(last) + tail) == Record(es[0]) + rest;
      assert EntryFits(es[0]) && AllFit(es[1..]);
      RecordReads(d, p, es[0], rest);
      if es[0].name != TRAILER {
        RecordHasSize(es[0]);
        OneMore(d, p, seen);
        RecordsRead(d, p + |Record(es[0])|, seen + {p}, es[1..], last, tail);
      }
    }
  }

  /** The whole list comes back if and only if none of the entries is called TRAILER!!!. */
  lemma {:induction false} ListedIsAllIff(es: seq<Entry>)
    ensures |Listed(es)| == |es| <==> forall e :: e in es ==> e.name != TRAILER
    ensures |Listed(es)| <= |es| && forall i :: 0 <= i < |Listed(es)| ==> Listed(es)[i] == MemberOf(es[i])
  {
    if es != [] {
      ListedIsAllIff(es[1..]);
      assert es == [es[0]] + es[1..];
    }
  }
}
