/** rootfs-extract.py: the extents of a file's fork, the first eight from its record and the rest from the
    leaves of the extents overflow B-tree. */
module HfsExtents {
  import opened Bytes
  import opened ImageReaders
  import opened DmgReaders
  import opened StableSort
  import opened ForkReaders

  datatype OverflowRecord = OverflowRecord(first: nat, extents: seq<Extent>)

  /** A failed read below, struct.error or IndexError, and a sibling chain that comes back to a node: the source
      goes round that one for ever. */
  datatype LeafError = Unreadable(error: ReadError) | Short | Endless

  type Found = Result<seq<OverflowRecord>, LeafError>

  // ---- the order of the records -----------------------------------------------------------------

  /** The order of lists of pairs. */
  predicate ExtentsBefore(a: seq<Extent>, b: seq<Extent>) {
    if a == [] then true
    else if b == [] then false
    else if a[0].start != b[0].start then a[0].start < b[0].start
    else if a[0].count != b[0].count then a[0].count < b[0].count
    else ExtentsBefore(a[1..], b[1..])
  }

  predicate RecordBefore(a: OverflowRecord, b: OverflowRecord) {
    a.first < b.first || (a.first == b.first && ExtentsBefore(a.extents, b.extents))
  }

  lemma {:induction false} ExtentsTotal(a: seq<Extent>, b: seq<Extent>)
    ensures ExtentsBefore(a, b) || ExtentsBefore(b, a)
    ensures ExtentsBefore(a, b) && ExtentsBefore(b, a) ==> a == b
  {
    if a != [] && b != [] {
      ExtentsTotal(a[1..], b[1..]);
      assert a == [a[0]] + a[1..] && b == [b[0]] + b[1..];
    }
  }

  lemma {:induction false} ExtentsTransitive(a: seq<Extent>, b: seq<Extent>, c: seq<Extent>)
    requires ExtentsBefore(a, b) && ExtentsBefore(b, c)
    ensures ExtentsBefore(a, c)
  {
    if a != [] && b != [] && c != [] && a[0] == b[0] == c[0] { ExtentsTransitive(a[1..], b[1..], c[1..]); }
  }

  lemma RecordsRank()
    ensures Ranks(RecordBefore) && Separates(RecordBefore)
  {
    forall a: OverflowRecord, b: OverflowRecord
      ensures RecordBefore(a, b) || RecordBefore(b, a)
      ensures RecordBefore(a, b) && RecordBefore(b, a) ==> a == b
    {
      ExtentsTotal(a.extents, b.extents);
    }
    forall a: OverflowRecord, b: OverflowRecord, c: OverflowRecord | RecordBefore(a, b) && RecordBefore(b, c)
      ensures RecordBefore(a, c)
    {
      if a.first == b.first == c.first { ExtentsTransitive(a.extents, b.extents, c.extents); }
    }
  }

  function Used(ext: seq<Extent>): seq<Extent> {
    if ext == [] then [] else (if ext[0].count > 0 then [ext[0]] else []) + Used(ext[1..])
  }

  function AllUsed(rs: seq<OverflowRecord>): seq<Extent> {
    if rs == [] then [] else Used(rs[0].extents) + AllUsed(rs[1..])
  }

  /** The extents of the records, in file order, empty ones dropped. */
  function InFileOrder(rs: seq<OverflowRecord>): seq<Extent> {
    AllUsed(Sort(rs, RecordBefore))
  }

  /** The order in which the records are found does not matter, not even for equal first blocks. */
  lemma OverflowOrderIrrelevant(a: seq<OverflowRecord>, b: seq<OverflowRecord>)
    requires multiset(a) == multiset(b)
    ensures InFileOrder(a) == InFileOrder(b) && Ordered(Sort(a, RecordBefore), RecordBefore)
  {
    hide Sort, Ranks, Separates;
    RecordsRank();
    SortUnique(a, b, RecordBefore);
    SortIs(a, RecordBefore);
  }

  /** All extents of the records, empty ones too. */
  function AllOf(rs: seq<OverflowRecord>): seq<Extent> {
    if rs == [] then [] else rs[0].extents + AllOf(rs[1..])
  }

  /** Those of them with a block or more. */
  function WithBlocks(ext: seq<Extent>): seq<Extent> {
    if ext == [] then []
    else
      var e := ext[|ext| - 1];
      WithBlocks(ext[..|ext| - 1]) + if e.count >= 1 then [e] else []
  }

  lemma {:induction false} BlocksConcat(a: seq<Extent>, b: seq<Extent>)
    ensures WithBlocks(a + b) == WithBlocks(a) + WithBlocks(b)
    decreases |b|
  {
    if b == [] {
      assert a + b == a;
    } else {
      var init := b[..|b| - 1];
      BlocksConcat(a, init);
      assert (a + b)[..|a + b| - 1] == a + init && (a + b)[|a + b| - 1] == b[|b| - 1];
    }
  }

  lemma OneWithBlocks(e: Extent)
    ensures WithBlocks([e]) == if e.count >= 1 then [e] else []
    ensures WithBlocks([]) == []
  {
    assert [e][..0] == [];
  }

  lemma {:induction false} UsedIs(ext: seq<Extent>)
    ensures Used(ext) == WithBlocks(ext)
  {
    hide WithBlocks;
    if ext == [] {
      OneWithBlocks(Extent(0, 0));
    } else {
      UsedIs(ext[1..]);
      OneWithBlocks(ext[0]);
      BlocksConcat([ext[0]], ext[1..]);
      assert ext == [ext[0]] + ext[1..];
    }
  }

  lemma {:induction false} AllUsedIs(rs: seq<OverflowRecord>)
    ensures AllUsed(rs) == WithBlocks(AllOf(rs))
  {
    hide Used, WithBlocks;
    if rs == [] {
      OneWithBlocks(Extent(0, 0));
    } else {
      AllUsedIs(rs[1..]);
      UsedIs(rs[0].extents);
      BlocksConcat(rs[0].extents, AllOf(rs[1..]));
    }
  }

  /** A record with a lower first block comes first, and of two with the same one that whose extents start lower; what
      is left out are extents of no block. */
  lemma FileOrderInNumbers(rs: seq<OverflowRecord>) returns (s: seq<OverflowRecord>)
    ensures multiset(s) == multiset(rs)
    ensures forall j, k :: 0 <= j < k < |s| ==>
              && s[j].first <= s[k].first
              && (s[j].first == s[k].first && s[j].extents != [] && s[k].extents != [] ==>
                    && s[j].extents[0].start <= s[k].extents[0].start
                    && (s[j].extents[0].start == s[k].extents[0].start ==>
                          s[j].extents[0].count <= s[k].extents[0].count))
    ensures InFileOrder(rs) == WithBlocks(AllOf(s))
  {
    s := Sort(rs, RecordBefore);
    RecordsRank();
    SortIs(rs, RecordBefore);
    AllUsedIs(s);
    hide Sort, AllUsed, AllOf, WithBlocks, Ranks, Separates;
    forall j, k | 0 <= j < k < |s| ensures RecordBefore(s[j], s[k]) { }
  }

  // ---- the leaves -------------------------------------------------------------------------------

  /** struct.unpack_from(">H", b, o): a negative offset counts from the end. */
  function UnpackU16(b: seq<byte>, o: int): Option<nat> {
    if o >= 0 then if o + 2 <= |b| then Some(U16be(b, o)) else None
    else if o <= -2 && |b| + o >= 0 then Some(U16be(b, |b| + o))
    else None
  }

  /** The extents of a record that starts at base, from the i-th on. */
  function ExtentsIn(b: seq<byte>, base: nat, i: nat): (ext: seq<Extent>)
    requires i <= 8 && base + 64 <= |b|
    ensures |ext| == 8 - i
    ensures forall k :: i <= k < 8 ==> ext[k - i] == Extent(U32be(b, base + 8 * k), U32be(b, base + 8 * k + 4))
    decreases 8 - i
  {
    if i == 8 then []
    else [Extent(U32be(b, base + 8 * i), U32be(b, base + 8 * i + 4))] + ExtentsIn(b, base, i + 1)
  }

  /** The leaf record at o, if it is one of this file and fork. */
  function RecordAt(node: seq<byte>, o: nat, cnid: nat, kind: nat): Found {
    if o + 2 >= |node| then Err(Short)
    else
      var klen := U16be(node, o);
      if node[o + 2] != kind then Ok([])
      else if o + 8 > |node| then Err(Short)
      else if U32be(node, o + 4) != cnid then Ok([])
      else if o + 12 > |node| then Err(Short)
      else if o + 2 + klen + 64 > |node| then Err(Short)
      else Ok([OverflowRecord(U32be(node, o + 8), ExtentsIn(node, o + 2 + klen, 0))])
  }

  /** What node k of the list tells, and where the next one is. */
  function NodeRecords(node: seq<byte>, ns: nat, i: nat, cnid: nat, kind: nat): Found
    requires |node| >= 12
    decreases U16be(node, 10) - i
  {
    if i >= U16be(node, 10) then Ok([])
    else
      match UnpackU16(node, ns - 2 * (i + 1))
      case None => Err(Short)
      case Some(o) =>
        match RecordAt(node, o, cnid, kind)
        case Err(e) => Err(e)
        case Ok(rs) => Joined(rs, NodeRecords(node, ns, i + 1, cnid, kind))
  }

  function Joined(rs: seq<OverflowRecord>, rest: Found): Found {
    match rest case Err(e) => Err(e) case Ok(more) => Ok(rs + more)
  }

  /** Records found so far in front of the rest. */
  lemma JoinedTwice(a: seq<OverflowRecord>, b: seq<OverflowRecord>, rest: Found)
    ensures Joined(a, Joined(b, rest)) == Joined(a + b, rest)
  {
    if rest.Ok? { assert a + (b + rest.value) == a + b + rest.value; }
  }

  lemma JoinedEnds(a: seq<OverflowRecord>)
    ensures Joined(a, Ok([])) == Ok(a) && forall e :: Joined(a, Err(e)) == Err(e)
  {
    assert a + [] == a;
  }

  lemma JoinedStarts(rest: Found)
    ensures Joined([], rest) == rest
  {
    if rest.Ok? { assert [] + rest.value == rest.value; }
  }

  /** Node numbers, as the links give them. */
  predicate Numbers(seen: set<nat>) {
    forall n :: n in seen ==> Fits32(n)
  }

  lemma LinkFits(b: seq<byte>, o: nat)
    requires o + 4 <= |b|
    ensures Fits32(U32be(b, o))
  {
    BEBound(b[o..o + 4]);
    assert Pow256(4) == 0x1_0000_0000;
  }

  /** The records from node n on, seen being the nodes before it. */
  function ChainRecords(fork: Fork, ns: nat, n: nat, seen: set<nat>, cnid: nat, kind: nat): Found
    requires Sorted(fork.img.rows) && Fits32(n) && Numbers(seen)
    decreases 0x1_0000_0000 - |seen|
  {
    if n == 0 then Ok([])
    else if n in seen then Err(Endless)
    else
      match fork.ReadFrom(n * ns, ns)
      case Err(e) => Err(Unreadable(e))
      case Ok(node) =>
        if |node| < 12 then Err(Short)
        else
          match NodeRecords(node, ns, 0, cnid, kind)
          case Err(e) => Err(e)
          case Ok(rs) =>
            LinkFits(node, 0);
            RangeCount(seen + {n}, 0, 0x1_0000_0000);
            Joined(rs, ChainRecords(fork, ns, U32be(node, 0), seen + {n}, cnid, kind))
  }

  function LeafRecords(fork: Fork, cnid: nat, kind: nat): Found
    requires Sorted(fork.img.rows)
  {
    match fork.ReadFrom(0, 512)
    case Err(e) => Err(Unreadable(e))
    case Ok(hdr) =>
      if |hdr| < 34 then Err(Short)
      else
        LinkFits(hdr, 24);
        ChainRecords(fork, U16be(hdr, 32), U32be(hdr, 24), {}, cnid, kind)
  }

  /** Hfs.overflow */
  function Overflow(fork: Fork, cnid: nat, kind: nat): Result<seq<Extent>, LeafError>
    requires Sorted(fork.img.rows)
  {
    match LeafRecords(fork, cnid, kind)
    case Err(e) => Err(e)
    case Ok(rs) => Ok(InFileOrder(rs))
  }

  method ReadNode(node: seq<byte>, ns: nat, cnid: nat, kind: nat) returns (r: Found)
    requires |node| >= 12
    ensures r == NodeRecords(node, ns, 0, cnid, kind)
  {
    hide RecordAt, UnpackU16, U16be, Joined;
    var found: seq<OverflowRecord> := [];
    ghost var whole := NodeRecords(node, ns, 0, cnid, kind);
    JoinedStarts(whole);
    for i := 0 to U16be(node, 10)
      invariant whole == Joined(found, NodeRecords(node, ns, i, cnid, kind))
    {
      JoinedEnds(found);
      var o := UnpackU16(node, ns - 2 * (i + 1));
      if o.None? {
        return Err(Short);
      }
      var rs := RecordAt(node, o.value, cnid, kind);
      if rs.Err? {
        return rs;
      }
      JoinedTwice(found, rs.value, NodeRecords(node, ns, i + 1, cnid, kind));
      found := found + rs.value;
    }
    JoinedEnds(found);
    r := Ok(found);
  }

  /** Hfs.leaves as overflow uses it, node by node along the sibling links. */
  method FindRecords(fork: Fork, cnid: nat, kind: nat) returns (r: Found)
    requires fork.img.Valid()
    modifies fork.img, fork.img.src.Repr()
    ensures fork.img.Valid() && r == LeafRecords(fork, cnid, kind)
  {
    hide NodeRecords, Joined, Udif.Valid, Fork.ReadFrom, U16be, U32be, Sorted, Numbers, Fits32;
    fork.img.ValidSorted();
    var hdr := fork.Read(0, 512);
    if hdr.Err? {
      return Err(Unreadable(hdr.error));
    }
    if |hdr.value| < 34 {
      return Err(Short);
    }
    var ns, n := U16be(hdr.value, 32), U32be(hdr.value, 24);
    LinkFits(hdr.value, 24);
    NoNumbers();
    r := FindFrom(fork, ns, n, cnid, kind);
  }

  lemma NoNumbers()
    ensures Numbers({})
  {
  }

  method FindFrom(fork: Fork, ns: nat, first: nat, cnid: nat, kind: nat) returns (r: Found)
    requires fork.img.Valid() && Fits32(first) && Numbers({})
    modifies fork.img, fork.img.src.Repr()
    ensures fork.img.Valid() && r == ChainRecords(fork, ns, first, {}, cnid, kind)
  {
    hide NodeRecords, Joined, Udif.Valid, Fork.ReadFrom, U16be, U32be, Sorted, Numbers, Fits32;
    fork.img.ValidSorted();
    var n: nat, seen: set<nat>, found: seq<OverflowRecord> := first, {}, [];
    ghost var whole := ChainRecords(fork, ns, first, {}, cnid, kind);
    JoinedStarts(whole);
    while n != 0
      invariant fork.img.Valid() && Fits32(n) && Numbers(seen)
      invariant whole == Joined(found, ChainRecords(fork, ns, n, seen, cnid, kind))
      decreases 0x1_0000_0000 - |seen|
    {
      JoinedEnds(found);
      if n in seen {
        return Err(Endless);
      }
      var node := fork.Read(n * ns, ns);
      if node.Err? {
        return Err(Unreadable(node.error));
      }
      if |node.value| < 12 {
        return Err(Short);
      }
      var rs := ReadNode(node.value, ns, cnid, kind);
      if rs.Err? {
        return rs;
      }
      var next := U32be(node.value, 0);
      LinkFits(node.value, 0);
      OneMore(seen, n);
      JoinedTwice(found, rs.value, ChainRecords(fork, ns, next, seen + {n}, cnid, kind));
      n, seen, found := next, seen + {n}, found + rs.value;
    }
    JoinedEnds(found);
    r := Ok(found);
  }

  lemma OneMore(seen: set<nat>, n: nat)
    requires Numbers(seen) && Fits32(n)
    ensures Numbers(seen + {n}) && |seen + {n}| <= 0x1_0000_0000
  {
    RangeCount(seen + {n}, 0, 0x1_0000_0000);
  }

  method FindOverflow(fork: Fork, cnid: nat, kind: nat) returns (r: Result<seq<Extent>, LeafError>)
    requires fork.img.Valid()
    modifies fork.img, fork.img.src.Repr()
    ensures fork.img.Valid() && r == Overflow(fork, cnid, kind)
  {
    hide LeafRecords, InFileOrder, Udif.Valid, Sorted;
    fork.img.ValidSorted();
    var rs := FindRecords(fork, cnid, kind);
    r := if rs.Err? then Err(rs.error) else Ok(InFileOrder(rs.value));
  }

  // ---- what well-formed leaves give -------------------------------------------------------------

  /** A leaf record of the extents overflow tree, as the format writes it: key length, fork type, a pad byte,
      file number and first block, then the eight extents. */
  datatype LeafRecord = LeafRecord(kind: byte, cnid: nat, entry: OverflowRecord)

  predicate Writable(r: LeafRecord) {
    && Fits32(r.cnid) && Fits32(r.entry.first) && |r.entry.extents| == 8
    && forall e :: e in r.entry.extents ==> Fits32(e.start) && Fits32(e.count)
  }

  function ExtentBytes(ext: seq<Extent>): (b: seq<byte>)
    ensures |b| == 8 * |ext|
  {
    if ext == [] then [] else ToBE(ext[0].start, 4) + ToBE(ext[0].count, 4) + ExtentBytes(ext[1..])
  }

  function ForkBytes(r: LeafRecord): (b: seq<byte>)
    ensures |b| == 4
  {
    ToBE(10, 2) + [r.kind] + [0]
  }

  function FileBytes(r: LeafRecord): (b: seq<byte>)
    ensures |b| == 8
  {
    [] + ToBE(r.cnid, 4) + ToBE(r.entry.first, 4)
  }

  function RecordBytes(r: LeafRecord): (b: seq<byte>)
    requires |r.entry.extents| == 8
    ensures |b| == 76
  {
    ForkBytes(r) + FileBytes(r) + ExtentBytes(r.entry.extents)
  }

  /** The bytes of a stand in b from o on. */
  predicate Stands(b: seq<byte>, o: nat, a: seq<byte>) {
    o + |a| <= |b| && b[o..o + |a|] == a
  }

  lemma StandsPart(b: seq<byte>, o: nat, l: seq<byte>, m: seq<byte>, r: seq<byte>)
    requires Stands(b, o, l + m + r)
    ensures Stands(b, o, l) && Stands(b, o + |l|, m) && Stands(b, o + |l| + |m|, r)
  {
    var a := l + m + r;
    assert a[..|l|] == l && a[|l|..|l| + |m|] == m && a[|l| + |m|..] == r;
    SliceOfSlice(b, o, o + |a|, 0, |l|);
    SliceOfSlice(b, o, o + |a|, |l|, |l| + |m|);
    SliceOfSlice(b, o, o + |a|, |l| + |m|, |a|);
  }

  lemma NumberStands(b: seq<byte>, o: nat, n: nat)
    requires Fits32(n) && Stands(b, o, ToBE(n, 4))
    ensures U32be(b, o) == n
  {
    assert Pow256(4) == 0x1_0000_0000;
    BERoundTrip(n, 4);
  }

  lemma ExtentStands(b: seq<byte>, o: nat, e: Extent, rest: seq<byte>)
    requires Fits32(e.start) && Fits32(e.count) && Stands(b, o, ToBE(e.start, 4) + ToBE(e.count, 4) + rest)
    ensures o + 8 <= |b| && U32be(b, o) == e.start && U32be(b, o + 4) == e.count && Stands(b, o + 8, rest)
  {
    hide Stands, Fits32, U32be, ToBE;
    StandsPart(b, o, ToBE(e.start, 4), ToBE(e.count, 4), rest);
    NumberStands(b, o, e.start);
    NumberStands(b, o + 4, e.count);
    StandsInside(b, o + 4, ToBE(e.count, 4));
  }

  lemma StandsInside(b: seq<byte>, o: nat, a: seq<byte>)
    requires Stands(b, o, a)
    ensures o + |a| <= |b|
  {
  }

  lemma {:induction false} ExtentStandsAt(b: seq<byte>, o: nat, ext: seq<Extent>, k: nat)
    requires k < |ext| && Stands(b, o, ExtentBytes(ext))
    requires forall e :: e in ext ==> Fits32(e.start) && Fits32(e.count)
    ensures o + 8 * k + 8 <= |b|
    ensures U32be(b, o + 8 * k) == ext[k].start && U32be(b, o + 8 * k + 4) == ext[k].count
    decreases k
  {
    hide Stands, Fits32, U32be, ToBE;
    assert ext[0] in ext;
    ExtentStands(b, o, ext[0], ExtentBytes(ext[1..]));
    if k > 0 { ExtentStandsAt(b, o + 8, ext[1..], k - 1); }
  }

  /** Eight extents read as written. */
  lemma ExtentsStand(b: seq<byte>, base: nat, ext: seq<Extent>)
    requires |ext| == 8 && base + 64 <= |b| && Stands(b, base, ExtentBytes(ext))
    requires forall e :: e in ext ==> Fits32(e.start) && Fits32(e.count)
    ensures ExtentsIn(b, base, 0) == ext
  {
    hide Stands, Fits32, U32be, ExtentBytes, ExtentsIn;
    forall k | 0 <= k < 8 ensures ExtentsIn(b, base, 0)[k] == ext[k] {
      ExtentStandsAt(b, base, ext, k);
    }
  }

  function EntryOf(r: LeafRecord, cnid: nat, kind: nat): seq<OverflowRecord> {
    if r.kind == kind && r.cnid == cnid then [r.entry] else []
  }

  /** What the records tell of one file and fork. */
  function Matching(rs: seq<LeafRecord>, cnid: nat, kind: nat): seq<OverflowRecord> {
    if rs == [] then [] else EntryOf(rs[0], cnid, kind) + Matching(rs[1..], cnid, kind)
  }

  lemma ForkStands(node: seq<byte>, o: nat, r: LeafRecord)
    requires Stands(node, o, ForkBytes(r))
    ensures o + 4 <= |node| && U16be(node, o) == 10 && node[o + 2] == r.kind
  {
    StandsPart(node, o, ToBE(10, 2), [r.kind], [0]);
    assert node[o + 2] == node[o + 2..o + 3][0];
    hide ToBE, BE;
    assert Pow256(2) == 0x1_0000;
    BERoundTrip(10, 2);
  }

  lemma FileStands(node: seq<byte>, o: nat, r: LeafRecord)
    requires Writable(r) && Stands(node, o, FileBytes(r))
    ensures o + 8 <= |node| && U32be(node, o) == r.cnid && U32be(node, o + 4) == r.entry.first
  {
    hide Stands, U32be, ToBE;
    StandsInside(node, o, FileBytes(r));
    StandsPart(node, o, [], ToBE(r.cnid, 4), ToBE(r.entry.first, 4));
    NumberStands(node, o, r.cnid);
    NumberStands(node, o + 4, r.entry.first);
  }

  lemma KeyStands(node: seq<byte>, o: nat, r: LeafRecord)
    requires Writable(r) && Stands(node, o, RecordBytes(r))
    ensures o + 76 <= |node| && U16be(node, o) == 10 && node[o + 2] == r.kind
    ensures U32be(node, o + 4) == r.cnid && U32be(node, o + 8) == r.entry.first
    ensures Stands(node, o + 12, ExtentBytes(r.entry.extents))
  {
    hide Stands, ForkBytes, FileBytes, ExtentBytes, U16be, U32be;
    StandsInside(node, o, RecordBytes(r));
    StandsPart(node, o, ForkBytes(r), FileBytes(r), ExtentBytes(r.entry.extents));
    ForkStands(node, o, r);
    FileStands(node, o + 4, r);
  }

  /** A record reads as what was written, or as nothing if it is of another file or fork. */
  lemma RecordReads(node: seq<byte>, o: nat, r: LeafRecord, cnid: nat, kind: nat)
    requires Writable(r) && Stands(node, o, RecordBytes(r))
    ensures RecordAt(node, o, cnid, kind) == Ok(EntryOf(r, cnid, kind))
  {
    hide Stands, RecordBytes, U16be, U32be, ExtentsIn, ExtentBytes;
    KeyStands(node, o, r);
    ExtentsStand(node, o + 12, r.entry.extents);
  }

  lemma ExtentsInNumbers(b: seq<byte>, base: nat, ext: seq<Extent>)
    requires base + 64 <= |b| && ext == ExtentsIn(b, base, 0)
    ensures |ext| == 8
    ensures forall k :: 0 <= k < 8 ==> ext[k] == Extent(U32be(b, base + 8 * k), U32be(b, base + 8 * k + 4))
  {
    hide U32be;
  }

  /** A record that the node cuts short before what is looked at is an error, and one of another fork or file is looked
      at no further. The extents stand behind the key, whatever its length. */
  lemma RecordInNumbers(node: seq<byte>, o: nat, cnid: nat, kind: nat)
    ensures var r := RecordAt(node, o, cnid, kind);
            if |node| < o + 3 then r == Err(Short)
            else if node[o + 2] != kind then r == Ok([])
            else if |node| < o + 8 then r == Err(Short)
            else if U32be(node, o + 4) != cnid then r == Ok([])
            else
              var at := o + 2 + (node[o] as int * 256 + node[o + 1]);
              if |node| < o + 12 || |node| < at + 64 then r == Err(Short)
              else
                && r.Ok? && |r.value| == 1 && r.value[0].first == U32be(node, o + 8) && |r.value[0].extents| == 8
                && forall k :: 0 <= k < 8 ==>
                     r.value[0].extents[k] == Extent(U32be(node, at + 8 * k), U32be(node, at + 8 * k + 4))
  {
    hide U32be, U16be, ExtentsIn;
    if o + 2 <= |node| { U16beInNumbers(node, o); }
    var r := RecordAt(node, o, cnid, kind);
    if r.Ok? && r.value != [] { ExtentsInNumbers(node, o + 2 + U16be(node, o), r.value[0].extents); }
  }

  /** Two bytes at an offset that may count from the end, but not reach over it. */
  lemma UnpackInNumbers(b: seq<byte>, o: int)
    ensures UnpackU16(b, o) == if 0 <= o <= |b| - 2 then Some(b[o] as int * 256 + b[o + 1])
                               else if -|b| <= o <= -2 then Some(b[|b| + o] as int * 256 + b[|b| + o + 1])
                               else None
  {
    hide U16be;
    if 0 <= o <= |b| - 2 { U16beInNumbers(b, o); }
    if -|b| <= o <= -2 { U16beInNumbers(b, |b| + o); }
  }

  /** The node holds these records, found through the offsets at its end, from the i-th on. */
  predicate Holds(node: seq<byte>, ns: nat, i: nat, rs: seq<LeafRecord>) {
    && |node| >= 12 && U16be(node, 10) == i + |rs|
    && forall k :: 0 <= k < |rs| ==> RecordStands(node, ns, i + k, rs[k])
  }

  predicate RecordStands(node: seq<byte>, ns: nat, k: nat, r: LeafRecord) {
    && Writable(r)
    && match UnpackU16(node, ns - 2 * (k + 1)) case None => false case Some(o) => Stands(node, o, RecordBytes(r))
  }

  lemma {:induction false} NodeReads(node: seq<byte>, ns: nat, i: nat, rs: seq<LeafRecord>, cnid: nat, kind: nat)
    requires Holds(node, ns, i, rs)
    ensures NodeRecords(node, ns, i, cnid, kind) == Ok(Matching(rs, cnid, kind))
    decreases |rs|
  {
    hide RecordAt, UnpackU16, U16be, Stands, RecordBytes, Writable, EntryOf;
    if rs != [] {
      assert RecordStands(node, ns, i + 0, rs[0]);
      forall k | 0 <= k < |rs[1..]| ensures RecordStands(node, ns, i + 1 + k, rs[1..][k]) {
        assert RecordStands(node, ns, i + (k + 1), rs[k + 1]);
      }
      NodeReads(node, ns, i + 1, rs[1..], cnid, kind);
      RecordReads(node, UnpackU16(node, ns - 2 * (i + 1)).value, rs[0], cnid, kind);
    }
  }

  /** A chain of sibling nodes that starts at n and ends, and what each node holds. */
  datatype Leaf = Leaf(number: nat, bytes: seq<byte>, records: seq<LeafRecord>)

  ghost predicate Linked(fork: Fork, ns: nat, n: nat, leaves: seq<Leaf>)
    requires Sorted(fork.img.rows)
    decreases |leaves|
  {
    if leaves == [] then n == 0
    else
      && leaves[0].number == n != 0 && fork.ReadFrom(n * ns, ns) == Ok(leaves[0].bytes)
      && Holds(leaves[0].bytes, ns, 0, leaves[0].records)
      && (forall l :: l in leaves[1..] ==> l.number != n)
      && Linked(fork, ns, U32be(leaves[0].bytes, 0), leaves[1..])
  }

  function AllRecords(leaves: seq<Leaf>): seq<LeafRecord> {
    if leaves == [] then [] else leaves[0].records + AllRecords(leaves[1..])
  }

  lemma MatchingStep(rs: seq<LeafRecord>, cnid: nat, kind: nat)
    ensures rs == [] ==> Matching(rs, cnid, kind) == []
    ensures rs != [] ==> Matching(rs, cnid, kind) == EntryOf(rs[0], cnid, kind) + Matching(rs[1..], cnid, kind)
  {
    hide EntryOf;
  }

  lemma {:induction false} MatchingJoins(a: seq<LeafRecord>, b: seq<LeafRecord>, cnid: nat, kind: nat)
    ensures Matching(a + b, cnid, kind) == Matching(a, cnid, kind) + Matching(b, cnid, kind)
  {
    hide EntryOf, Matching;
    MatchingStep(a, cnid, kind);
    if a == [] {
      assert a + b == b;
    } else {
      MatchingStep(a + b, cnid, kind);
      assert (a + b)[0] == a[0] && (a + b)[1..] == a[1..] + b;
      MatchingJoins(a[1..], b, cnid, kind);
    }
  }

  lemma {:induction false} ChainReads(fork: Fork, ns: nat, n: nat, seen: set<nat>, leaves: seq<Leaf>, cnid: nat,
        kind: nat)
    requires Sorted(fork.img.rows) && Fits32(n) && Numbers(seen) && Linked(fork, ns, n, leaves)
    requires forall l :: l in leaves ==> l.number !in seen
    ensures ChainRecords(fork, ns, n, seen, cnid, kind) == Ok(Matching(AllRecords(leaves), cnid, kind))
    decreases |leaves|
  {
    hide Fork.ReadFrom, NodeRecords, U32be, U16be, Holds, Matching, Sorted, RecordStands;
    if leaves == [] {
      MatchingNone(cnid, kind);
    } else {
      var leaf := leaves[0];
      assert leaf in leaves && Holds(leaf.bytes, ns, 0, leaf.records);
      HoldsRoom(leaf.bytes, ns, leaf.records);
      LinkFits(leaf.bytes, 0);
      OneMore(seen, n);
      ChainReads(fork, ns, U32be(leaf.bytes, 0), seen + {n}, leaves[1..], cnid, kind);
      NodeReads(leaf.bytes, ns, 0, leaf.records, cnid, kind);
      MatchingJoins(leaf.records, AllRecords(leaves[1..]), cnid, kind);
    }
  }

  lemma MatchingNone(cnid: nat, kind: nat)
    ensures Matching([], cnid, kind) == []
  {
  }

  lemma HoldsRoom(node: seq<byte>, ns: nat, rs: seq<LeafRecord>)
    requires Holds(node, ns, 0, rs)
    ensures |node| >= 12
  {
  }

  /** The header node: node size and first leaf, and the leaves from there on. */
  ghost predicate HoldsTree(fork: Fork, hdr: seq<byte>, leaves: seq<Leaf>)
    requires Sorted(fork.img.rows)
  {
    && |hdr| >= 34 && fork.ReadFrom(0, 512) == Ok(hdr)
    && Linked(fork, U16be(hdr, 32), U32be(hdr, 24), leaves)
  }

  /** A tree in the format gives exactly the extents of the records of that file and fork, in file order,
      wherever its nodes lie and in whatever order they hold them. */
  lemma OverflowReads(fork: Fork, hdr: seq<byte>, leaves: seq<Leaf>, cnid: nat, kind: nat)
    requires Sorted(fork.img.rows) && HoldsTree(fork, hdr, leaves)
    ensures Overflow(fork, cnid, kind) == Ok(InFileOrder(Matching(AllRecords(leaves), cnid, kind)))
  {
    hide Fork.ReadFrom, ChainRecords, U32be, U16be, Linked, InFileOrder, Matching, AllRecords, Sorted;
    LinkFits(hdr, 24);
    NoNumbers();
    ChainReads(fork, U16be(hdr, 32), U32be(hdr, 24), {}, leaves, cnid, kind);
  }

  /** Two trees that hold the same records read alike. */
  lemma SameRecordsSameExtents(f: Fork, fh: seq<byte>, fl: seq<Leaf>, g: Fork, gh: seq<byte>, gl: seq<Leaf>,
      cnid: nat, kind: nat)
    requires Sorted(f.img.rows) && HoldsTree(f, fh, fl) && Sorted(g.img.rows) && HoldsTree(g, gh, gl)
    requires multiset(AllRecords(fl)) == multiset(AllRecords(gl))
    ensures Overflow(f, cnid, kind) == Overflow(g, cnid, kind)
  {
    hide Overflow, HoldsTree, InFileOrder, Matching, AllRecords, Sorted;
    OverflowReads(f, fh, fl, cnid, kind);
    OverflowReads(g, gh, gl, cnid, kind);
    MatchingMembers(AllRecords(fl), AllRecords(gl), cnid, kind);
    OverflowOrderIrrelevant(Matching(AllRecords(fl), cnid, kind), Matching(AllRecords(gl), cnid, kind));
  }

  lemma WithoutFirst<T>(a: seq<T>, b: seq<T>) returns (j: nat)
    requires multiset(a) == multiset(b) && a != []
    ensures j < |b| && b[j] == a[0] && multiset(a[1..]) == multiset(b[..j] + b[j + 1..])
  {
    SameMembers(a, b);
    assert a[0] in a && a[0] in b;
    j :| 0 <= j < |b| && b[j] == a[0];
    var l, r := b[..j], b[j + 1..];
    assert a == [a[0]] + a[1..] && b == l + [b[j]] + r;
    calc {
      multiset(a[1..]);
      multiset(a) - multiset{a[0]};
      multiset(l + [b[j]] + r) - multiset{a[0]};
      multiset(l) + multiset(r);
      multiset(l + r);
    }
  }

  lemma MiddleOut<T>(x: seq<T>, m: seq<T>, y: seq<T>)
    ensures multiset(x + (m + y)) == multiset(m) + multiset(x + y)
  {
  }

  lemma MatchingAround(l: seq<LeafRecord>, m: LeafRecord, r: seq<LeafRecord>, cnid: nat, kind: nat)
    ensures multiset(Matching(l + [m] + r, cnid, kind))
            == multiset(EntryOf(m, cnid, kind)) + multiset(Matching(l + r, cnid, kind))
  {
    hide Matching, EntryOf;
    MatchingJoins(l, r, cnid, kind);
    assert l + [m] + r == l + ([m] + r) && ([m] + r)[0] == m && ([m] + r)[1..] == r;
    MatchingJoins(l, [m] + r, cnid, kind);
    MatchingStep([m] + r, cnid, kind);
    MiddleOut(Matching(l, cnid, kind), EntryOf(m, cnid, kind), Matching(r, cnid, kind));
  }

  lemma {:induction false} MatchingMembers(a: seq<LeafRecord>, b: seq<LeafRecord>, cnid: nat, kind: nat)
    requires multiset(a) == multiset(b)
    ensures multiset(Matching(a, cnid, kind)) == multiset(Matching(b, cnid, kind))
    decreases |a|
  {
    assert |a| == |multiset(a)| == |multiset(b)| == |b|;
    if a != [] {
      hide EntryOf;
      var j := WithoutFirst(a, b);
      assert b == b[..j] + [b[j]] + b[j + 1..];
      MatchingAround(b[..j], b[j], b[j + 1..], cnid, kind);
      MatchingMembers(a[1..], b[..j] + b[j + 1..], cnid, kind);
    }
  }

  // ---- opening a fork ---------------------------------------------------------------------------

  /** The file a fork belongs to; the three forks of the volume header have none. */
  datatype FileId = NoId | Id(tree: Fork, cnid: nat, kind: nat)

  datatype ForkError = ShortRecord | NoFileId | ExtentsTooShort | Leaves(error: LeafError)

  predicate TreeReady(id: FileId) {
    id.Id? ==> Sorted(id.tree.img.rows)
  }

  /** Fork.__init__: the size and extents of a fork, or why it cannot be read. */
  function OpenFork(img: Udif, bs: nat, rec: seq<byte>, id: FileId): (r: Result<Fork, ForkError>)
    requires TreeReady(id)
    ensures r.Ok? ==> r.value.Covered() && |rec| >= 80 && r.value.size == U64be(rec, 0)
    ensures r.Ok? ==> |r.value.ext| >= 8 && r.value.ext[..8] == ExtentsIn(rec, 16, 0)
    ensures r.Ok? && |r.value.ext| > 8 ==> id.Id? && Overflow(id.tree, id.cnid, id.kind) == Ok(r.value.ext[8..])
    ensures r.Ok? && Blocks(r.value.ext[..8]) * bs >= r.value.size ==> |r.value.ext| == 8
  {
    hide U64be, U32be, Overflow, Blocks;
    if |rec| < 80 then Err(ShortRecord)
    else
      var size, inl := U64be(rec, 0), ExtentsIn(rec, 16, 0);
      if Blocks(inl) * bs >= size then Ok(Fork(img, bs, size, inl))
      else if id.NoId? then Err(NoFileId)
      else
        match Overflow(id.tree, id.cnid, id.kind)
        case Err(e) => Err(Leaves(e))
        case Ok(more) =>
          var ext := inl + more;
          if Blocks(ext) * bs < size then Err(ExtentsTooShort) else Ok(Fork(img, bs, size, ext))
  }

  /** The size is the record's first eight bytes, and start and count of its k-th extent are the words at 16 + 8k. */
  lemma ForkInNumbers(img: Udif, bs: nat, rec: seq<byte>, id: FileId, k: nat)
    requires TreeReady(id) && OpenFork(img, bs, rec, id).Ok? && k < 8
    ensures var f, o := OpenFork(img, bs, rec, id).value, 16 + 8 * k;
            && f.size == U32be(rec, 0) * 0x1_0000_0000 + U32be(rec, 4) && f.bs == bs && |f.ext| >= 8
            && f.ext[k].start == rec[o] as int * 0x100_0000 + rec[o + 1] as int * 0x1_0000 + rec[o + 2] as int * 0x100
                                 + rec[o + 3]
            && f.ext[k].count == rec[o + 4] as int * 0x100_0000 + rec[o + 5] as int * 0x1_0000
                                 + rec[o + 6] as int * 0x100 + rec[o + 7]
  {
    hide U64be, U32be, Overflow, Blocks;
    var f := OpenFork(img, bs, rec, id).value;
    U64beInNumbers(rec, 0);
    U32beInNumbers(rec, 16 + 8 * k);
    U32beInNumbers(rec, 20 + 8 * k);
    assert f.ext[k] == f.ext[..8][k];
  }

  /** What reading through the file's tree may change. */
  ghost function Caches(id: FileId): set<object> {
    if id.Id? then {id.tree.img} + id.tree.img.src.Repr() else {}
  }

  method Open(img: Udif, bs: nat, rec: seq<byte>, id: FileId) returns (r: Result<Fork, ForkError>)
    requires id.Id? ==> id.tree.img.Valid()
    modifies Caches(id)
    ensures (id.Id? ==> id.tree.img.Valid()) && TreeReady(id) && r == OpenFork(img, bs, rec, id)
  {
    hide U64be, U32be, Overflow, Blocks, Udif.Valid, Sorted;
    if id.Id? { id.tree.img.ValidSorted(); }
    if |rec| < 80 {
      return Err(ShortRecord);
    }
    var size, ext := U64be(rec, 0), ExtentsIn(rec, 16, 0);
    if Blocks(ext) * bs < size {
      if id.NoId? {
        return Err(NoFileId);
      }
      var more := FindOverflow(id.tree, id.cnid, id.kind);
      if more.Err? {
        return Err(Leaves(more.error));
      }
      ext := ext + more.value;
      if Blocks(ext) * bs < size {
        return Err(ExtentsTooShort);
      }
    }
    r := Ok(Fork(img, bs, size, ext));
  }

  // ---- from the tree to the file's bytes --------------------------------------------------------

  /** All extents of a file: those of its record, and if they do not cover it, those that the tree holds. */
  function FileExtents(bs: nat, rec: seq<byte>, rs: seq<OverflowRecord>): seq<Extent>
    requires |rec| >= 80
  {
    var inl := ExtentsIn(rec, 16, 0);
    if Blocks(inl) * bs >= U64be(rec, 0) then inl else inl + InFileOrder(rs)
  }

  /** Over a tree in the format, a fork opens exactly if its extents cover it. */
  lemma OpensIff(img: Udif, bs: nat, rec: seq<byte>, id: FileId, hdr: seq<byte>, leaves: seq<Leaf>)
    requires |rec| >= 80 && id.Id? && Sorted(id.tree.img.rows) && HoldsTree(id.tree, hdr, leaves)
    ensures var ext := FileExtents(bs, rec, Matching(AllRecords(leaves), id.cnid, id.kind));
            var r := OpenFork(img, bs, rec, id);
            && (r.Ok? <==> Blocks(ext) * bs >= U64be(rec, 0))
            && (r.Ok? ==> r.value == Fork(img, bs, U64be(rec, 0), ext))
  {
    hide U64be, ExtentsIn, Blocks, InFileOrder, Matching, AllRecords, HoldsTree, Overflow, Sorted;
    OverflowReads(id.tree, hdr, leaves, id.cnid, id.kind);
  }

  /** The whole way: a fork that opens over a tree in the format reads as that slice of its record's blocks and
      the tree's, in file order, cut at the size in its record. */
  lemma FragmentedFileReads(fork: Fork, rec: seq<byte>, id: FileId, hdr: seq<byte>, leaves: seq<Leaf>, off: nat, n: nat)
    requires |rec| >= 80 && id.Id? && TreeReady(id) && HoldsTree(id.tree, hdr, leaves)
    requires OpenFork(fork.img, fork.bs, rec, id) == Ok(fork) && off <= fork.size
    requires Flattens(fork.img) && Inside(fork.ext, fork.bs, |Flat(fork.img)|)
    ensures fork.ext == FileExtents(fork.bs, rec, Matching(AllRecords(leaves), id.cnid, id.kind))
    ensures fork.size == U64be(rec, 0) && ReadsItsBlocks(fork, off, n)
  {
    hide OpenFork, FileExtents, Matching, AllRecords, HoldsTree, Sorted, Flattens, Flat, Logical, Inside, Span;
    hide Fork.ReadFrom, Fork.Covered, U64be;
    OpensIff(fork.img, fork.bs, rec, id, hdr, leaves);
    StackIsFlat(fork, off, n);
  }
}
