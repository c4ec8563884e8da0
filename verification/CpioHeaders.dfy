/** The archives byte by byte: the numbers of every header, and where names, contents and fill bytes are. */
module CpioHeaders {
  import opened Bytes
  import opened CpioFormat
  import opened CpioRoundTrip
  import opened CpioWriters
  import opened CpioOverlay

  // ---- hexadecimal ------------------------------------------------------------------------------

  /** 0 to 9, or a capital A to F. */
  predicate Capital(c: byte) {
    0x30 <= c <= 0x39 || 0x41 <= c <= 0x46
  }

  /** The number that capital digits stand for, the highest first. */
  function Number(s: seq<byte>): int {
    if s == [] then 0
    else var c: int := s[|s| - 1]; 16 * Number(s[..|s| - 1]) + if c < 0x40 then c - 0x30 else c - 0x37
  }

  ghost predicate AllCapital(s: seq<byte>) {
    forall i :: 0 <= i < |s| ==> Capital(s[i])
  }

  lemma {:induction false} HexInNumbers(n: nat, k: nat)
    requires n < Pow16(k)
    ensures |Hex(n, k)| == k && AllCapital(Hex(n, k)) && Number(Hex(n, k)) == n
  {
    if k > 0 {
      HexInNumbers(n / 16, k - 1);
      var h, last := Hex(n / 16, k - 1), HexDigit(n % 16);
      assert Hex(n, k) == h + [last];
      assert (h + [last])[..k - 1] == h;
    }
  }

  lemma FieldInNumbers(n: nat)
    requires Fits32(n)
    ensures |Hex(n, 8)| == 8 && AllCapital(Hex(n, 8)) && Number(Hex(n, 8)) == n
  {
    assert Pow16(8) == 16 * (16 * (16 * (16 * (16 * (16 * (16 * 16))))));
    hide Hex, Number, AllCapital;
    HexInNumbers(n, 8);
  }

  // ---- one record -------------------------------------------------------------------------------

  /** Header number k of the record at p. */
  ghost predicate Field(d: seq<byte>, p: nat, k: nat, n: nat) {
    p + 14 + 8 * k <= |d| && var s := d[p + 6 + 8 * k..p + 14 + 8 * k]; AllCapital(s) && Number(s) == n
  }

  ghost predicate ZeroFrom(d: seq<byte>, a: nat, b: nat) {
    b <= |d| && forall i :: a <= i < b ==> d[i] == 0
  }

  /** The thirteen numbers. */
  ghost predicate Header(d: seq<byte>, p: nat, ino: nat, mode: nat, nlink: nat, mtime: nat, named: nat, size: nat) {
    var numbers := [ino, mode, 0, 0, nlink, mtime, size, 0, 0, 0, 0, named + 1, 0];
    forall k :: 0 <= k < 13 ==> Field(d, p, k, numbers[k])
  }

  /** A record at p with the next one at next: 070701, thirteen numbers, the name and a zero, the contents, with zeros
      up to a multiple of four before and after these. */
  ghost predicate Stands(d: seq<byte>, p: nat, next: nat, ino: nat, mode: nat, nlink: nat, mtime: nat, name: seq<byte>,
                         data: seq<byte>) {
    var start := (p + 111 + |name| + 3) / 4 * 4;
    && next == (start + |data| + 3) / 4 * 4 <= |d|
    && d[p..p + 6] == [0x30, 0x37, 0x30, 0x37, 0x30, 0x31]
    && Header(d, p, ino, mode, nlink, mtime, |name|, |data|)
    && d[p + 110..p + 110 + |name|] == name && ZeroFrom(d, p + 110 + |name|, start)
    && d[start..start + |data|] == data && ZeroFrom(d, start + |data|, next)
  }

  lemma FieldReads(d: seq<byte>, p: nat, e: Entry, k: nat)
    requires EntryFits(e) && k < 13 && p + 110 <= |d| && d[p + 6..p + 110] == FieldBytes(FieldsOf(e))
    ensures Field(d, p, k, FieldsOf(e)[k])
  {
    hide FieldBytes, FieldsOf, Hex, Number, AllCapital, EntryFits;
    FieldsFit(e);
    var f := FieldsOf(e)[k];
    assert f in FieldsOf(e);
    FieldBytesAt(FieldsOf(e), k);
    FieldInNumbers(f);
    SliceOfSlice(d, p + 6, p + 110, 8 * k, 8 * k + 8);
  }

  lemma HeaderReads(d: seq<byte>, p: nat, e: Entry)
    requires EntryFits(e) && p + 110 <= |d| && d[p + 6..p + 110] == FieldBytes(FieldsOf(e))
    ensures Header(d, p, e.ino, e.mode, e.nlink, e.mtime, |e.name|, |e.data|)
  {
    hide FieldBytes, EntryFits, Field;
    forall k | 0 <= k < 13 ensures Field(d, p, k, FieldsOf(e)[k]) { FieldReads(d, p, e, k); }
  }

  /** The bytes of a record that are neither header, name nor contents. */
  lemma RecordFill(e: Entry)
    requires EntryFits(e)
    ensures var r, start := Record(e), Align4(111 + |e.name|);
            && |r| == start + Align4(|e.data|) && 111 + |e.name| <= start
            && ZeroFrom(r, 110 + |e.name|, start) && ZeroFrom(r, start + |e.data|, |r|)
  {
    hide HeaderBytes, EntryFits, Padding, Align4;
    RecordSize(e);
    PaddingAligns(111 + |e.name|);
    PaddingAligns(|e.data|);
    var head := HeaderBytes(e) + e.name;
    var z1, z2: seq<byte> := Zeros(|NamePart(e)|, 4), Zeros(|e.data|, 4);
    assert Record(e) == head + [0] + z1 + (e.data + z2);
    FillLies(head, z1, e.data, z2);
  }

  lemma FillLies(head: seq<byte>, z1: seq<byte>, data: seq<byte>, z2: seq<byte>)
    requires ZeroFrom(z1, 0, |z1|) && ZeroFrom(z2, 0, |z2|)
    ensures var r, start := head + [0] + z1 + (data + z2), |head| + 1 + |z1|;
            ZeroFrom(r, |head|, start) && ZeroFrom(r, start + |data|, |r|)
  {
  }

  lemma ZeroInside(d: seq<byte>, p: nat, r: seq<byte>, a: nat, b: nat)
    requires p + |r| <= |d| && d[p..p + |r|] == r && ZeroFrom(r, a, b)
    ensures ZeroFrom(d, p + a, p + b)
  {
    forall i | p + a <= i < p + b ensures d[i] == 0 {
      assert d[i] == r[i - p];
    }
  }

  lemma RecordStands(d: seq<byte>, p: nat, e: Entry, tail: seq<byte>)
    requires EntryFits(e) && p % 4 == 0 && Rest(d, p, Record(e) + tail)
    ensures Stands(d, p, p + |Record(e)|, e.ino, e.mode, e.nlink, e.mtime, e.name, e.data)
    ensures Rest(d, p + |Record(e)|, tail) && (p + |Record(e)|) % 4 == 0
  {
    hide Record, Rest, FieldBytes, FieldsOf, EntryFits, Header, ZeroFrom, Align4, Stands;
    RecordLocates(d, p, e, tail);
    RecordEnds(p, e);
    RestSkips(d, p, Record(e), tail);
    RecordFill(e);
    AlignShifts(p, 111 + |e.name|);
    ZeroInside(d, p, Record(e), 110 + |e.name|, Align4(111 + |e.name|));
    ZeroInside(d, p, Record(e), Align4(111 + |e.name|) + |e.data|, |Record(e)|);
    HeaderReads(d, p, e);
    PartsStand(d, p, e, p + |Record(e)|);
  }

  lemma PartsStand(d: seq<byte>, p: nat, e: Entry, next: nat)
    requires RecordLies(d, p, e) && Header(d, p, e.ino, e.mode, e.nlink, e.mtime, |e.name|, |e.data|)
    requires next == Align4(Align4(p + 111 + |e.name|) + |e.data|) <= |d|
    requires ZeroFrom(d, p + 110 + |e.name|, Align4(p + 111 + |e.name|))
    requires ZeroFrom(d, Align4(p + 111 + |e.name|) + |e.data|, next)
    ensures Stands(d, p, next, e.ino, e.mode, e.nlink, e.mtime, e.name, e.data)
  {
    hide FieldBytes, FieldsOf, Header, ZeroFrom;
  }

  // ---- what the reader makes of a record --------------------------------------------------------

  lemma {:induction false} HexOfNumber(s: seq<byte>)
    requires AllCapital(s)
    ensures 0 <= Number(s) < Pow16(|s|) && Hex(Number(s), |s|) == s
  {
    if s != [] {
      var init := s[..|s| - 1];
      HexOfNumber(init);
      assert Number(s) / 16 == Number(init);
      assert s == init + [s[|s| - 1]];
    }
  }

  lemma FieldIsRead(d: seq<byte>, p: nat, k: nat, n: nat)
    requires Field(d, p, k, n)
    ensures ReadNumber(d[p + 6 + 8 * k..p + 14 + 8 * k]) == Some(n)
  {
    var s := d[p + 6 + 8 * k..p + 14 + 8 * k];
    hide ReadNumber, Hex, Number, AllCapital;
    HexOfNumber(s);
    HexRoundTrip(n, 8);
  }

  lemma {:induction false} HeaderIsRead(d: seq<byte>, p: nat, numbers: seq<nat>, n: nat)
    requires |numbers| == 13 && n <= 13 && forall k :: 0 <= k < n ==> Field(d, p, k, numbers[k])
    ensures FieldsAt(d, p, n) == Some(numbers[..n])
  {
    hide ReadNumber, Field;
    if n > 0 {
      HeaderIsRead(d, p, numbers, n - 1);
      FieldIsRead(d, p, n - 1, numbers[n - 1]);
      FieldInside(d, p, n - 1, numbers[n - 1]);
      assert numbers[..n - 1] + [numbers[n - 1]] == numbers[..n];
    }
  }

  lemma FieldInside(d: seq<byte>, p: nat, k: nat, n: nat)
    requires Field(d, p, k, n)
    ensures p + 14 + 8 * k <= |d|
  {
  }

  /** 070701 or 070702, with 110 bytes there. */
  lemma MagicInNumbers(d: seq<byte>, p: nat)
    ensures HeaderAt(d, p) <==> && p + 110 <= |d| && d[p..p + 5] == [0x30, 0x37, 0x30, 0x37, 0x30]
                                && (d[p + 5] == 0x31 || d[p + 5] == 0x32)
  {
    if p + 110 <= |d| {
      assert d[p..p + 6] == d[p..p + 5] + [d[p + 5]];
      assert d[p..p + 6][..5] == d[p..p + 5];
    }
  }

  /** The reader yields any record that stands in an archive, whoever wrote it, with its contents if its type is 8,
      and goes on behind it; at a trailer it stops. */
  lemma StandingIsRead(d: seq<byte>, p: nat, next: nat, ino: nat, mode: nat, nlink: nat, mtime: nat, name: seq<byte>,
                       data: seq<byte>)
    requires Stands(d, p, next, ino, mode, nlink, mtime, name, data)
    ensures HeaderAt(d, p)
    ensures MemberAt(d, p) == if name == [0x54, 0x52, 0x41, 0x49, 0x4C, 0x45, 0x52, 0x21, 0x21, 0x21] then Stop
                              else Yield(Member(name, if mode / 0x1000 % 16 == 8 then Some(data) else None), next)
  {
    hide Field, FieldsAt, ZeroFrom, Slice, FromEnd;
    var numbers := [ino, mode, 0, 0, nlink, mtime, |data|, 0, 0, 0, 0, |name| + 1, 0];
    assert numbers[..13] == numbers;
    HeaderIsRead(d, p, numbers, 13);
  }

  // ---- the archive of a tree --------------------------------------------------------------------

  /** A directory, a link or a regular file, as its header says. */
  ghost predicate NodeStands(d: seq<byte>, p: nat, next: nat, n: Node, ino: nat) {
    match n
    case Dir(name, mode, mtime) => Stands(d, p, next, ino, 0x4000 + mode % 0x1000, 2, mtime, name, [])
    case Link(name, target, mtime) => Stands(d, p, next, ino, 0xA1FF, 1, mtime, name, target)
    case File(name, mode, mtime, content) =>
      Stands(d, p, next, ino, 0x8000 + mode % 0x1000, 1, mtime, name, content)
  }

  /** TRAILER!!! */
  ghost predicate TrailerStands(d: seq<byte>, p: nat, next: nat, ino: nat) {
    Stands(d, p, next, ino, 0, 1, 0, [0x54, 0x52, 0x41, 0x49, 0x4C, 0x45, 0x52, 0x21, 0x21, 0x21], [])
  }

  /** The nodes one after the other from p on, numbered from ino, then the trailer and zeros to a multiple of 512. */
  ghost predicate NodesStand(d: seq<byte>, p: nat, nodes: seq<Node>, ino: nat)
    decreases |nodes|
  {
    if nodes == [] then
      exists next: nat :: TrailerStands(d, p, next, ino) && ZeroFrom(d, next, |d|) && |d| == (next + 511) / 512 * 512
    else
      exists next: nat :: NodeStands(d, p, next, nodes[0], ino) && NodesStand(d, next, nodes[1..], ino + 1)
  }

  lemma NodeInArchive(d: seq<byte>, p: nat, n: Node, ino: nat, tail: seq<byte>)
    requires NodeFits(n) && Fits32(ino) && p % 4 == 0 && Rest(d, p, Record(NodeEntry(n, ino)) + tail)
    ensures var next := p + |Record(NodeEntry(n, ino))|;
            NodeStands(d, p, next, n, ino) && Rest(d, next, tail) && next % 4 == 0
  {
    hide Record, Rest, Stands;
    RecordStands(d, p, NodeEntry(n, ino), tail);
  }

  /** The entries of nodes from number ino on. */
  function EntriesFrom(nodes: seq<Node>, ino: nat): seq<Entry> {
    if nodes == [] then [] else [NodeEntry(nodes[0], ino)] + EntriesFrom(nodes[1..], ino + 1)
  }

  lemma {:induction false} EntriesInOrder(nodes: seq<Node>, ino: nat)
    ensures |EntriesFrom(nodes, ino)| == |nodes|
    ensures forall i :: 0 <= i < |nodes| ==> EntriesFrom(nodes, ino)[i] == NodeEntry(nodes[i], ino + i)
  {
    hide NodeEntry;
    if nodes != [] {
      EntriesInOrder(nodes[1..], ino + 1);
      var rest := EntriesFrom(nodes[1..], ino + 1);
      forall i | 1 <= i < |nodes| ensures EntriesFrom(nodes, ino)[i] == NodeEntry(nodes[i], ino + i) {
        assert rest[i - 1] == NodeEntry(nodes[1..][i - 1], ino + 1 + (i - 1));
      }
    }
  }

  lemma {:induction false} NodesInArchive(d: seq<byte>, p: nat, nodes: seq<Node>, ino: nat, fill: seq<byte>)
    requires Fits32(ino + |nodes|) && forall n :: n in nodes ==> NodeFits(n)
    requires p % 4 == 0
    requires Rest(d, p, Records(EntriesFrom(nodes, ino)) + (Record(TrailerEntry(ino + |nodes|, 1)) + fill))
    requires ZeroFrom(fill, 0, |fill|) && |fill| < 512 && |d| % 512 == 0
    ensures NodesStand(d, p, nodes, ino)
    decreases |nodes|
  {
    hide Record, Rest, Stands, NodeStands, NodeFits, NodeEntry, ZeroFrom;
    var last := Record(TrailerEntry(ino + |nodes|, 1)) + fill;
    if nodes == [] {
      assert [] + last == last;
      TrailerInArchive(d, p, ino, fill);
    } else {
      var e, rest := NodeEntry(nodes[0], ino), EntriesFrom(nodes[1..], ino + 1);
      assert Records([e] + rest) == Record(e) + Records(rest) by {
        assert ([e] + rest)[0] == e && ([e] + rest)[1..] == rest;
      }
      assert Record(e) + Records(rest) + last == Record(e) + (Records(rest) + last);
      NodeInArchive(d, p, nodes[0], ino, Records(rest) + last);
      NodesInArchive(d, p + |Record(e)|, nodes[1..], ino + 1, fill);
    }
  }

  lemma TrailerInArchive(d: seq<byte>, p: nat, ino: nat, fill: seq<byte>)
    requires Fits32(ino) && p % 4 == 0 && Rest(d, p, Record(TrailerEntry(ino, 1)) + fill)
    requires ZeroFrom(fill, 0, |fill|) && |fill| < 512 && |d| % 512 == 0
    ensures NodesStand(d, p, [], ino)
  {
    hide Record, Stands, ZeroFrom;
    var next := p + |Record(TrailerEntry(ino, 1))|;
    RecordStands(d, p, TrailerEntry(ino, 1), fill);
    assert next + |fill| == |d| && d[next..next + |fill|] == fill;
    ZeroInside(d, next, fill, 0, |fill|);
    assert TrailerStands(d, p, next, ino);
  }

  /** Every header of the archive of a tree whose numbers fit, by its thirteen numbers. */
  lemma TreeInNumbers(nodes: seq<Node>)
    requires TreeFits(nodes)
    ensures NodesStand(TreeArchive(nodes), 0, nodes, 300001)
  {
    var es, d := TreeEntries(nodes), TreeArchive(nodes);
    var last := Record(TreeTrailer(|nodes|));
    var body := Records(es) + last;
    var fill: seq<byte> := Zeros(|body|, 512);
    TreeArchiveBlocks(nodes);
    EntriesInOrder(nodes, 300001);
    assert EntriesFrom(nodes, 300001) == es;
    hide Record, Records, NodesStand, NodeEntry;
    assert d == body + fill == Records(es) + (last + fill);
    NodesInArchive(d, 0, nodes, 300001, fill);
  }

  // ---- the overlay's entries --------------------------------------------------------------------

  /** The entries one after the other from p on, then a trailer. */
  ghost predicate EntriesStand(d: seq<byte>, p: nat, es: seq<Entry>)
    decreases |es|
  {
    if es == [] then exists next: nat :: TrailerStands(d, p, next, 0)
    else
      var e := es[0];
      exists next: nat :: Stands(d, p, next, e.ino, e.mode, e.nlink, e.mtime, e.name, e.data)
                          && EntriesStand(d, next, es[1..])
  }

  lemma {:induction false} EntriesInArchive(d: seq<byte>, p: nat, es: seq<Entry>, tail: seq<byte>)
    requires AllFit(es) && p % 4 == 0 && Rest(d, p, Records(es) + (Record(TrailerEntry(0, 1)) + tail))
    ensures EntriesStand(d, p, es)
    decreases |es|
  {
    hide Record, Rest, Stands, EntryFits;
    var last := Record(TrailerEntry(0, 1)) + tail;
    if es == [] {
      assert [] + last == last;
      assert EntryFits(TrailerEntry(0, 1)) by { TrailerFits(); }
      RecordStands(d, p, TrailerEntry(0, 1), tail);
      assert TrailerStands(d, p, p + |Record(TrailerEntry(0, 1))|, 0);
    } else {
      var e := es[0];
      assert Record(e) + Records(es[1..]) + last == Record(e) + (Records(es[1..]) + last);
      RecordStands(d, p, e, Records(es[1..]) + last);
      EntriesInArchive(d, p + |Record(e)|, es[1..], tail);
    }
  }

  lemma TrailerFits()
    ensures EntryFits(TrailerEntry(0, 1))
  {
  }

  lemma Regrouped(a: seq<byte>, b: seq<byte>, c: seq<byte>)
    ensures a + b + c == a + (b + c)
  {
  }

  lemma OverlayInNumbers(specs: seq<Spec>, tail: seq<byte>)
    requires AllFit(Plan(specs).entries)
    ensures EntriesStand(OverlayArchive(specs) + tail, 0, Plan(specs).entries)
  {
    var es, last, d := Plan(specs).entries, Record(TrailerEntry(0, 1)), OverlayArchive(specs) + tail;
    hide Record, Records, Plan, AllFit, EntriesStand;
    Regrouped(Records(es), last, tail);
    EntriesInArchive(d, 0, es, tail);
  }

  /** w is the last component of a path. */
  ghost predicate EndsIn(d: seq<byte>, w: seq<byte>) {
    d == w || (|d| > |w| && d[|d| - |w| - 1] == 0x2F && d[|d| - |w|..] == w)
  }

  /** The last component is root or .ssh. */
  ghost predicate Private(d: seq<byte>) {
    EndsIn(d, [0x72, 0x6F, 0x6F, 0x74]) || EndsIn(d, [0x2E, 0x73, 0x73, 0x68])
  }

  /** A directory above the place of some spec. */
  ghost predicate Above(e: Entry, specs: seq<Spec>) {
    && e == Entry(e.name, 0, if Private(e.name) then 0x41C0 else 0x41ED, 1, 0, [])
    && exists s :: s in specs && e.name + [0x2F] <= Strip(s.dest)
  }

  /** A spec's file; MODE with the bit of a regular file. */
  ghost function Given(s: Spec): Entry {
    Entry(Strip(s.dest), 0, if s.mode / 0x8000 % 2 == 1 then s.mode else s.mode + 0x8000, 1, 0, s.content)
  }

  ghost function AllGiven(specs: seq<Spec>): seq<Entry> {
    if specs == [] then [] else AllGiven(specs[..|specs| - 1]) + [Given(specs[|specs| - 1])]
  }

  ghost function NotDirs(es: seq<Entry>): seq<Entry> {
    if es == [] then []
    else
      var e := es[|es| - 1];
      NotDirs(es[..|es| - 1]) + if e.mode / 0x1000 % 16 == 4 then [] else [e]
  }

  lemma NotDirsSnoc(es: seq<Entry>, e: Entry)
    ensures NotDirs(es + [e]) == NotDirs(es) + if e.mode / 0x1000 % 16 == 4 then [] else [e]
  {
    assert (es + [e])[..|es|] == es;
  }

  lemma DirInNumbers(d: seq<byte>)
    ensures DirEntry(d) == Entry(d, 0, if Private(d) then 0x41C0 else 0x41ED, 1, 0, [])
  {
    hide LastSlash, EndsIn;
    LastComponent(d, LastSlash(d), ROOT);
    LastComponent(d, LastSlash(d), DOT_SSH);
  }

  lemma LastComponent(d: seq<byte>, k: int, w: seq<byte>)
    requires -1 <= k < |d| && (k >= 0 ==> d[k] == 0x2F) && forall i :: k < i < |d| ==> d[i] != 0x2F
    requires 0x2F !in w
    ensures EndsIn(d, w) <==> d[k + 1..] == w
  {
    var last := d[k + 1..];
    if k < 0 { assert last == d; }
    if last == w && k >= 0 { assert |d| - |w| == k + 1; }
    if EndsIn(d, w) && d != w {
      assert forall i :: |d| - |w| <= i < |d| ==> d[i] == w[i - (|d| - |w|)];
      assert k == |d| - |w| - 1;
    }
  }

  /** Every proper prefix of the parts is a directory above the place. */
  lemma {:induction false} PrefixAbove(s: seq<byte>, i: nat)
    requires 1 <= i < |Split(s)|
    ensures Join(Split(s)[..i]) + [0x2F] <= s
    decreases |s|
  {
    var k, parts := LastSlash(s), Split(s);
    assert parts[..i] == Split(s[..k])[..i];
    if i == |parts| - 1 {
      JoinOfSplit(s[..k]);
      assert parts[..i] == Split(s[..k]);
    } else {
      PrefixAbove(s[..k], i);
    }
  }

  ghost predicate Known(e: Entry, specs: seq<Spec>) {
    Above(e, specs) || exists s :: s in specs && e == Given(s)
  }

  lemma {:induction false} DirsKnown(p: Planned, s: Spec, n: nat)
    requires n < |Split(Strip(s.dest))|
    ensures var es := AddDirs(p, Split(Strip(s.dest)), n).entries;
            && NotDirs(es) == NotDirs(p.entries)
            && forall e :: e in es ==> e in p.entries || Above(e, [s])
  {
    hide Split, Strip, Join, EndsIn, DirEntry, NotDirs;
    if n > 0 {
      DirsKnown(p, s, n - 1);
      var q, d := AddDirs(p, Split(Strip(s.dest)), n - 1), Join(Split(Strip(s.dest))[..n]);
      PrefixAbove(Strip(s.dest), n);
      DirInNumbers(d);
      assert s in [s];
      NotDirsSnoc(q.entries, DirEntry(d));
    }
  }

  lemma FileInNumbers(s: Spec)
    ensures FileEntry(s) == Given(s) && Given(s).mode / 0x1000 % 16 != 4
  {
    hide Strip;
    var q := s.mode / 0x1000;
    assert s.mode / 0x8000 == q / 8 && (s.mode + 0x8000) / 0x1000 == q + 8;
  }

  lemma KnownAmongMore(e: Entry, some: seq<Spec>, more: seq<Spec>)
    requires Known(e, some) && forall s :: s in some ==> s in more
    ensures Known(e, more)
  {
    hide EndsIn, Strip, Given;
  }

  /** The archive of an overlay holds the files given, in order, and between them nothing but directories above
      them: mode 0700 for root and .ssh, 0755 for any other. */
  lemma {:induction false} PlanInNumbers(specs: seq<Spec>)
    ensures NotDirs(Plan(specs).entries) == AllGiven(specs)
    ensures forall e :: e in Plan(specs).entries ==> Known(e, specs)
  {
    hide Split, Strip, AddDirs, Known, NotDirs, FileEntry;
    if specs == [] {
      assert NotDirs([]) == [] by { NoEntries(); }
    } else {
      var before, s := specs[..|specs| - 1], specs[|specs| - 1];
      PlanInNumbers(before);
      var parts, p := Split(Strip(s.dest)), Plan(before);
      var q := AddDirs(p, parts, |parts| - 1);
      DirsKnown(p, s, |parts| - 1);
      FileInNumbers(s);
      NotDirsSnoc(q.entries, FileEntry(s));
      forall e | e in Plan(specs).entries ensures Known(e, specs) {
        if e in p.entries { KnownAmongMore(e, before, specs); } else { NewKnown(e, s, specs); }
      }
    }
  }

  lemma NoEntries()
    ensures NotDirs([]) == []
  {
  }

  lemma NewKnown(e: Entry, s: Spec, specs: seq<Spec>)
    requires s in specs && (Above(e, [s]) || e == Given(s))
    ensures Known(e, specs)
  {
    hide EndsIn, Strip, Given;
  }

  /** strip("/") takes slashes off both ends. */
  lemma {:induction false} StripInNumbers(s: seq<byte>) returns (a: nat, b: nat)
    ensures s == Repeat<byte>(0x2F, a) + Strip(s) + Repeat<byte>(0x2F, b)
  {
    if s != [] && s[0] == 0x2F {
      a, b := StripInNumbers(s[1..]);
      assert Repeat<byte>(0x2F, a + 1) == [0x2F] + Repeat<byte>(0x2F, a);
      a := a + 1;
    } else {
      a := 0;
      b := StripsRight(s);
    }
  }

  lemma {:induction false} StripsRight(s: seq<byte>) returns (b: nat)
    ensures s == StripRight(s) + Repeat<byte>(0x2F, b)
  {
    if s != [] && s[|s| - 1] == 0x2F {
      b := StripsRight(s[..|s| - 1]);
      assert Repeat<byte>(0x2F, b + 1) == Repeat<byte>(0x2F, b) + [0x2F];
      b := b + 1;
    } else {
      b := 0;
    }
  }
}
