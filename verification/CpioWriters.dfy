/** assemble.py: the newc archive of a directory tree, and what release-check.py's reader makes of it. */
module CpioWriters {
  import opened Bytes
  import opened CpioFormat
  import opened CpioRoundTrip

  lemma RecordAligned(e: Entry)
    ensures |Record(e)| % 4 == 0
  {
    hide NamePart, Padding, Align4;
    PaddingAligns(|NamePart(e)|);
    PaddingAligns(|e.data|);
  }

  lemma PaddingLocal(a: nat, n: nat)
    requires a % 4 == 0
    ensures Padding(a + n, 4) == Padding(n, 4)
  {
    assert (a + n) % 4 == n % 4;
  }

  // ---- assemble.py: cpio ------------------------------------------------------------------------

  /** What the directory walk meets, in its order; mode is st_mode. */
  datatype Node =
    | Dir(name: seq<byte>, mode: nat, mtime: nat)
    | Link(name: seq<byte>, target: seq<byte>, mtime: nat)
    | File(name: seq<byte>, mode: nat, mtime: nat, content: seq<byte>)

  const FIRST_INO := 300001

  function NodeEntry(n: Node, ino: nat): Entry {
    match n
    case Dir(name, mode, mtime) => Entry(name, ino, 0x4000 + mode % 0x1000, 2, mtime, [])
    case Link(name, target, mtime) => Entry(name, ino, 0xA000 + 0x1FF, 1, mtime, target)
    case File(name, mode, mtime, content) => Entry(name, ino, 0x8000 + mode % 0x1000, 1, mtime, content)
  }

  function TreeEntries(nodes: seq<Node>): (es: seq<Entry>)
    ensures |es| == |nodes|
  {
    seq(|nodes|, i requires 0 <= i < |nodes| => NodeEntry(nodes[i], FIRST_INO + i))
  }

  function TreeTrailer(count: nat): Entry {
    TrailerEntry(FIRST_INO + count, 1)
  }

  /** Records and trailer, filled up to 512. */
  function TreeArchive(nodes: seq<Node>): seq<byte> {
    var body := Records(TreeEntries(nodes)) + Record(TreeTrailer(|nodes|));
    body + Zeros(|body|, 512)
  }

  lemma Regroup<T>(a: seq<T>, b: seq<T>, c: seq<T>, d: seq<T>, e: seq<T>)
    ensures a + b + c + d + e == a + (b + c + (d + e))
  {
  }

  lemma RecordParts(e: Entry)
    ensures Record(e) == NamePart(e) + Zeros(|NamePart(e)|, 4) + (e.data + Zeros(|e.data|, 4))
  {
    hide NamePart, Zeros;
  }

  lemma ZerosLocal(a: nat, n: nat)
    requires a % 4 == 0
    ensures Zeros(a + n, 4) == Zeros(n, 4)
  {
    hide Padding;
    PaddingLocal(a, n);
  }

  lemma FilledAligned(s: seq<byte>)
    ensures |s + Zeros(|s|, 4)| % 4 == 0
  {
    hide Padding, Align4;
    PaddingAligns(|s|);
  }

  lemma RecordAppended(before: seq<byte>, e: Entry)
    requires |before| % 4 == 0
    ensures var named := before + NamePart(e);
            var filled := named + Zeros(|named|, 4) + e.data;
            filled + Zeros(|filled|, 4) == before + Record(e) && |before + Record(e)| % 4 == 0
  {
    hide NamePart, Record, Padding, Zeros;
    RecordAligned(e);
    FilledAligned(NamePart(e));
    ZerosLocal(|before|, |NamePart(e)|);
    ZerosLocal(|before + NamePart(e) + Zeros(|NamePart(e)|, 4)|, |e.data|);
    RecordParts(e);
    Regroup(before, NamePart(e), Zeros(|NamePart(e)|, 4), e.data, Zeros(|e.data|, 4));
  }

  /** The buffer and the inode counter that the nested function entry updates. */
  class TreeWriter {
    var out: seq<byte>
    var ino: nat

    ghost predicate Valid()
      reads this
    {
      |out| % 4 == 0
    }

    constructor ()
      ensures Valid() && out == [] && ino == FIRST_INO - 1
    {
      out, ino := [], FIRST_INO - 1;
    }

    /** Each padding is taken from the length of the whole buffer, yet the record is the same anywhere. */
    method Add(name: seq<byte>, mode: nat, data: seq<byte>, mtime: nat, nlink: nat)
      requires Valid()
      modifies this
      ensures Valid() && ino == old(ino) + 1
      ensures out == old(out) + Record(Entry(name, ino, mode, nlink, mtime, data))
    {
      hide FieldBytes, Zeros, Record;
      ino := ino + 1;
      ghost var e := Entry(name, ino, mode, nlink, mtime, data);
      out := out + NEWC + FieldBytes([ino, mode, 0, 0, nlink, mtime, |data|, 0, 0, 0, 0, |name| + 1, 0]);
      out := out + name + [0];
      assert out == old(out) + NamePart(e);
      hide NamePart;
      out := out + Zeros(|out|, 4);
      out := out + data;
      out := out + Zeros(|out|, 4);
      RecordAppended(old(out), e);
    }

    method AddNode(n: Node)
      requires Valid()
      modifies this
      ensures Valid() && ino == old(ino) + 1 && out == old(out) + Record(NodeEntry(n, ino))
    {
      hide Record;
      match n
      case Dir(name, mode, mtime) => Add(name, 0x4000 + mode % 0x1000, [], mtime, 2);
      case Link(name, target, mtime) => Add(name, 0xA000 + 0x1FF, target, mtime, 1);
      case File(name, mode, mtime, content) => Add(name, 0x8000 + mode % 0x1000, content, mtime, 1);
    }
  }

  method Cpio(nodes: seq<Node>) returns (r: seq<byte>)
    ensures r == TreeArchive(nodes)
  {
    hide Record, Zeros;
    var w := new TreeWriter();
    ghost var es := TreeEntries(nodes);
    for i := 0 to |nodes|
      invariant fresh(w) && w.Valid() && w.ino == FIRST_INO - 1 + i
      invariant w.out == Records(es[..i])
    {
      w.AddNode(nodes[i]);
      RecordsSnoc(es[..i], es[i]);
      assert es[..i + 1] == es[..i] + [es[i]];
    }
    assert es[..|nodes|] == es;
    w.Add(TRAILER, 0, [], 0, 1);
    r := w.out + Zeros(|w.out|, 512);
  }

  /** What the reader should say about a node. */
  function NodeMember(n: Node): Member {
    Member(n.name, if n.File? then Some(n.content) else None)
  }

  /** The header numbers of a tree fit their eight digits. */
  ghost predicate TreeFits(nodes: seq<Node>) {
    Fits32(FIRST_INO + |nodes|) && forall n :: n in nodes ==> NodeFits(n)
  }

  predicate NodeFits(n: Node) {
    Fits32(n.mtime) && Fits32(|n.name| + 1) && (n.File? ==> Fits32(|n.content|)) && (n.Link? ==> Fits32(|n.target|))
  }

  lemma NodeEntryReads(n: Node, ino: nat)
    requires NodeFits(n) && Fits32(ino)
    ensures EntryFits(NodeEntry(n, ino)) && MemberOf(NodeEntry(n, ino)) == NodeMember(n)
  {
  }

  lemma TreeEntriesRead(nodes: seq<Node>)
    requires TreeFits(nodes)
    ensures var es := TreeEntries(nodes);
            && AllFit(es) && (forall i :: 0 <= i < |es| ==> MemberOf(es[i]) == NodeMember(nodes[i]))
            && ((forall e :: e in es ==> e.name != TRAILER) <==> (forall n :: n in nodes ==> n.name != TRAILER))
  {
    var es := TreeEntries(nodes);
    hide EntryFits, MemberOf, NodeFits;
    forall i | 0 <= i < |es| ensures EntryFits(es[i]) && MemberOf(es[i]) == NodeMember(nodes[i]) {
      assert nodes[i] in nodes;
      NodeEntryReads(nodes[i], FIRST_INO + i);
    }
    forall n | n in nodes ensures exists e :: e in es && e.name == n.name {
      var i :| 0 <= i < |nodes| && nodes[i] == n;
      assert es[i] in es;
    }
  }

  lemma TreeListed(nodes: seq<Node>)
    requires TreeFits(nodes) && AllFit(TreeEntries(nodes))
    ensures Contents(TreeArchive(nodes)) == Listing(Listed(TreeEntries(nodes)), Complete)
  {
    var es, last := TreeEntries(nodes), TreeTrailer(|nodes|);
    var body := Records(es) + Record(last);
    var fill: seq<byte> := Zeros(|body|, 512);
    assert TreeArchive(nodes) == body + fill == Records(es) + (Record(last) + fill);
    assert EntryFits(last);
    hide Record, Records, TreeEntries, Zeros, AllFit, EntryFits, MembersFrom;
    RecordsRead(TreeArchive(nodes), 0, {}, es, last, fill);
  }

  /** cpio_members gives back every node up to the first trailer name, contents and all; with no such
      name that is the whole tree. */
  lemma TreeReadsBack(nodes: seq<Node>)
    requires TreeFits(nodes)
    ensures var got := Contents(TreeArchive(nodes));
            && got.ending.Complete? && |got.members| <= |nodes|
            && (forall i :: 0 <= i < |got.members| ==> got.members[i] == NodeMember(nodes[i]))
            && (|got.members| == |nodes| <==> forall n :: n in nodes ==> n.name != TRAILER)
  {
    hide *;
    TreeEntriesRead(nodes);
    TreeListed(nodes);
    ListedIsAllIff(TreeEntries(nodes));
  }

  /** The length the loader's word-by-word copy depends on. */
  lemma TreeArchiveBlocks(nodes: seq<Node>)
    ensures |TreeArchive(nodes)| % 512 == 0 && |TreeArchive(nodes)| > 0
  {
    hide Record, Records, TreeEntries;
    var body := Records(TreeEntries(nodes)) + Record(TreeTrailer(|nodes|));
    RecordHasSize(TreeTrailer(|nodes|));
    FilledTo512(body);
  }

  lemma FilledTo512(s: seq<byte>)
    ensures |s + Zeros(|s|, 512)| % 512 == 0
  {
    var n := |s|;
    assert n % 512 < 512 && n == n / 512 * 512 + n % 512;
  }
}
