/** brcmfw.py: when the pruned trie still stands for every file that was loaded. */
module FirmwarePruning {
  import opened Bytes
  import opened FirmwareTrie

  // ---- one node pruned --------------------------------------------------------------------------

  lemma {:induction false} KeysGiveData(ls: Leaves, key: Key)
    requires AllKeys(ls, key) && key.data.Some?
    ensures AllData(ls, key.data.value)
  {
    hide KeysOf;
    if ls.Cons? { KeysGiveData(ls.rest, key); }
  }

  /** A file stays; leaves stay or go as a whole, and go only where all of them have the node's data; a file
      gained is the first leaf's, at a depth above three, and then the leaves go. */
  lemma PruneForms(n: Node, depth: nat)
    ensures var m, ls := Prune(n, depth), PruneAll(n.leaves, depth + 1);
            && (n.file.Some? ==> m.file == n.file)
            && (m.leaves == ls || m.leaves.Nil?)
            && (m.file.None? ==> m.leaves == ls)
            && (m.file.Some? && m.leaves.Nil? ==> AllData(ls, m.file.value.data))
            && (n.file.None? && m.file.Some? ==> depth > 3 && m.leaves.Nil? && ls.Cons? && m.file == ls.node.file)
  {
    hide KeysOf, AllKeys, AllData, PruneAll;
    var ls := PruneAll(n.leaves, depth + 1);
    var lifted := Lift(Node(n.file, ls), depth);
    if n.file.None? && lifted.file.Some? {
      KeysGiveData(ls, KeyOf(ls.node));
    }
    if ls.Nil? && lifted.file.Some? { NilHasData(lifted.file.value.data); }
  }

  lemma NilHasData(data: seq<byte>)
    ensures AllData(Nil, data)
  {
  }

  lemma {:induction false} FindData(ls: Leaves, data: seq<byte>, name: string)
    requires AllData(ls, data) && Find(ls, name).Some?
    ensures Find(ls, name).value.file.Some? && Find(ls, name).value.file.value.data == data
  {
    if ls.name != name { FindData(ls.rest, data, name); }
  }

  /** A leaf of a pruned node that still has leaves is the pruned leaf. */
  lemma PrunedChild(n: Node, depth: nat, name: string)
    ensures Find(PruneAll(n.leaves, depth + 1), name)
            == match Find(n.leaves, name) case None => None case Some(c) => Some(Prune(c, depth + 1))
    ensures var m := Prune(n, depth);
            Find(m.leaves, name).Some? ==> m.leaves == PruneAll(n.leaves, depth + 1)
  {
    hide Prune, PruneAll;
    PruneForms(n, depth);
    PruneAllFinds(n.leaves, depth + 1, name);
  }

  /** A file is emitted where none was loaded only at identifiers of more than three names. */
  lemma {:induction false} EmittedIsDeep(n: Node, depth: nat, r: Ident)
    requires FileAt(Prune(n, depth), r).Some? && FileAt(n, r).None?
    ensures depth + |r| > 3
    decreases |r|
  {
    hide Prune, PruneAll, AllData;
    PruneForms(n, depth);
    if r != [] {
      PrunedChild(n, depth, r[0]);
      EmittedIsDeep(Find(n.leaves, r[0]).value, depth + 1, r[1..]);
    }
  }

  /** Every loaded identifier keeps an emitted one among its prefixes, whatever was loaded. */
  lemma {:induction false} SomePrefixEmitted(n: Node, depth: nat, id: Ident) returns (k: nat)
    requires FileAt(n, id).Some?
    ensures k <= |id| && FileAt(Prune(n, depth), id[..k]).Some?
    decreases |id|
  {
    hide Prune, PruneAll, AllData;
    PruneForms(n, depth);
    if Prune(n, depth).file.Some? {
      k := 0;
    } else {
      PrunedChild(n, depth, id[0]);
      var k' := SomePrefixEmitted(Find(n.leaves, id[0]).value, depth + 1, id[1..]);
      k := k' + 1;
      assert id[..k][0] == id[0] && id[..k][1..] == id[1..][..k'];
    }
  }

  /** Below every emitted identifier there is a loaded one with the file that is emitted. */
  lemma {:induction false} EmittedHasOrigin(n: Node, depth: nat, p: Ident) returns (q: Ident)
    requires FileAt(Prune(n, depth), p).Some?
    ensures FileAt(n, p + q) == FileAt(Prune(n, depth), p)
    decreases n
  {
    hide Prune, AllData;
    PruneForms(n, depth);
    if p != [] {
      PrunedChild(n, depth, p[0]);
      FindSmaller(n.leaves, p[0]);
      q := EmittedHasOrigin(Find(n.leaves, p[0]).value, depth + 1, p[1..]);
      assert (p + q)[0] == p[0] && (p + q)[1..] == p[1..] + q;
    } else if n.file.Some? {
      q := [];
      assert p + q == [];
    } else {
      var r := EmittedHasOrigin(n.leaves.node, depth + 1, []);
      q := [n.leaves.name] + r;
      assert [] + r == r && p + q == q && q[1..] == r;
    }
  }

  // ---- exactly one emitted prefix ---------------------------------------------------------------

  /** Exactly one prefix of the identifier, of length k, is emitted, with this data. */
  ghost predicate CoveredBy(m: Node, id: Ident, data: seq<byte>, k: nat) {
    && k <= |id| && FileAt(m, id[..k]).Some? && FileAt(m, id[..k]).value.data == data
    && forall j :: 0 <= j <= |id| && j != k ==> FileAt(m, id[..j]).None?
  }

  ghost predicate Kept(m: Node, id: Ident, data: seq<byte>) {
    exists k :: 0 <= k <= |id| && CoveredBy(m, id, data, k)
  }

  lemma PrefixBelow(m: Node, c: Node, id: Ident, j: nat)
    requires 1 <= j <= |id| && Find(m.leaves, id[0]) == Some(c)
    ensures FileAt(m, id[..j]) == FileAt(c, id[1..][..j - 1])
  {
    assert id[..j][0] == id[0] && id[..j][1..] == id[1..][..j - 1];
  }

  /** With no file of its own a node keeps what its leaf keeps, and the other way round. */
  lemma KeptBelow(m: Node, c: Node, id: Ident, data: seq<byte>)
    requires id != [] && m.file.None? && Find(m.leaves, id[0]) == Some(c)
    ensures Kept(m, id, data) <==> Kept(c, id[1..], data)
  {
    var tail := id[1..];
    forall j | 1 <= j <= |id| ensures FileAt(m, id[..j]) == FileAt(c, tail[..j - 1]) { PrefixBelow(m, c, id, j); }
    hide FileAt;
    assert FileAt(m, id[..0]).None? by { TopFile(m); }
    if Kept(c, tail, data) {
      var k :| 0 <= k <= |tail| && CoveredBy(c, tail, data, k);
      CoverUp(m, c, id, data, k);
    }
    if Kept(m, id, data) {
      var k :| 0 <= k <= |id| && CoveredBy(m, id, data, k);
      CoverDown(m, c, id, data, k);
    }
  }

  lemma TopFile(m: Node)
    ensures FileAt(m, []) == m.file
  {
  }

  lemma CoverUp(m: Node, c: Node, id: Ident, data: seq<byte>, k: nat)
    requires id != [] && FileAt(m, id[..0]).None? && CoveredBy(c, id[1..], data, k)
    requires forall j :: 1 <= j <= |id| ==> FileAt(m, id[..j]) == FileAt(c, id[1..][..j - 1])
    ensures CoveredBy(m, id, data, k + 1)
  {
    hide FileAt;
    forall j | 0 <= j <= |id| && j != k + 1 ensures FileAt(m, id[..j]).None? {
      if j > 0 { assert FileAt(c, id[1..][..j - 1]).None?; }
    }
  }

  lemma CoverDown(m: Node, c: Node, id: Ident, data: seq<byte>, k: nat)
    requires id != [] && FileAt(m, id[..0]).None? && CoveredBy(m, id, data, k)
    requires forall j :: 1 <= j <= |id| ==> FileAt(m, id[..j]) == FileAt(c, id[1..][..j - 1])
    ensures k > 0 && CoveredBy(c, id[1..], data, k - 1)
  {
    hide FileAt;
    forall j | 0 <= j <= |id[1..]| && j != k - 1 ensures FileAt(c, id[1..][..j]).None? {
      assert FileAt(m, id[..j + 1]).None?;
    }
  }

  /** The emitted file at the top is the only one on the way to a kept identifier. */
  lemma KeptAtTop(m: Node, id: Ident, data: seq<byte>)
    requires m.file.Some? && Kept(m, id, data)
    ensures m.file.value.data == data && CoveredBy(m, id, data, 0)
  {
    var k :| 0 <= k <= |id| && CoveredBy(m, id, data, k);
    assert id[..0] == [];
  }

  lemma PlainKeeps(m: Node, id: Ident)
    requires m.file.Some? && m.leaves.Nil?
    ensures Kept(m, id, m.file.value.data)
  {
    assert id[..0] == [];
    forall j | 0 < j <= |id| ensures FileAt(m, id[..j]).None? { NoLeaves(m, id[..j]); }
    assert CoveredBy(m, id, m.file.value.data, 0);
  }

  // ---- leaves that are all alike ----------------------------------------------------------------

  /** All files of the node have this data. */
  predicate Uniform(n: Node, data: seq<byte>) {
    (n.file.Some? ==> n.file.value.data == data) && UniformLeaves(n.leaves, data)
  }

  predicate UniformLeaves(ls: Leaves, data: seq<byte>) {
    match ls case Nil => true case Cons(_, n, rest) => Uniform(n, data) && UniformLeaves(rest, data)
  }

  ghost predicate AllFilesHave(n: Node, data: seq<byte>) {
    forall q :: FileAt(n, q).Some? ==> FileAt(n, q).value.data == data
  }

  lemma FilesOfChild(n: Node, name: string, c: Node, data: seq<byte>)
    requires AllFilesHave(n, data) && Find(n.leaves, name) == Some(c)
    ensures AllFilesHave(c, data)
  {
    forall q | FileAt(c, q).Some? ensures FileAt(c, q).value.data == data {
      var down := [name] + q;
      assert down[1..] == q && FileAt(n, down) == FileAt(c, q);
    }
  }

  lemma {:induction false} UniformFromFiles(n: Node, data: seq<byte>)
    requires Proper(n) && AllFilesHave(n, data)
    ensures Uniform(n, data)
    decreases n, 1
  {
    assert FileAt(n, []) == n.file;
    UniformLeavesFromFiles(n, n.leaves, data);
  }

  lemma {:induction false} UniformLeavesFromFiles(n: Node, ls: Leaves, data: seq<byte>)
    requires AllFilesHave(n, data) && ProperLeaves(ls) && (ls == n.leaves || ls < n.leaves)
    requires forall k :: Find(ls, k).Some? ==> Find(n.leaves, k) == Find(ls, k)
    ensures UniformLeaves(ls, data)
    decreases n, 0, ls
  {
    hide AllFilesHave;
    if ls.Cons? {
      assert Find(ls, ls.name) == Some(ls.node);
      FilesOfChild(n, ls.name, ls.node, data);
      UniformFromFiles(ls.node, data);
      forall k | Find(ls.rest, k).Some? ensures Find(n.leaves, k) == Find(ls.rest, k) {
        assert k != ls.name && Find(ls, k) == Find(ls.rest, k);
      }
      UniformLeavesFromFiles(n, ls.rest, data);
    }
  }

  /** Plain files with this data. */
  predicate AllPlain(ls: Leaves, data: seq<byte>) {
    match ls
    case Nil => true
    case Cons(_, n, rest) => n.leaves.Nil? && n.file.Some? && n.file.value.data == data && AllPlain(rest, data)
  }

  lemma {:induction false} PlainAlike(ls: Leaves, data: seq<byte>)
    requires AllPlain(ls, data)
    ensures AllData(ls, data) && AllKeys(ls, Key(Some(data), map[]))
  {
    if ls.Cons? { PlainAlike(ls.rest, data); }
  }

  lemma {:induction false} UniformBecomesPlain(n: Node, depth: nat, data: seq<byte>)
    requires Uniform(n, data) && Live(n) && depth > 3
    ensures var m := Prune(n, depth); m.leaves.Nil? && m.file.Some? && m.file.value.data == data
    decreases n, 1
  {
    UniformLeavesBecomePlain(n.leaves, depth + 1, data);
    var ls := PruneAll(n.leaves, depth + 1);
    PlainAlike(ls, data);
    hide AllKeys, AllData, PruneAll;
    if n.file.None? {
      FirstPlain(ls, data);
      assert ls.Cons? by { PrunedConsLike(n.leaves, depth + 1); }
    }
  }

  lemma PrunedConsLike(ls: Leaves, depth: nat)
    ensures PruneAll(ls, depth).Cons? <==> ls.Cons?
  {
  }

  lemma FirstPlain(ls: Leaves, data: seq<byte>)
    requires AllPlain(ls, data)
    ensures ls.Cons? ==>
              ls.node.file.Some? && ls.node.file.value.data == data && KeyOf(ls.node) == Key(Some(data), map[])
  {
  }

  lemma {:induction false} UniformLeavesBecomePlain(ls: Leaves, depth: nat, data: seq<byte>)
    requires UniformLeaves(ls, data) && LiveLeaves(ls) && depth > 3
    ensures AllPlain(PruneAll(ls, depth), data)
    decreases ls, 0
  {
    hide Prune;
    if ls.Cons? {
      UniformBecomesPlain(ls.node, depth, data);
      UniformLeavesBecomePlain(ls.rest, depth, data);
    }
  }

  lemma {:induction false} PruneAllKeepsData(ls: Leaves, depth: nat, data: seq<byte>)
    requires AllData(ls, data)
    ensures AllData(PruneAll(ls, depth), data)
  {
    hide Prune;
    if ls.Cons? {
      PruneForms(ls.node, depth);
      PruneAllKeepsData(ls.rest, depth, data);
    }
  }

  lemma {:induction false} DataFromFind(ls: Leaves, data: seq<byte>)
    requires ProperLeaves(ls)
    requires forall k :: Find(ls, k).Some? ==> Find(ls, k).value.file.Some? && Find(ls, k).value.file.value.data == data
    ensures AllData(ls, data)
  {
    if ls.Cons? {
      assert Find(ls, ls.name) == Some(ls.node);
      forall k | Find(ls.rest, k).Some?
        ensures Find(ls.rest, k).value.file.Some? && Find(ls.rest, k).value.file.value.data == data
      {
        assert k != ls.name && Find(ls, k) == Find(ls.rest, k);
      }
      DataFromFind(ls.rest, data);
    }
  }

  // ---- when every identifier is kept ------------------------------------------------------------

  /** The identifier q, below the outermost loaded p, has p's data, and either p has three names or more or
      the identifier one name longer than p on the way to q is loaded too. */
  ghost predicate Nests(n: Node, depth: nat, p: Ident, q: Ident)
    requires FileAt(n, p).Some? && FileAt(n, q).Some? && p < q
  {
    FileAt(n, q).value.data == FileAt(n, p).value.data && (depth + |p| >= 3 || FileAt(n, q[..|p| + 1]).Some?)
  }

  /** No proper prefix is loaded. */
  ghost predicate Outermost(n: Node, p: Ident) {
    forall j :: 0 <= j < |p| ==> FileAt(n, p[..j]).None?
  }

  ghost predicate Tidy(n: Node, depth: nat) {
    forall p, q :: FileAt(n, p).Some? && FileAt(n, q).Some? && p < q && Outermost(n, p) ==> Nests(n, depth, p, q)
  }

  lemma OutermostBelow(n: Node, name: string, c: Node, p: Ident)
    requires n.file.None? && Find(n.leaves, name) == Some(c)
    ensures Outermost(n, [name] + p) <==> Outermost(c, p)
  {
    var down := [name] + p;
    assert down[1..] == p;
    forall j | 1 <= j <= |down| ensures FileAt(n, down[..j]) == FileAt(c, p[..j - 1]) { PrefixBelow(n, c, down, j); }
    assert FileAt(n, down[..0]).None?;
    if Outermost(n, down) {
      forall j | 0 <= j < |p| ensures FileAt(c, p[..j]).None? { assert FileAt(n, down[..j + 1]).None?; }
    }
  }

  lemma TidyChild(n: Node, depth: nat, name: string, c: Node)
    requires Tidy(n, depth) && n.file.None? && Find(n.leaves, name) == Some(c)
    ensures Tidy(c, depth + 1)
  {
    forall p, q | FileAt(c, p).Some? && FileAt(c, q).Some? && p < q && Outermost(c, p)
      ensures Nests(c, depth + 1, p, q)
    {
      var p', q' := [name] + p, [name] + q;
      assert p'[1..] == p && q'[1..] == q && p' < q';
      OutermostBelow(n, name, c, p);
      PrefixBelow(n, c, q', |p'| + 1);
      assert q'[1..][..|p'|] == q[..|p| + 1];
      assert Nests(n, depth, p', q');
    }
  }

  /** Below a file a tidy node is all leaves that go. */
  lemma CollapsesWhole(n: Node, depth: nat)
    requires Proper(n) && LiveLeaves(n.leaves) && n.file.Some? && Tidy(n, depth)
    ensures AllFilesHave(n, n.file.value.data) && Prune(n, depth) == Node(n.file, Nil)
  {
    var data := n.file.value.data;
    TidyTop(n, depth);
    var ls := PruneAll(n.leaves, depth + 1);
    if depth >= 3 {
      UniformFromFiles(n, data);
      UniformLeavesBecomePlain(n.leaves, depth + 1, data);
      PlainAlike(ls, data);
    } else {
      hide Prune;
      DataFromFind(n.leaves, data);
      PruneAllKeepsData(n.leaves, depth + 1, data);
    }
    CollapsesOnData(n, depth);
  }

  lemma CollapsesOnData(n: Node, depth: nat)
    requires n.file.Some? && AllData(PruneAll(n.leaves, depth + 1), n.file.value.data)
    ensures Prune(n, depth) == Node(n.file, Nil)
  {
    hide AllData, PruneAll;
  }

  lemma TidyTop(n: Node, depth: nat)
    requires n.file.Some? && Tidy(n, depth) && LiveLeaves(n.leaves)
    ensures AllFilesHave(n, n.file.value.data)
    ensures depth < 3 ==> forall a :: Find(n.leaves, a).Some? ==>
              Find(n.leaves, a).value.file.Some? && Find(n.leaves, a).value.file.value.data == n.file.value.data
  {
    var none: Ident := [];
    assert FileAt(n, none) == n.file && Outermost(n, none);
    forall q | FileAt(n, q).Some? ensures FileAt(n, q).value.data == n.file.value.data {
      if q != [] { assert none < q && Nests(n, depth, none, q); }
    }
    if depth < 3 {
      forall a | Find(n.leaves, a).Some?
        ensures Find(n.leaves, a).value.file.Some? && Find(n.leaves, a).value.file.value.data == n.file.value.data
      {
        var c := Find(n.leaves, a).value;
        FindLive(n.leaves, a);
        var r := LiveHasFile(c);
        var q := [a] + r;
        assert q[1..] == r && FileAt(n, q).Some? && none < q && Nests(n, depth, none, q);
        assert q[..1] == [a] && [a][1..] == [];
        assert FileAt(n, [a]) == c.file;
      }
    }
  }

  lemma {:induction false} FindLive(ls: Leaves, name: string)
    requires LiveLeaves(ls) && Find(ls, name).Some?
    ensures Live(Find(ls, name).value)
  {
    if ls.name != name { FindLive(ls.rest, name); }
  }

  lemma {:induction false} FindProper(ls: Leaves, name: string)
    requires ProperLeaves(ls) && Find(ls, name).Some?
    ensures Proper(Find(ls, name).value)
  {
    if ls.name != name { FindProper(ls.rest, name); }
  }

  /** In a tidy trie every loaded identifier is kept. */
  lemma {:induction false} TidyKeeps(n: Node, depth: nat, id: Ident)
    requires Proper(n) && LiveLeaves(n.leaves) && Tidy(n, depth) && FileAt(n, id).Some?
    ensures Kept(Prune(n, depth), id, FileAt(n, id).value.data)
    decreases |id|
  {
    hide Prune, PruneAll, Kept, Tidy, Proper, LiveLeaves, AllData;
    var data := FileAt(n, id).value.data;
    if n.file.Some? {
      CollapsesWhole(n, depth);
      PlainKeeps(Node(n.file, Nil), id);
    } else {
      var m, c := Prune(n, depth), Find(n.leaves, id[0]).value;
      TidyChild(n, depth, id[0], c);
      FindParts(n, id[0]);
      TidyKeeps(c, depth + 1, id[1..]);
      PruneForms(n, depth);
      PrunedChild(n, depth, id[0]);
      if m.file.None? {
        KeptBelow(m, Prune(c, depth + 1), id, data);
      } else {
        FindData(PruneAll(n.leaves, depth + 1), m.file.value.data, id[0]);
        KeptAtTop(Prune(c, depth + 1), id[1..], data);
        PlainKeeps(m, id);
      }
    }
  }

  lemma FindParts(n: Node, name: string)
    requires Proper(n) && LiveLeaves(n.leaves) && Find(n.leaves, name).Some?
    ensures Proper(Find(n.leaves, name).value) && LiveLeaves(Find(n.leaves, name).value.leaves)
  {
    FindProper(n.leaves, name);
    FindLive(n.leaves, name);
  }

  /** And only there: two nested identifiers that are both kept nest tidily. */
  lemma {:induction false} KeptNests(n: Node, depth: nat, p: Ident, q: Ident)
    requires FileAt(n, p).Some? && FileAt(n, q).Some? && p < q && Outermost(n, p)
    requires Kept(Prune(n, depth), p, FileAt(n, p).value.data) && Kept(Prune(n, depth), q, FileAt(n, q).value.data)
    ensures Nests(n, depth, p, q)
    decreases |p|
  {
    hide Prune, PruneAll, Kept, AllData;
    var m := Prune(n, depth);
    PruneForms(n, depth);
    PrunedChild(n, depth, q[0]);
    var c := Find(n.leaves, q[0]).value;
    if m.file.Some? {
      KeptAtTop(m, p, FileAt(n, p).value.data);
      KeptAtTop(m, q, FileAt(n, q).value.data);
      if n.file.Some? {
        TopOnly(n, p);
        TopNests(n, depth, q, c);
      }
    } else {
      assert p[0] == q[0] && q[1..][..|p|] == q[1..|p| + 1];
      KeptBelow(m, Prune(c, depth + 1), p, FileAt(n, p).value.data);
      KeptBelow(m, Prune(c, depth + 1), q, FileAt(n, q).value.data);
      assert [p[0]] + p[1..] == p;
      OutermostBelow(n, p[0], c, p[1..]);
      KeptNests(c, depth + 1, p[1..], q[1..]);
      PrefixBelow(n, c, q, |p| + 1);
      assert |p[1..]| + 1 == |p|;
    }
  }

  lemma TopOnly(n: Node, p: Ident)
    requires n.file.Some? && Outermost(n, p)
    ensures p == []
  {
    assert FileAt(n, p[..0]) == n.file;
  }

  /** A kept identifier below a file at depth below three goes through a loaded leaf. */
  lemma TopNests(n: Node, depth: nat, q: Ident, c: Node)
    requires n.file.Some? && q != [] && FileAt(n, q).Some? && Find(n.leaves, q[0]) == Some(c)
    requires CoveredBy(Prune(n, depth), q, FileAt(n, q).value.data, 0)
    ensures depth >= 3 || FileAt(n, q[..1]).Some?
  {
    hide Prune, PruneAll, AllData;
    var m := Prune(n, depth);
    PruneForms(n, depth);
    PrunedChild(n, depth, q[0]);
    if m.leaves.Cons? {
      var k := SomePrefixEmitted(c, depth + 1, q[1..]);
      PrefixBelow(m, Prune(c, depth + 1), q, k + 1);
    }
    FindData(PruneAll(n.leaves, depth + 1), m.file.value.data, q[0]);
    assert q[..1][1..] == [];
    if c.file.None? { EmittedIsDeep(c, depth + 1, []); }
  }

  // ---- over the list of files -------------------------------------------------------------------

  type Files = seq<(Ident, File)>

  /** The file last given under an identifier. */
  function Given(files: Files, id: Ident): Option<File> {
    if files == [] then None
    else
      var last := files[|files| - 1];
      if last.0 == id then Some(last.1) else Given(files[..|files| - 1], id)
  }

  lemma {:induction false} LoadHoldsGiven(files: Files, id: Ident)
    ensures FileAt(Load(files), id) == Given(files, id)
    decreases |files|
  {
    hide Insert;
    if files == [] {
      NothingBelow(id);
    } else {
      var before, last := files[..|files| - 1], files[|files| - 1];
      LoadHoldsGiven(before, id);
      InsertFinds(Load(before), last.0, last.1, id);
    }
  }

  /** No proper prefix of the identifier is given. */
  predicate Alone(files: Files, p: Ident) {
    forall j :: 0 <= j < |p| ==> Given(files, p[..j]).None?
  }

  /** Of these two given identifiers the second may stand below the first: it has its data, and the first has
      three names or more, or the identifier one name longer on the way is given too. */
  predicate MayNest(files: Files, p: Ident, q: Ident)
    requires Given(files, p).Some? && Given(files, q).Some? && p < q
  {
    && Given(files, q).value.data == Given(files, p).value.data
    && (|p| >= 3 || Given(files, q[..|p| + 1]).Some?)
  }

  /** Whatever is given below an outermost identifier may stand there. */
  ghost predicate NestTidily(files: Files) {
    forall p, q :: Given(files, p).Some? && Given(files, q).Some? && p < q && Alone(files, p) ==> MayNest(files, p, q)
  }

  lemma LoadTidy(files: Files)
    ensures Tidy(Load(files), 0) <==> NestTidily(files)
  {
    hide Load;
    var n := Load(files);
    forall p ensures FileAt(n, p) == Given(files, p) { LoadHoldsGiven(files, p); }
    hide FileAt, Given;
    assert forall p :: Outermost(n, p) <==> Alone(files, p);
    if Tidy(n, 0) {
      forall p, q | Given(files, p).Some? && Given(files, q).Some? && p < q && Alone(files, p)
        ensures MayNest(files, p, q)
      {
        assert Nests(n, 0, p, q);
      }
    }
    if NestTidily(files) {
      forall p, q | FileAt(n, p).Some? && FileAt(n, q).Some? && p < q && Outermost(n, p)
        ensures Nests(n, 0, p, q)
      {
        assert MayNest(files, p, q);
      }
    }
  }

  /** The identifier has exactly one emitted prefix, and that one has the data last given under it. */
  ghost predicate StaysKnown(files: Files, id: Ident)
    requires Given(files, id).Some?
  {
    Kept(Prune(Load(files), 0), id, Given(files, id).value.data)
  }

  lemma TidyStaysKnown(files: Files, id: Ident)
    requires NestTidily(files) && Given(files, id).Some?
    ensures StaysKnown(files, id)
  {
    hide Load, Prune, Kept, Tidy, NestTidily;
    LoadShape(files);
    LoadTidy(files);
    LoadHoldsGiven(files, id);
    TidyKeeps(Load(files), 0, id);
  }

  lemma KnownMayNest(files: Files, p: Ident, q: Ident)
    requires Given(files, p).Some? && Given(files, q).Some? && p < q && Alone(files, p)
    requires StaysKnown(files, p) && StaysKnown(files, q)
    ensures MayNest(files, p, q)
  {
    hide Load, Prune, Kept;
    forall r ensures FileAt(Load(files), r) == Given(files, r) { LoadHoldsGiven(files, r); }
    hide FileAt, Given;
    KeptNests(Load(files), 0, p, q);
  }

  /** Load, then prune: every given identifier stays known if and only if the given ones nest tidily. */
  lemma PruningKeepsIff(files: Files)
    ensures (forall id :: Given(files, id).Some? ==> StaysKnown(files, id)) <==> NestTidily(files)
  {
    hide StaysKnown, Given, Alone;
    if NestTidily(files) {
      forall id | Given(files, id).Some? ensures StaysKnown(files, id) { TidyStaysKnown(files, id); }
    }
    if forall id :: Given(files, id).Some? ==> StaysKnown(files, id) {
      forall p, q | Given(files, p).Some? && Given(files, q).Some? && p < q && Alone(files, p)
        ensures MayNest(files, p, q)
      {
        KnownMayNest(files, p, q);
      }
    }
  }

  /** When no identifier is a proper prefix of another they nest tidily, and files are at nodes without leaves
      before and after. */
  lemma PrefixFreeNests(files: Files)
    requires PrefixFree(Load(files))
    ensures NestTidily(files) && Terminal(Load(files)) && Terminal(Prune(Load(files), 0))
  {
    hide Load, Prune;
    LoadShape(files);
    PrefixFreeTerminal(Load(files));
    PruneTerminal(Load(files), 0);
    forall p ensures FileAt(Load(files), p) == Given(files, p) { LoadHoldsGiven(files, p); }
  }

  /** What is emitted for a given identifier of a tidy list: itself, or a prefix of more than three names, or a
      given prefix. */
  lemma PruningKeepsEveryFile(files: Files, id: Ident) returns (k: nat)
    requires NestTidily(files) && Given(files, id).Some?
    ensures CoveredBy(Prune(Load(files), 0), id, Given(files, id).value.data, k)
    ensures k > 3 || Given(files, id[..k]).Some?
  {
    hide Load, Prune, NestTidily, Given, CoveredBy;
    TidyStaysKnown(files, id);
    k :| 0 <= k <= |id| && CoveredBy(Prune(Load(files), 0), id, Given(files, id).value.data, k);
    CoveredIsEmitted(Prune(Load(files), 0), id, Given(files, id).value.data, k);
    LoadHoldsGiven(files, id[..k]);
    if Given(files, id[..k]).None? { EmittedIsDeep(Load(files), 0, id[..k]); }
  }

  lemma CoveredIsEmitted(m: Node, id: Ident, data: seq<byte>, k: nat)
    requires k <= |id| && CoveredBy(m, id, data, k)
    ensures FileAt(m, id[..k]).Some?
  {
  }

  /** Nothing is emitted, whatever was given, that does not come from a file given at or below it. */
  lemma PruningAddsNothing(files: Files, p: Ident) returns (q: Ident)
    requires FileAt(Prune(Load(files), 0), p).Some?
    ensures Given(files, p + q) == FileAt(Prune(Load(files), 0), p)
  {
    hide Load, Prune;
    q := EmittedHasOrigin(Load(files), 0, p);
    LoadHoldsGiven(files, p + q);
  }

  /** And of a tidy list, what is emitted stands for all files given at or below it. */
  lemma EmittedSpeaksForAll(files: Files, p: Ident, q: Ident)
    requires NestTidily(files) && FileAt(Prune(Load(files), 0), p).Some? && Given(files, p + q).Some?
    ensures Given(files, p + q).value.data == FileAt(Prune(Load(files), 0), p).value.data
  {
    hide Load, Prune, NestTidily, FileAt, Given;
    var id, m := p + q, Prune(Load(files), 0);
    TidyStaysKnown(files, id);
    var k :| 0 <= k <= |id| && CoveredBy(m, id, Given(files, id).value.data, k);
    assert id[..|p|] == p;
  }

  // ---- a file lost ------------------------------------------------------------------------------

  const CHIP: Ident := ["txt", "4378"]

  /** A node where the identifier CHIP leads. */
  function AtChip(n: Node): Node {
    Node(None, Cons("txt", Node(None, Cons("4378", n, Nil)), Nil))
  }

  lemma ThroughChip(n: Node, id: Ident, f: File)
    ensures Insert(AtChip(n), CHIP + id, f) == AtChip(Insert(n, id, f))
    ensures FileAt(AtChip(n), CHIP + id) == FileAt(n, id)
  {
    hide Insert;
    var below := ["4378"] + id;
    assert (CHIP + id)[0] == "txt" && (CHIP + id)[1..] == below && below[1..] == id;
    InsertOne(Node(None, Cons("4378", n, Nil)), below, f);
    InsertOne(AtChip(n), CHIP + id, f);
  }

  lemma InsertOne(n: Node, id: Ident, f: File)
    requires id != [] && n.leaves.Cons? && n.leaves.name == id[0]
    ensures Insert(n, id, f) == Node(n.file, Cons(id[0], Insert(n.leaves.node, id[1..], f), n.leaves.rest))
  {
  }

  /** A node with one leaf, pruned. */
  lemma OneLeaf(f: Option<File>, name: string, c: Node, depth: nat)
    requires f.Some? || depth <= 3
    ensures var c' := Prune(c, depth + 1);
            Prune(Node(f, Cons(name, c, Nil)), depth)
            == Node(f, if f.Some? && c'.file.Some? && c'.file.value.data == f.value.data then Nil
                       else Cons(name, c', Nil))
  {
    var c', ls := Prune(c, depth + 1), PruneAll(Cons(name, c, Nil), depth + 1);
    assert PruneAll(Nil, depth + 1) == Nil;
    assert ls == Cons(name, c', Nil);
    if f.Some? { OneHasData(name, c', f.value.data); }
  }

  lemma OneHasData(name: string, c: Node, data: seq<byte>)
    ensures AllData(Cons(name, c, Nil), data) <==> c.file.Some? && c.file.value.data == data
  {
    NilHasData(data);
  }

  lemma PruneAtChip(n: Node)
    ensures Prune(AtChip(n), 0) == AtChip(Prune(n, 2))
  {
    hide Prune;
    OneLeaf(None, "4378", n, 1);
    OneLeaf(None, "txt", Node(None, Cons("4378", n, Nil)), 0);
  }

  /** With a chip's file, the same file for its stepping B1 and another one for platform x of that, all that is
      left is the chip's file. */
  lemma NestedFilesCanBeLost(a: File, c: File)
    requires a.data != c.data
    ensures var files := [(CHIP, a), (CHIP + ["B1"], a), (CHIP + ["B1", "x"], c)];
            && FileAt(Load(files), CHIP + ["B1", "x"]) == Some(c)
            && Prune(Load(files), 0) == AtChip(Node(Some(a), Nil))
            && forall j :: 0 <= j <= 4 && j != 2 ==> FileAt(Prune(Load(files), 0), (CHIP + ["B1", "x"])[..j]).None?
  {
    var files := [(CHIP, a), (CHIP + ["B1"], a), (CHIP + ["B1", "x"], c)];
    LoadNested(a, c);
    var n := Node(Some(a), Cons("B1", Node(Some(a), Cons("x", Node(Some(c), Nil), Nil)), Nil));
    PruneAtChip(n);
    PruneNested(a, c);
    ThroughChip(n, ["B1", "x"], c);
    assert ["B1", "x"][1..] == ["x"] && ["x"][1..] == [];
    var id := CHIP + ["B1", "x"];
    forall j | 0 <= j <= 4 && j != 2 ensures FileAt(AtChip(Node(Some(a), Nil)), id[..j]).None? {
      if j > 2 {
        assert id[..j] == CHIP + ["B1", "x"][..j - 2];
        ThroughChip(Node(Some(a), Nil), ["B1", "x"][..j - 2], a);
      } else if j == 1 {
        assert id[..1][1..] == [];
      }
    }
  }

  lemma LoadNested(a: File, c: File)
    ensures Load([(CHIP, a), (CHIP + ["B1"], a), (CHIP + ["B1", "x"], c)])
            == AtChip(Node(Some(a), Cons("B1", Node(Some(a), Cons("x", Node(Some(c), Nil), Nil)), Nil)))
  {
    var files := [(CHIP, a), (CHIP + ["B1"], a), (CHIP + ["B1", "x"], c)];
    assert files[..2] == [(CHIP, a), (CHIP + ["B1"], a)] && files[..2][..1] == [(CHIP, a)];
    assert [(CHIP, a)][..0] == [];
    var plain := Node(Some(a), Nil);
    var two, three := Node(Some(a), Cons("B1", plain, Nil)), Node(Some(a), Cons("x", Node(Some(c), Nil), Nil));
    LoadChip(a);
    ThroughChip(plain, ["B1"], a);
    InsertUnder(a, "B1", a);
    ThroughChip(two, ["B1", "x"], c);
    assert ["B1", "x"][1..] == ["x"];
    InsertOne(two, ["B1", "x"], c);
    InsertUnder(a, "x", c);
    hide Insert;
    assert Load(files[..2]) == AtChip(two);
    assert Load(files) == Insert(AtChip(two), CHIP + ["B1", "x"], c);
  }

  lemma InsertUnder(a: File, name: string, f: File)
    ensures Insert(Node(Some(a), Nil), [name], f) == Node(Some(a), Cons(name, Node(Some(f), Nil), Nil))
  {
    assert [name][1..] == [];
    assert Insert(Node(None, Nil), [], f) == Node(Some(f), Nil);
    assert InsertBelow(Nil, [name], f) == Cons(name, Node(Some(f), Nil), Nil);
  }

  lemma LoadChip(a: File)
    ensures Load([(CHIP, a)]) == AtChip(Node(Some(a), Nil))
  {
    assert [(CHIP, a)][..0] == [];
    assert CHIP[1..] == ["4378"] && ["4378"][1..] == [] && CHIP[0] == "txt";
    var empty := Node(None, Nil);
    assert Insert(empty, [], a) == Node(Some(a), Nil);
    assert Insert(empty, ["4378"], a) == Node(None, Cons("4378", Node(Some(a), Nil), Nil));
  }

  lemma PruneNested(a: File, c: File)
    requires a.data != c.data
    ensures Prune(Node(Some(a), Cons("B1", Node(Some(a), Cons("x", Node(Some(c), Nil), Nil)), Nil)), 2)
            == Node(Some(a), Nil)
  {
    var leaf := Node(Some(c), Nil);
    assert Prune(leaf, 4) == leaf;
    hide Prune;
    OneLeaf(Some(a), "x", leaf, 3);
    OneLeaf(Some(a), "B1", Node(Some(a), Cons("x", leaf, Nil)), 2);
  }
}
