/** brcmfw.py: firmware files in a trie by their dimensions, and the pruning that merges equal ones. */
module FirmwareTrie {
  import opened Bytes

  datatype File = File(path: string, data: seq<byte>)

  type Ident = seq<string>

  /** A node and its leaves in insertion order. */
  datatype Node = Node(file: Option<File>, leaves: Leaves)
  datatype Leaves = Nil | Cons(name: string, node: Node, rest: Leaves)

  // ---- the trie ---------------------------------------------------------------------------------

  function Find(ls: Leaves, name: string): Option<Node> {
    match ls
    case Nil => None
    case Cons(k, n, rest) => if k == name then Some(n) else Find(rest, name)
  }

  /** The file loaded or emitted under an identifier. */
  function FileAt(n: Node, id: Ident): Option<File>
    decreases |id|
  {
    if id == [] then n.file
    else match Find(n.leaves, id[0]) case None => None case Some(c) => FileAt(c, id[1..])
  }

  /** Names of leaves are distinct everywhere, as keys of a dictionary. */
  predicate Proper(n: Node) {
    ProperLeaves(n.leaves)
  }

  predicate ProperLeaves(ls: Leaves) {
    match ls case Nil => true case Cons(k, n, rest) => Find(rest, k).None? && Proper(n) && ProperLeaves(rest)
  }

  /** Data only at nodes without leaves. */
  predicate Terminal(n: Node) {
    (n.file.Some? ==> n.leaves.Nil?) && TerminalLeaves(n.leaves)
  }

  predicate TerminalLeaves(ls: Leaves) {
    match ls case Nil => true case Cons(_, n, rest) => Terminal(n) && TerminalLeaves(rest)
  }

  // ---- loading ----------------------------------------------------------------------------------

  /** setdefault along the identifier, then the file at its end. */
  function Insert(n: Node, id: Ident, f: File): Node
    decreases |id|, 1, 0
  {
    if id == [] then Node(Some(f), n.leaves) else Node(n.file, InsertBelow(n.leaves, id, f))
  }

  function InsertBelow(ls: Leaves, id: Ident, f: File): Leaves
    requires id != []
    decreases |id|, 0, ls
  {
    match ls
    case Nil => Cons(id[0], Insert(Node(None, Nil), id[1..], f), Nil)
    case Cons(k, n, rest) =>
      if k == id[0] then Cons(k, Insert(n, id[1..], f), rest) else Cons(k, n, InsertBelow(rest, id, f))
  }

  function Load(files: seq<(Ident, File)>): Node
    decreases |files|
  {
    if files == [] then Node(None, Nil)
    else
      var last := files[|files| - 1];
      Insert(Load(files[..|files| - 1]), last.0, last.1)
  }

  // ---- pruning ----------------------------------------------------------------------------------

  /** Node.key(): data and leaves, the order of the leaves and the paths of the files left out. */
  datatype Key = Key(data: Option<seq<byte>>, leaves: map<string, Key>)

  function KeyOf(n: Node): Key {
    Key(if n.file.Some? then Some(n.file.value.data) else None, KeysOf(n.leaves))
  }

  function KeysOf(ls: Leaves): map<string, Key> {
    match ls case Nil => map[] case Cons(k, n, rest) => KeysOf(rest)[k := KeyOf(n)]
  }

  predicate AllKeys(ls: Leaves, key: Key) {
    match ls case Nil => true case Cons(_, n, rest) => KeyOf(n) == key && AllKeys(rest, key)
  }

  predicate AllData(ls: Leaves, data: seq<byte>) {
    match ls
    case Nil => true
    case Cons(_, n, rest) => n.file.Some? && n.file.value.data == data && AllData(rest, data)
  }

  function Prune(n: Node, depth: nat): Node {
    Collapse(Lift(Node(n.file, PruneAll(n.leaves, depth + 1)), depth))
  }

  function PruneAll(ls: Leaves, depth: nat): Leaves {
    match ls case Nil => Nil case Cons(k, n, rest) => Cons(k, Prune(n, depth), PruneAll(rest, depth))
  }

  /** A deep node without a file takes its first leaf's, if all leaves are alike. */
  function Lift(n: Node, depth: nat): Node {
    if n.file.None? && n.leaves.Cons? && depth > 3 && AllKeys(n.leaves, KeyOf(n.leaves.node))
    then Node(n.leaves.node.file, n.leaves)
    else n
  }

  /** Leaves that all repeat the node's own data go. */
  function Collapse(n: Node): Node {
    if n.file.Some? && AllData(n.leaves, n.file.value.data) then Node(n.file, Nil) else n
  }

  /** walk: the identifiers and files that are emitted. */
  function Walk(n: Node, id: Ident): seq<(Ident, File)> {
    (if n.file.Some? then [(id, n.file.value)] else []) + WalkAll(n.leaves, id)
  }

  function WalkAll(ls: Leaves, id: Ident): seq<(Ident, File)> {
    match ls case Nil => [] case Cons(k, n, rest) => Walk(n, id + [k]) + WalkAll(rest, id)
  }

  // ---- loading keeps the files ------------------------------------------------------------------

  lemma {:induction false} InsertFinds(n: Node, id: Ident, f: File, q: Ident)
    ensures FileAt(Insert(n, id, f), q) == if q == id then Some(f) else FileAt(n, q)
    decreases |id|, 1, 0
  {
    if id != [] && q != [] {
      InsertBelowFinds(n.leaves, id, f, q[0]);
      if q[0] == id[0] {
        var c := if Find(n.leaves, q[0]).Some? then Find(n.leaves, q[0]).value else Node(None, Nil);
        InsertFinds(c, id[1..], f, q[1..]);
        assert q == id <==> q[1..] == id[1..] by { assert q == [q[0]] + q[1..] && id == [id[0]] + id[1..]; }
        if Find(n.leaves, q[0]).None? { NothingBelow(q[1..]); }
      }
    }
  }

  lemma NothingBelow(q: Ident)
    ensures FileAt(Node(None, Nil), q) == None
  {
  }

  lemma {:induction false} InsertBelowFinds(ls: Leaves, id: Ident, f: File, name: string)
    requires id != []
    ensures Find(InsertBelow(ls, id, f), name)
            == if name != id[0] then Find(ls, name)
               else Some(Insert(if Find(ls, name).Some? then Find(ls, name).value else Node(None, Nil), id[1..], f))
    decreases ls
  {
    if ls.Cons? && ls.name != id[0] { InsertBelowFinds(ls.rest, id, f, name); }
  }

  lemma {:induction false} InsertProper(n: Node, id: Ident, f: File)
    requires Proper(n)
    ensures Proper(Insert(n, id, f))
    decreases |id|, 1, 0
  {
    if id != [] { InsertBelowProper(n.leaves, id, f); }
  }

  lemma {:induction false} InsertBelowProper(ls: Leaves, id: Ident, f: File)
    requires id != [] && ProperLeaves(ls)
    ensures ProperLeaves(InsertBelow(ls, id, f))
    decreases |id|, 0, ls
  {
    match ls
    case Nil => InsertProper(Node(None, Nil), id[1..], f);
    case Cons(k, n, rest) =>
      if k == id[0] {
        InsertProper(n, id[1..], f);
      } else {
        InsertBelowProper(rest, id, f);
        InsertBelowFinds(rest, id, f, k);
      }
  }

  /** No node is a dead end: without leaves it has a file. */
  predicate Live(n: Node) {
    (n.file.Some? || n.leaves.Cons?) && LiveLeaves(n.leaves)
  }

  predicate LiveLeaves(ls: Leaves) {
    match ls case Nil => true case Cons(_, n, rest) => Live(n) && LiveLeaves(rest)
  }

  lemma {:induction false} InsertLive(n: Node, id: Ident, f: File)
    requires LiveLeaves(n.leaves)
    ensures Live(Insert(n, id, f))
    decreases |id|, 1, 0
  {
    if id != [] { InsertBelowLive(n.leaves, id, f); }
  }

  lemma {:induction false} InsertBelowLive(ls: Leaves, id: Ident, f: File)
    requires id != [] && LiveLeaves(ls)
    ensures LiveLeaves(InsertBelow(ls, id, f)) && InsertBelow(ls, id, f).Cons?
    decreases |id|, 0, ls
  {
    match ls
    case Nil => InsertLive(Node(None, Nil), id[1..], f);
    case Cons(k, n, rest) =>
      if k == id[0] { InsertLive(n, id[1..], f); } else { InsertBelowLive(rest, id, f); }
  }

  function IdentsOf(files: seq<(Ident, File)>): set<Ident> {
    set p | p in files :: p.0
  }

  lemma {:induction false} LoadShape(files: seq<(Ident, File)>)
    ensures Proper(Load(files)) && LiveLeaves(Load(files).leaves)
    ensures forall id :: FileAt(Load(files), id).Some? <==> id in IdentsOf(files)
    decreases |files|
  {
    if files == [] {
      forall id ensures FileAt(Load(files), id).None? { NothingBelow(id); }
    } else {
      var before, last := files[..|files| - 1], files[|files| - 1];
      LoadShape(before);
      InsertProper(Load(before), last.0, last.1);
      InsertLive(Load(before), last.0, last.1);
      assert files == before + [last];
      assert IdentsOf(files) == IdentsOf(before) + {last.0};
      forall id ensures FileAt(Load(files), id).Some? <==> id in IdentsOf(files) {
        InsertFinds(Load(before), last.0, last.1, id);
      }
    }
  }

  /** A live node has a file somewhere below. */
  lemma {:induction false} LiveHasFile(n: Node) returns (q: Ident)
    requires Live(n)
    ensures FileAt(n, q).Some?
    decreases n
  {
    if n.file.Some? {
      q := [];
    } else {
      var r := LiveHasFile(n.leaves.node);
      q := [n.leaves.name] + r;
      assert q[1..] == r;
    }
  }

  /** No file's identifier is a proper prefix of another's. */
  ghost predicate PrefixFree(n: Node) {
    forall p, q :: FileAt(n, p).Some? && FileAt(n, q).Some? && p <= q ==> p == q
  }

  lemma {:induction false} PrefixFreeTerminal(n: Node)
    requires Proper(n) && LiveLeaves(n.leaves) && PrefixFree(n)
    ensures Terminal(n)
    decreases n, 1
  {
    if n.leaves.Cons? {
      var r := LiveHasFile(n.leaves.node);
      var q := [n.leaves.name] + r;
      assert q[1..] == r && FileAt(n, q).Some?;
      assert FileAt(n, []) == n.file && [] <= q;
    }
    PrefixFreeTerminalLeaves(n, n.leaves);
  }

  lemma {:induction false} PrefixFreeTerminalLeaves(n: Node, ls: Leaves)
    requires Proper(n) && PrefixFree(n) && LiveLeaves(ls) && ProperLeaves(ls)
    requires forall k :: Find(ls, k).Some? ==> Find(n.leaves, k) == Find(ls, k)
    requires ls == n.leaves || ls < n.leaves
    ensures TerminalLeaves(ls)
    decreases n, 0, ls
  {
    if ls.Cons? {
      var c := ls.node;
      assert Find(ls, ls.name) == Some(c) && Find(n.leaves, ls.name) == Some(c);
      forall p, q | FileAt(c, p).Some? && FileAt(c, q).Some? && p <= q ensures p == q {
        var p', q' := [ls.name] + p, [ls.name] + q;
        assert p'[1..] == p && q'[1..] == q;
        assert FileAt(n, p').Some? && FileAt(n, q').Some? && p' <= q';
        assert p' == q';
      }
      PrefixFreeTerminal(c);
      forall k | Find(ls.rest, k).Some? ensures Find(n.leaves, k) == Find(ls.rest, k) {
        assert k != ls.name;
        assert Find(ls, k) == Find(ls.rest, k);
      }
      PrefixFreeTerminalLeaves(n, ls.rest);
    }
  }

  // ---- pruning keeps data at the ends -----------------------------------------------------------

  lemma {:induction false} PruneAllFinds(ls: Leaves, depth: nat, name: string)
    ensures Find(PruneAll(ls, depth), name)
            == match Find(ls, name) case None => None case Some(n) => Some(Prune(n, depth))
    decreases ls
  {
    if ls.Cons? { PruneAllFinds(ls.rest, depth, name); }
  }

  lemma {:induction false} KeysOfEmpty(ls: Leaves)
    ensures KeysOf(ls) == map[] <==> ls.Nil?
  {
    if ls.Cons? {
      assert ls.name in KeysOf(ls);
    }
  }

  /** Leaves all like a plain file are all plain files with that data. */
  lemma {:induction false} AlikePlain(ls: Leaves, f: File)
    requires AllKeys(ls, Key(Some(f.data), map[]))
    ensures AllData(ls, f.data)
  {
    if ls.Cons? {
      KeysOfEmpty(ls.node.leaves);
      AlikePlain(ls.rest, f);
    }
  }

  lemma PruneShape(n: Node, depth: nat)
    requires Terminal(n) && TerminalLeaves(PruneAll(n.leaves, depth + 1))
    ensures Terminal(Prune(n, depth))
  {
    var ls := PruneAll(n.leaves, depth + 1);
    var lifted := Lift(Node(n.file, ls), depth);
    if n.file.None? && lifted.file.Some? {
      assert Terminal(ls.node) && ls.node.leaves.Nil?;
      AlikePlain(ls, lifted.file.value);
    }
  }

  lemma {:induction false} PruneTerminal(n: Node, depth: nat)
    requires Terminal(n)
    ensures Terminal(Prune(n, depth)) && TerminalLeaves(PruneAll(n.leaves, depth + 1))
    decreases n, 1
  {
    PruneTerminalLeaves(n.leaves, depth + 1);
    PruneShape(n, depth);
  }

  lemma {:induction false} PruneTerminalLeaves(ls: Leaves, depth: nat)
    requires TerminalLeaves(ls)
    ensures TerminalLeaves(PruneAll(ls, depth))
    decreases ls, 0
  {
    if ls.Cons? {
      PruneTerminal(ls.node, depth);
      PruneTerminalLeaves(ls.rest, depth);
    }
  }

  lemma NoLeaves(n: Node, q: Ident)
    requires n.leaves.Nil?
    ensures FileAt(n, q).Some? ==> q == []
  {
  }

  lemma {:induction false} FindSmaller(ls: Leaves, name: string)
    requires Find(ls, name).Some?
    ensures Find(ls, name).value < ls
  {
    if ls.name != name { FindSmaller(ls.rest, name); }
  }

  // ---- what walk emits --------------------------------------------------------------------------

  lemma {:induction false} WalkIsFileAt(n: Node, id: Ident)
    requires Proper(n)
    ensures forall q, f :: (q, f) in Walk(n, id) <==> id <= q && FileAt(n, q[|id|..]) == Some(f)
    decreases n, 1
  {
    WalkAllIsFind(n.leaves, id);
    forall q, f ensures (q, f) in Walk(n, id) <==> id <= q && FileAt(n, q[|id|..]) == Some(f) {
      if id <= q {
        assert q[|id|..] == [] <==> q == id;
      }
    }
  }

  /** The leaves of a behind those of b. */
  function Behind(b: Leaves, a: Leaves): Leaves {
    match b case Nil => a case Cons(k, n, rest) => Cons(k, n, Behind(rest, a))
  }

  /** A new name goes behind those there are, and one that is there stays in its place. */
  lemma {:induction false} InsertInPlace(b: Leaves, n: Node, rest: Leaves, id: Ident, f: File)
    requires id != [] && Find(b, id[0]).None?
    ensures InsertBelow(b, id, f) == Behind(b, Cons(id[0], Insert(Node(None, Nil), id[1..], f), Nil))
    ensures InsertBelow(Behind(b, Cons(id[0], n, rest)), id, f)
            == Behind(b, Cons(id[0], Insert(n, id[1..], f), rest))
    decreases b
  {
    hide Insert;
    match b {
      case Nil =>
      case Cons(_, _, more) => InsertInPlace(more, n, rest, id, f);
    }
  }

  /** Where leaves alike lift a file, it is that of the first of them. */
  lemma PruneTakesFirst(k: string, n: Node, rest: Leaves, depth: nat)
    ensures Prune(Node(None, Cons(k, n, rest)), depth).file ==
            if depth >= 4 && AllKeys(PruneAll(rest, depth + 1), KeyOf(Prune(n, depth + 1)))
            then Prune(n, depth + 1).file else None
  {
    hide KeyOf;
    assert PruneAll(Cons(k, n, rest), depth + 1) == Cons(k, Prune(n, depth + 1), PruneAll(rest, depth + 1));
    var ls := PruneAll(Cons(k, n, rest), depth + 1);
    hide Prune, PruneAll;
    assert AllKeys(ls, KeyOf(ls.node)) <==> AllKeys(ls.rest, KeyOf(ls.node));
  }

  lemma {:induction false} WalkAllJoins(b: Leaves, a: Leaves, id: Ident)
    ensures WalkAll(Behind(b, a), id) == WalkAll(b, id) + WalkAll(a, id)
    decreases b
  {
    match b {
      case Nil => assert [] + WalkAll(a, id) == WalkAll(a, id);
      case Cons(k, n, rest) =>
        WalkAllJoins(rest, a, id);
        hide Walk;
        Regrouped(Walk(n, id + [k]), WalkAll(rest, id), WalkAll(a, id));
    }
  }

  lemma Regrouped<T>(a: seq<T>, b: seq<T>, c: seq<T>)
    ensures a + (b + c) == a + b + c
  {
  }

  /** A node's own file comes first, then leaf after leaf in the order they were made. */
  lemma WalkInOrder(f: Option<File>, b: Leaves, k: string, n: Node, id: Ident)
    ensures Walk(Node(f, Nil), id) == match f case None => [] case Some(file) => [(id, file)]
    ensures Walk(Node(f, Behind(b, Cons(k, n, Nil))), id) == Walk(Node(f, b), id) + Walk(n, id + [k])
  {
    WalkAllJoins(b, Cons(k, n, Nil), id);
    var own := match f case None => [] case Some(file) => [(id, file)];
    assert WalkAll(Nil, id) == [] && own + [] == own;
    assert WalkAll(Cons(k, n, Nil), id) == Walk(n, id + [k]) + [] == Walk(n, id + [k]);
    Regrouped(own, WalkAll(b, id), Walk(n, id + [k]));
  }

  lemma {:induction false} WalkAllIsFind(ls: Leaves, id: Ident)
    requires ProperLeaves(ls)
    ensures forall q, f :: (q, f) in WalkAll(ls, id) <==>
              id < q && Find(ls, q[|id|]).Some? && FileAt(Find(ls, q[|id|]).value, q[|id| + 1..]) == Some(f)
    decreases ls, 0
  {
    if ls.Cons? {
      var down := id + [ls.name];
      WalkIsFileAt(ls.node, down);
      WalkAllIsFind(ls.rest, id);
      forall q, f
        ensures (q, f) in WalkAll(ls, id) <==>
                id < q && Find(ls, q[|id|]).Some? && FileAt(Find(ls, q[|id|]).value, q[|id| + 1..]) == Some(f)
      {
        assert down <= q <==> id < q && q[|id|] == ls.name;
      }
    }
  }
}
