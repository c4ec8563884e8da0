/** brcmfw.py: Node.key and prune on the nodes themselves, changed in place. */
module FirmwareNodes {
  import opened Bytes
  import opened FirmwareTrie

  function LeavesOf(names: seq<string>, trees: seq<Node>): Leaves
    requires |names| == |trees|
  {
    if names == [] then Nil else Cons(names[0], trees[0], LeavesOf(names[1..], trees[1..]))
  }

  function PruneEach(trees: seq<Node>, depth: nat): (r: seq<Node>)
    ensures |r| == |trees| && forall i :: 0 <= i < |r| ==> r[i] == Prune(trees[i], depth)
  {
    seq(|trees|, i requires 0 <= i < |trees| => Prune(trees[i], depth))
  }

  lemma {:induction false} PruneAllIsEach(names: seq<string>, trees: seq<Node>, depth: nat)
    requires |names| == |trees|
    ensures PruneAll(LeavesOf(names, trees), depth) == LeavesOf(names, PruneEach(trees, depth))
    decreases |names|
  {
    hide Prune;
    if names != [] {
      PruneAllIsEach(names[1..], trees[1..], depth);
      assert PruneEach(trees, depth)[1..] == PruneEach(trees[1..], depth);
    }
  }

  lemma {:induction false} AllKeysIs(names: seq<string>, trees: seq<Node>, key: Key)
    requires |names| == |trees|
    ensures AllKeys(LeavesOf(names, trees), key) <==> forall i :: 0 <= i < |trees| ==> KeyOf(trees[i]) == key
    decreases |names|
  {
    hide KeyOf;
    if names != [] {
      var rest := trees[1..];
      AllKeysIs(names[1..], rest, key);
      assert forall i :: 0 < i < |trees| ==> trees[i] == rest[i - 1];
      assert forall i :: 0 <= i < |rest| ==> rest[i] == trees[i + 1];
    }
  }

  predicate HasData(f: Option<File>, data: seq<byte>) {
    f.Some? && f.value.data == data
  }

  lemma {:induction false} AllDataIs(names: seq<string>, trees: seq<Node>, data: seq<byte>)
    requires |names| == |trees|
    ensures AllData(LeavesOf(names, trees), data) <==> forall i :: 0 <= i < |trees| ==> HasData(trees[i].file, data)
    decreases |names|
  {
    if names != [] {
      var rest := trees[1..];
      AllDataIs(names[1..], rest, data);
      assert forall i :: 0 < i < |trees| ==> trees[i] == rest[i - 1];
      assert forall i :: 0 <= i < |rest| ==> rest[i] == trees[i + 1];
    }
  }

  /** A node of the trie: a file and a dictionary of leaves. tree is its value, trees those of its leaves. */
  class TrieNode {
    var file: Option<File>
    var names: seq<string>
    var nodes: seq<TrieNode>
    ghost var trees: seq<Node>
    ghost var tree: Node
    ghost var Repr: set<object>

    ghost predicate Valid()
      reads this, Repr
      decreases Repr
    {
      && this in Repr && |names| == |nodes| == |trees|
      && (forall i :: 0 <= i < |nodes| ==>
            nodes[i] in Repr && nodes[i].Repr <= Repr && this !in nodes[i].Repr && nodes[i].Valid())
      && (forall i :: 0 <= i < |nodes| ==> nodes[i].tree == trees[i])
      && (forall i, j :: 0 <= i < j < |nodes| ==> nodes[i].Repr !! nodes[j].Repr)
      && tree == Node(file, LeavesOf(names, trees))
    }

    constructor ()
      ensures Valid() && fresh(Repr) && tree == Node(None, Nil)
    {
      file, names, nodes := None, [], [];
      trees, tree, Repr := [], Node(None, Nil), {this};
    }

    method ReadKey() returns (k: Key)
      requires Valid()
      ensures k == KeyOf(tree)
      decreases Repr
    {
      var leaves: map<string, Key> := map[];
      var i := |nodes|;
      assert trees[|nodes|..] == [];
      while i > 0
        invariant 0 <= i <= |nodes|
        invariant leaves == KeysOf(LeavesOf(names[i..], trees[i..]))
      {
        i := i - 1;
        var key := nodes[i].ReadKey();
        leaves := leaves[names[i] := key];
        assert names[i..][1..] == names[i + 1..] && trees[i..][1..] == trees[i + 1..];
      }
      assert names[0..] == names && trees[0..] == trees;
      k := Key(if file.Some? then Some(file.value.data) else None, leaves);
    }

    /** The recursive calls. */
    method PruneLeaves(depth: nat)
      requires Valid()
      modifies Repr - {this}
      ensures unchanged(this) && |names| == |nodes| == |trees|
      ensures forall i :: 0 <= i < |nodes| ==> nodes[i].Valid() && nodes[i].Repr == old(nodes[i].Repr)
      ensures forall i :: 0 <= i < |nodes| ==> nodes[i].tree == Prune(trees[i], depth)
      decreases Repr, 0
    {
      hide LeavesOf, Prune;
      ghost var reprs := seq(|nodes|, i requires 0 <= i < |nodes| reads this, nodes => nodes[i].Repr);
      for i := 0 to |nodes|
        invariant unchanged(this)
        invariant forall j :: 0 <= j < |nodes| ==> nodes[j].Valid() && nodes[j].Repr == reprs[j]
        invariant forall j :: 0 <= j < |nodes| ==> nodes[j].tree == if j < i then Prune(trees[j], depth) else trees[j]
      {
        nodes[i].PruneAt(depth);
      }
    }

    lemma FirstLeaf()
      requires Valid() && nodes != []
      ensures tree.leaves.Cons? && tree.leaves.node == trees[0]
    {
    }

    method AllAlike() returns (b: bool)
      requires Valid() && nodes != []
      ensures b == AllKeys(tree.leaves, KeyOf(tree.leaves.node))
    {
      hide KeyOf, AllKeys, LeavesOf;
      ghost var key := KeyOf(trees[0]);
      FirstLeaf();
      AllKeysIs(names, trees, key);
      for i := 0 to |nodes|
        invariant forall j :: 0 <= j < i ==> KeyOf(trees[j]) == key
      {
        var own := nodes[i].ReadKey();
        var first := nodes[0].ReadKey();
        if own != first {
          return false;
        }
      }
      b := true;
    }

    method AllHave(data: seq<byte>) returns (b: bool)
      requires Valid()
      ensures b == AllData(tree.leaves, data)
    {
      AllDataIs(names, trees, data);
      for i := 0 to |nodes|
        invariant forall j :: 0 <= j < i ==> HasData(trees[j].file, data)
      {
        if !HasData(nodes[i].file, data) {
          return false;
        }
      }
      b := true;
    }

    /** A deep node takes its first leaf's file if the leaves are alike. */
    method LiftFile(depth: nat)
      requires Valid()
      modifies this`file, this`tree
      ensures Valid() && tree == Lift(old(tree), depth)
    {
      hide AllKeys, KeyOf;
      if file.None? && nodes != [] && depth > 3 {
        var alike := AllAlike();
        if alike {
          file := nodes[0].file;
          tree := Node(file, tree.leaves);
        }
      }
    }

    /** Leaves that repeat the node's own data go. */
    method DropLeaves()
      requires Valid()
      modifies this`names, this`nodes, this`trees, this`tree
      ensures Valid() && tree == Collapse(old(tree))
    {
      hide AllData;
      if file.Some? {
        var all := AllHave(file.value.data);
        if all {
          names, nodes, trees, tree := [], [], [], Node(file, Nil);
        }
      }
    }

    method PruneBelow(depth: nat)
      requires Valid()
      modifies Repr
      ensures Valid() && Repr == old(Repr) && tree == Node(old(tree).file, PruneAll(old(tree).leaves, depth))
      decreases Repr, 1
    {
      hide Prune, PruneAll, LeavesOf, PruneEach;
      PruneLeaves(depth);
      PruneAllIsEach(names, trees, depth);
      trees := PruneEach(trees, depth);
      tree := Node(file, LeavesOf(names, trees));
    }

    /** prune */
    method PruneAt(depth: nat)
      requires Valid()
      modifies Repr
      ensures Valid() && Repr == old(Repr) && tree == Prune(old(tree), depth)
      decreases Repr, 2
    {
      hide Lift, Collapse, PruneAll, Valid;
      InOwnRepr();
      PruneBelow(depth + 1);
      LiftFile(depth);
      DropLeaves();
    }

    lemma InOwnRepr()
      requires Valid()
      ensures this in Repr
    {
    }

    // ---- loading ------------------------------------------------------------------------------

    /** The place of a leaf, |names| if it is not there. */
    method Lookup(name: string) returns (i: nat)
      ensures i == PlaceOf(names, name)
    {
      i := 0;
      while i < |names| && names[i] != name
        invariant i <= |names| && PlaceOf(names, name) == i + PlaceOf(names[i..], name)
      {
        i := i + 1;
      }
    }

    /** One file put in: setdefault at every step of its identifier, the file at the end. */
    method InsertFile(id: Ident, f: File)
      requires Valid()
      modifies Repr
      ensures Valid() && fresh(Repr - old(Repr)) && tree == Insert(old(tree), id, f)
      decreases |id|, 1
    {
      hide Insert, LeavesOf;
      InsertUnfolds(tree, id, f);
      if id == [] {
        file, tree := Some(f), Node(Some(f), tree.leaves);
        return;
      }
      var i := Lookup(id[0]);
      InsertAtPlace(names, trees, id, f);
      if i == |names| {
        AddLeaf(id[0]);
      }
      InsertIntoLeaf(i, id[1..], f);
      assert i == |old(names)| ==> trees == old(trees) + [Insert(Node(None, Nil), id[1..], f)];
    }

    /** A new empty leaf. */
    method AddLeaf(name: string)
      requires Valid()
      modifies this
      ensures Valid() && fresh(Repr - old(Repr)) && file == old(file)
      ensures names == old(names) + [name] && trees == old(trees) + [Node(None, Nil)]
    {
      hide LeavesOf;
      var leaf := new TrieNode();
      names, nodes, trees := names + [name], nodes + [leaf], trees + [Node(None, Nil)];
      tree, Repr := Node(file, LeavesOf(names, trees)), Repr + leaf.Repr;
    }

    method InsertIntoLeaf(i: nat, id: Ident, f: File)
      requires Valid() && i < |nodes|
      modifies Repr
      ensures Valid() && fresh(Repr - old(Repr)) && file == old(file) && names == old(names)
      ensures trees == old(trees)[i := Insert(old(trees)[i], id, f)]
      decreases |id| + 1, 0
    {
      hide LeavesOf, Insert;
      nodes[i].InsertFile(id, f);
      trees := trees[i := Insert(trees[i], id, f)];
      tree, Repr := Node(file, LeavesOf(names, trees)), Repr + nodes[i].Repr;
    }
  }

  function PlaceOf(names: seq<string>, name: string): (i: nat)
    ensures i <= |names|
  {
    if names == [] || names[0] == name then 0 else 1 + PlaceOf(names[1..], name)
  }

  lemma InsertUnfolds(n: Node, id: Ident, f: File)
    ensures Insert(n, id, f) == if id == [] then Node(Some(f), n.leaves) else Node(n.file, InsertBelow(n.leaves, id, f))
  {
  }

  lemma {:induction false} InsertAtPlace(names: seq<string>, trees: seq<Node>, id: Ident, f: File)
    requires |names| == |trees| && id != []
    ensures var i, empty := PlaceOf(names, id[0]), Node(None, Nil);
            InsertBelow(LeavesOf(names, trees), id, f)
            == if i < |names| then LeavesOf(names, trees[i := Insert(trees[i], id[1..], f)])
               else LeavesOf(names + [id[0]], trees + [Insert(empty, id[1..], f)])
    decreases |names|
  {
    hide Insert;
    if names == [] {
      var one := [Insert(Node(None, Nil), id[1..], f)];
      assert names + [id[0]] == [id[0]] && trees + one == one;
      assert [id[0]][1..] == [] && one[1..] == [];
    } else if names[0] == id[0] {
      assert trees[0 := Insert(trees[0], id[1..], f)][1..] == trees[1..];
    } else {
      InsertAtPlace(names[1..], trees[1..], id, f);
      var i := PlaceOf(names, id[0]);
      if i < |names| {
        assert trees[i := Insert(trees[i], id[1..], f)][1..] == trees[1..][i - 1 := Insert(trees[i], id[1..], f)];
      } else {
        assert (names + [id[0]])[1..] == names[1..] + [id[0]];
        var leaf := Insert(Node(None, Nil), id[1..], f);
        assert (trees + [leaf])[1..] == trees[1..] + [leaf];
      }
    }
  }

  /** load and prune: the files put in one after the other, then merged in place. */
  method LoadAndPrune(files: seq<(Ident, File)>) returns (root: TrieNode)
    ensures root.Valid() && fresh(root.Repr) && root.tree == Prune(Load(files), 0)
  {
    hide Prune, Insert;
    root := new TrieNode();
    for i := 0 to |files|
      invariant root.Valid() && fresh(root.Repr) && root.tree == Load(files[..i])
    {
      root.InsertFile(files[i].0, files[i].1);
      assert files[..i + 1][..i] == files[..i];
    }
    assert files[..|files|] == files;
    root.PruneAt(0);
  }
}
