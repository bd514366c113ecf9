/** Whole runs of insertions and removals on a red-black tree (libphoenix/sys/rb.c) against a set of
    nodes with keys. */
module RbRun {
  import opened RbShape
  import opened RbMem
  import opened RbTree

  datatype Op = Put(node: Node, id: nat) | Take(node: Node)

  type Entries = set<(Node, nat)>

  ghost function After(e: Entries, op: Op): Entries {
    match op
    case Put(n, id) => if (exists x :: x in e && (x.0 == n || x.1 == id)) then e else e + {(n, id)}
    case Take(n) => set x | x in e && x.0 != n
  }

  /** What a run leaves: an insertion of a key that is there changes nothing. */
  ghost function AfterAll(ops: seq<Op>): Entries {
    if ops == [] then {} else After(AfterAll(ops[..|ops| - 1]), ops[|ops| - 1])
  }

  lemma NodeHasItem(tree: Tree, n: Node)
    requires tree.Valid() && n in tree.cells
    ensures forall x :: x in Items(tree.shape) && x.0 == n <==> x == (n, tree.cells[n].id)
  {
    var k, t := Locate(tree.shape, n);
    tree.GoodPlug(k, t);
    tree.FocusFields(k, t);
    PlugItems(k, t);
    AtUnder(tree.cells, tree.root, k, t);
    UniqueItem(k, t);
  }

  method Perform(tree: Tree, op: Op)
    requires tree.Valid() && (op.Put? ==> op.id < ID_LIMIT)
    modifies tree
    ensures tree.Valid() && Items(tree.shape) == After(old(Items(tree.shape)), op)
  {
    ItemsAre(tree.shape);
    match op {
      case Put(n, id) =>
        if n !in tree.cells {
          var r := tree.Insert(n, id);
        }
      case Take(n) =>
        if n in tree.cells {
          NodeHasItem(tree, n);
          tree.Remove(n);
        }
    }
  }

  /** After every run the tree is a red-black search tree with exact gaps, and its entries are those
      that a set would have. */
  method Run(ops: seq<Op>, augment: bool) returns (tree: Tree)
    requires forall i :: 0 <= i < |ops| && ops[i].Put? ==> ops[i].id < ID_LIMIT
    ensures tree.Valid() && Items(tree.shape) == AfterAll(ops)
  {
    tree := new Tree(augment);
    for i := 0 to |ops|
      invariant fresh(tree) && tree.Valid() && Items(tree.shape) == AfterAll(ops[..i])
    {
      Perform(tree, ops[i]);
      assert ops[..i + 1][..i] == ops[..i];
    }
    assert ops[..|ops|] == ops;
  }

  /** Neither the node nor the key is there. */
  ghost predicate Fresh(e: Entries, n: Node, id: nat) {
    forall x :: x in e ==> x.0 != n && x.1 != id
  }

  ghost predicate PutAt(ops: seq<Op>, i: nat, n: Node, id: nat)
    requires i < |ops|
  {
    ops[i] == Put(n, id) && Fresh(AfterAll(ops[..i]), n, id) && forall j :: i < j < |ops| ==> ops[j] != Take(n)
  }

  /** What is in the tree after a run: the nodes that were put in when neither they nor their keys were
      there, and were not taken out since. */
  lemma {:induction false} EntriesAre(ops: seq<Op>, n: Node, id: nat)
    ensures (n, id) in AfterAll(ops) <==> exists i :: 0 <= i < |ops| && PutAt(ops, i, n, id)
    decreases |ops|
  {
    if ops != [] {
      var k := |ops| - 1;
      var before := ops[..k];
      EntriesAre(before, n, id);
      forall i | 0 <= i < k
        ensures PutAt(ops, i, n, id) <==> PutAt(before, i, n, id) && ops[k] != Take(n)
      {
        assert before[..i] == ops[..i];
      }
      if (n, id) in AfterAll(ops) {
        if (n, id) in AfterAll(before) {
          var i :| 0 <= i < k && PutAt(before, i, n, id);
          assert PutAt(ops, i, n, id);
        } else {
          assert PutAt(ops, k, n, id);
        }
      }
      if i :| 0 <= i < |ops| && PutAt(ops, i, n, id) {
        if i < k { assert PutAt(before, i, n, id); }
      }
    }
  }

  /** A node has one key, and a key one node. */
  lemma {:induction false} OneEach(ops: seq<Op>, x: (Node, nat), y: (Node, nat))
    requires x in AfterAll(ops) && y in AfterAll(ops) && (x.0 == y.0 || x.1 == y.1)
    ensures x == y
    decreases |ops|
  {
    var before := ops[..|ops| - 1];
    if x in AfterAll(before) && y in AfterAll(before) { OneEach(before, x, y); }
  }
}
