/** The id allocator of libphoenix/posix/idtree.c: a red-black tree of the ids in use that
    is steered by its gap fields to the lowest run of unused ids. */
module IdTree {
  import opened RbShape
  import opened RbMem
  import opened RbGaps
  import opened RbTree

  datatype Turn = Left | Right | Stop

  /** idtree_gapcmp against a node whose id is 0: where the search for a gap goes on. */
  function GapTurn(g: Gap, c: Cell): Turn {
    if g.l > 0 then (if c.left == NULL then Stop else Left)
    else if g.r > 0 then (if c.right == NULL then Stop else Right)
    else Stop
  }

  /** The id idtree_alloc takes next to the node the search stopped at. */
  function NextTo(g: Gap, c: Cell): int { if g.l > 0 then c.id - 1 else c.id + 1 }

  /** Every id below `lo` is in use. */
  ghost predicate FullBelow(used: set<nat>, lo: nat) { forall x: nat :: x < lo ==> x in used }

  /** `id` is unused and lies in the lowest run of unused ids, at its top or alone above all ids. */
  ghost predicate InLowestGap(used: set<nat>, id: nat) {
    exists lo: nat :: GapFrom(used, lo, id)
  }

  /** The ids below `lo` are in use, those from `lo` to `id` are not, and there is no room above
      `id` unless it is the first of them. */
  ghost predicate GapFrom(used: set<nat>, lo: nat, id: nat) {
    && lo <= id && FullBelow(used, lo) && (forall x :: lo <= x <= id ==> x !in used)
    && (id == lo || id + 1 in used)
  }

  lemma {:induction false} NoGapMeansFull<N>(t: Shape<N>, lo: nat, hi: nat, x: nat)
    requires Bst(t, lo, hi) && MaxGap(t, lo, hi) == 0 && lo <= x < hi
    ensures x in Keys(t)
  {
    match t
    case E =>
    case T(l, _, _, id, r) =>
      if x < id { NoGapMeansFull(l, lo, id, x); }
      else if x > id { NoGapMeansFull(r, id + 1, hi, x); }
  }

  lemma {:induction false} FullBelowCount(used: set<nat>, lo: nat)
    requires FullBelow(used, lo)
    ensures |used| >= lo
  {
    if lo > 0 {
      FullBelowCount(used - {lo - 1}, lo - 1);
    }
  }

  /** Fewer than `n` ids below `n` are in use if one of them is not. */
  lemma {:induction false} OneUnused(used: set<nat>, n: nat, x: nat)
    requires (forall y :: y in used ==> y < n) && x < n && x !in used
    ensures |used| < n
    decreases n
  {
    if x == n - 1 {
      AtMost(used, n - 1);
    } else {
      OneUnused(used - {n - 1}, n - 1, x);
    }
  }

  lemma {:induction false} AtMost(used: set<nat>, n: nat)
    requires forall y :: y in used ==> y < n
    ensures |used| <= n
  {
    if n == 0 {
      assert used == {};
    } else {
      AtMost(used - {n - 1}, n - 1);
    }
  }

  lemma HasGap(t: Shape<Node>)
    requires Bst(t, 0, UINT_MAX) && forall x :: x in Keys(t) ==> x < ID_LIMIT
    ensures MaxGap(t, 0, UINT_MAX) > 0
  {
    MaxGapIsLargestRun(t, 0, UINT_MAX);
    assert FreeRun(Keys(t), 0, UINT_MAX, ID_LIMIT, 1);
  }

  /** lib_rbFindEx with idtree_gapcmp: a node beside the lowest run of unused ids. */
  method FindGap(tree: Tree) returns (r: Node)
    requires tree.Valid() && tree.augment && tree.root != NULL
    ensures r in tree.cells && r in tree.gaps
    ensures var id := NextTo(tree.gaps[r], tree.cells[r]);
      id >= 0 && InLowestGap(Keys(tree.shape), id)
  {
    RootAt(tree.cells, tree.root, Top, tree.shape);
    var it: Node := tree.root;
    ghost var k, t := Top, tree.shape;
    ghost var used := Keys(t);
    HasGap(t);
    while true
      invariant t.T? && tree.Reached(it, k, t) && MaxGap(t, Lo(k, 0), Hi(k, UINT_MAX)) > 0
      invariant FullBelow(used, Lo(k, 0))
      decreases t
    {
      tree.ReachedStep(k, t);
      var g, c := tree.gaps[it], tree.cells[it];
      assert g == Gap(MaxGap(t.l, Lo(k, 0), t.id), MaxGap(t.r, t.id + 1, Hi(k, UINT_MAX)));
      match GapTurn(g, c)
      case Left =>
        it := c.left;
        k, t := InL(k, t.n, t.c, t.id, t.r), t.l;
      case Right =>
        PassFullLeft(k, t);
        it := c.right;
        k, t := InR(k, t.l, t.n, t.c, t.id), t.r;
      case Stop =>
        StopsAtLowest(k, t, g, c);
        return it;
    }
  }

  lemma KeyInPlug(k: Ctx<Node>, t: Shape<Node>, x: nat)
    requires x in Keys(t)
    ensures x in Keys(Plug(k, t))
  {
    PlugItems(k, t);
  }

  /** A left part without gaps is full up to the node. */
  lemma PassFullLeft(k: Ctx<Node>, t: Shape<Node>)
    requires t.T? && Ordered(k, t) && FullBelow(Keys(Plug(k, t)), Lo(k, 0))
    requires MaxGap(t.l, Lo(k, 0), t.id) == 0
    ensures FullBelow(Keys(Plug(k, t)), t.id + 1)
  {
    forall x: nat | x < t.id + 1
      ensures x in Keys(Plug(k, t))
    {
      if x >= Lo(k, 0) {
        if x < t.id { NoGapMeansFull(t.l, Lo(k, 0), t.id, x); }
        KeyInPlug(k, t, x);
      }
    }
  }

  lemma StopsAtLowest(k: Ctx<Node>, t: Shape<Node>, g: Gap, c: Cell)
    requires t.T? && Ordered(k, t) && c == Cell(Par(k), Ptr(t.l), Ptr(t.r), t.c, t.id)
    requires g == Gap(MaxGap(t.l, Lo(k, 0), t.id), MaxGap(t.r, t.id + 1, Hi(k, UINT_MAX))) && g.Top() > 0
    requires FullBelow(Keys(Plug(k, t)), Lo(k, 0)) && GapTurn(g, c) == Stop
    ensures NextTo(g, c) >= 0 && InLowestGap(Keys(Plug(k, t)), NextTo(g, c))
  {
    if g.l > 0 {
      BelowIsFree(k, t);
      KeyInPlug(k, t, t.id);
      assert GapFrom(Keys(Plug(k, t)), Lo(k, 0), t.id - 1);
    } else {
      PassFullLeft(k, t);
      AboveIsFree(k, t);
      assert GapFrom(Keys(Plug(k, t)), t.id + 1, t.id + 1);
    }
  }

  lemma BelowIsFree(k: Ctx<Node>, t: Shape<Node>)
    requires t.T? && t.l.E? && Ordered(k, t)
    ensures forall x :: Lo(k, 0) <= x < t.id ==> x !in Keys(Plug(k, t))
  {
    var d := InL(k, t.n, t.c, t.id, t.r);
    OrderedUp(d, E);
    forall x | Lo(k, 0) <= x < t.id
      ensures x !in Keys(Plug(k, t))
    {
      HoleIsFree(d, x);
    }
  }

  lemma AboveIsFree(k: Ctx<Node>, t: Shape<Node>)
    requires t.T? && t.r.E? && Ordered(k, t) && t.id + 1 < Hi(k, UINT_MAX)
    ensures t.id + 1 !in Keys(Plug(k, t))
  {
    var d := InR(k, t.l, t.n, t.c, t.id);
    OrderedUp(d, E);
    HoleIsFree(d, t.id + 1);
  }

  lemma HoleIsFree(k: Ctx<Node>, x: nat)
    requires Ordered(k, E) && Lo(k, 0) <= x < Hi(k, UINT_MAX)
    ensures x !in Keys(Plug(k, E))
  {
    CtxKeysOutside(k, 0, UINT_MAX, x);
    PlugItems(k, E);
  }

  /** An id from the lowest gap is unused and at most one above the largest id in use. Among ids below
      2^31 it is below 2^31 too exactly if not all of them are in use, and 2^31 if they are. */
  lemma LowestGapBound(used: set<nat>, id: nat)
    requires InLowestGap(used, id) && forall x :: x in used ==> x < ID_LIMIT
    ensures id !in used && (id == 0 || exists x :: x in used && id <= x + 1)
    ensures |used| <= ID_LIMIT && (id < ID_LIMIT <==> |used| < ID_LIMIT)
    ensures |used| == ID_LIMIT ==> id == ID_LIMIT
  {
    var lo: nat :| GapFrom(used, lo, id);
    FullBelowCount(used, lo);
    AtMost(used, ID_LIMIT);
    if id == lo && id > 0 { assert id - 1 in used; }
    if id < ID_LIMIT { OneUnused(used, ID_LIMIT, id); }
  }

  /** No id in use lies between an unused one and such an id, and one is next to it unless it is 0. */
  lemma LowestGapIs(used: set<nat>, id: nat)
    requires InLowestGap(used, id)
    ensures forall x: nat, y: nat :: x <= y <= id && x !in used ==> y !in used
    ensures id == 0 || id - 1 in used || id + 1 in used
  {
    var lo: nat :| GapFrom(used, lo, id);
    if id == lo && id > 0 { assert id - 1 in used; }
  }

  /** An unsigned id as the C `int` that is returned. */
  function AsInt(id: nat): int { if id < ID_LIMIT then id else id - 0x1_0000_0000 }

  /** An id of 2^31 counts as smaller than 0. */
  lemma LimitIsMisplaced()
    ensures Compare(ID_LIMIT, 0) < 0
  {
  }

  /** idtree_alloc: `n` enters the tree with an unused id from the lowest gap. The branch that
      returns -1 needs FindGap to find nothing, which it never does: with 2^31 ids in use, and only
      then, the answer is negative, and the node is in the tree with an id beyond those that
      comparisons order. */
  method Alloc(tree: Tree, n: Node) returns (ret: int, id: nat)
    requires tree.Valid() && tree.augment && n !in tree.cells
    modifies tree
    ensures tree.Sound() && tree.cells.Keys == old(tree.cells.Keys) + {n}
    ensures Items(tree.shape) == old(Items(tree.shape)) + {(n, id)}
    ensures id !in old(Keys(tree.shape)) && InLowestGap(old(Keys(tree.shape)), id)
    ensures id == 0 || exists x :: x in old(Keys(tree.shape)) && id <= x + 1
    ensures tree.Valid() <==> |old(Keys(tree.shape))| < ID_LIMIT
    ensures ret == if |old(Keys(tree.shape))| < ID_LIMIT then id else -0x8000_0000
    ensures |old(Keys(tree.shape))| >= ID_LIMIT ==> id == ID_LIMIT
  {
    id := 0;
    if tree.root != NULL {
      var f := FindGap(tree);
      if tree.gaps[f].l > 0 {
        id := tree.cells[f].id - 1;
      } else {
        id := tree.cells[f].id + 1;
      }
    } else {
      RootAt(tree.cells, tree.root, Top, tree.shape);
      assert GapFrom(Keys(tree.shape), 0, 0);
    }
    LowestGapBound(Keys(tree.shape), id);
    var r := tree.Insert(n, id);
    ret := AsInt(id);
  }
}
