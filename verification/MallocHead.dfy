/** The head of a list in a tree of large chunks (libphoenix/stdlib/malloc_dl.c): when it leaves and
    others of its size are left, the next of them takes its place in the tree, in memory. */
module MallocHead {
  import opened RbShape
  import opened RbMem

  /** The part of `_malloc_chunkRemove` for the head `x` of a list that has another chunk `y`: the
      node of `y` is written over with that of `x`, and the links to `x` then lead to `y`. */
  method TakeOver(m: Mem, root: Link, x: Node, y: Node, ghost k: Ctx<Node>, ghost t: Shape<Node>)
    returns (m': Mem, root': Link)
    requires At(m, root, k, t) && t.T? && t.n == x && y !in Nodes(t) + CtxNodes(k)
    ensures At(m', root', k, t.(n := y))
    ensures m'.Keys == m.Keys + {y}
  {
    AtUnder(m, root, k, t);
    RepDomain(m, t, Par(k));
    RepCtxDomain(m, k, x, root);
    m' := m[y := m[x]];
    root' := root;
    var p := m'[x].parent;
    if p == NULL {
      root' := y;
    } else if m'[p].left == x {
      m' := m'[p := m'[p].(left := y)];
    } else {
      m' := m'[p := m'[p].(right := y)];
    }
    m' := m'[y := m'[y].(parent := m'[x].parent)];
    ghost var above := m';
    var l, r := m'[y].left, m'[y].right;
    if l != NULL { m' := m'[l := m'[l].(parent := y)]; }
    if r != NULL { m' := m'[r := m'[r].(parent := y)]; }
    Above(m, root, x, y, k, t, above, root');
    Below(m, root, x, y, k, t, above, root', m');
  }

  /** The links below it. */
  lemma Below(m: Mem, root: Link, x: Node, y: Node, k: Ctx<Node>, t: Shape<Node>, above: Mem, root': Link, m': Mem)
    requires At(m, root, k, t) && t.T? && t.n == x && y !in Nodes(t) + CtxNodes(k)
    requires RepCtx(above, k, y, root')
    requires y in m' && m'[y] == m[x]
    requires forall n :: n in CtxNodes(k) ==> n in above && n in m' && m'[n] == above[n]
    requires forall n :: n in Nodes(t) && n != x ==>
      n in m && n in m' && m'[n] == if n == Ptr(t.l) || n == Ptr(t.r) then m[n].(parent := y) else m[n]
    ensures At(m', root', k, t.(n := y))
  {
    ChildrenApart(k, t);
    RepCtxFrame(above, m', k, y, root');
    Reparent(m, m', t.l, x, y);
    Reparent(m, m', t.r, x, y);
  }

  lemma ChildrenApart(k: Ctx<Node>, t: Shape<Node>)
    requires Apart(k, t) && t.T?
    ensures Disj(t.l) && Disj(t.r) && Nodes(t.l) !! Nodes(t.r) && t.n !in Nodes(t.l) + Nodes(t.r)
    ensures Ptr(t.l) !in Nodes(t.r) && Ptr(t.r) !in Nodes(t.l)
    ensures t.l.T? ==> t.l.n in Nodes(t.l)
    ensures t.r.T? ==> t.r.n in Nodes(t.r)
  {
    if t.l.T? { assert t.l.n in Nodes(t.l); }
    if t.r.T? { assert t.r.n in Nodes(t.r); }
  }

  /** In the whole tree only the node of one key has changed: the keys, their order and the colours
      are as they were. */
  lemma SameButHead(k: Ctx<Node>, t: Shape<Node>, y: Node, lo: nat, hi: nat)
    requires t.T?
    ensures var s, s' := Plug(k, t), Plug(k, t.(n := y));
      && Keys(s') == Keys(s) && (Bst(s', lo, hi) <==> Bst(s, lo, hi)) && (IsRb(s') <==> IsRb(s))
      && Items(s') == CtxItems(k) + Items(t.l) + Items(t.r) + {(y, t.id)}
  {
    PlugItems(k, t);
    PlugItems(k, t.(n := y));
    SameOrder(k, t, y, lo, hi);
    SameColours(k, t, y);
  }

  lemma SameOrder(k: Ctx<Node>, t: Shape<Node>, y: Node, lo: nat, hi: nat)
    requires t.T?
    ensures Bst(Plug(k, t.(n := y)), lo, hi) <==> Bst(Plug(k, t), lo, hi)
  {
    BstPlug(k, t, lo, hi);
    BstPlug(k, t.(n := y), lo, hi);
  }

  lemma SameColours(k: Ctx<Node>, t: Shape<Node>, y: Node)
    requires t.T?
    ensures IsRb(Plug(k, t.(n := y))) <==> IsRb(Plug(k, t))
  {
    BalancedPlug(k, t);
    BalancedPlug(k, t.(n := y));
    NoRedRedPlug(k, t);
    NoRedRedPlug(k, t.(n := y));
    RootColorPlug(k, t);
    RootColorPlug(k, t.(n := y));
  }

  /** The links above the place. */
  lemma Above(m: Mem, root: Link, x: Node, y: Node, k: Ctx<Node>, t: Shape<Node>, m': Mem, root': Link)
    requires At(m, root, k, t) && t.T? && t.n == x && y !in Nodes(t) + CtxNodes(k)
    requires Relinked(m, m', root, root', k, y)
    requires forall n :: n in CtxNodes(k) && n != Par(k) ==> n in m && n in m' && m'[n] == m[n]
    ensures RepCtx(m', k, y, root')
  {
    Relink(m, m', root, root', k, x, y);
  }
}
