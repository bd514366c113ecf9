/** Why rebalancing after an insertion works: the state of the climb in
    lib_rbInsertBalance, and what each of its three cases does to it. */
module RbInsert {
  import opened RbShape
  import opened RbMem

  /** The subtree at `z` is a red-rooted red-black tree in a tree whose only fault may be
      a red parent above it; the root of the tree is black unless it is `z`. */
  ghost predicate Climbing<N>(k: Ctx<N>, t: Shape<N>) {
    && IsRed(t) && Balanced(t) && NoRedRed(t)
    && CtxBalanced(k, Bh(t)) && CtxNoRedRed(k)
    && (!k.Top? ==> RootColor(k.up, k.c) == Black)
  }

  /** What every turn of the climb lowers: the depth of `z`, then whether it is an inner grandchild. */
  ghost function Rank<N>(k: Ctx<N>): nat {
    2 * Depth(k) + (if !k.Top? && !k.up.Top? && k.InL? != k.up.InL? then 1 else 0)
  }

  /** A turn of the climb from (k, t) to (k', t'). */
  ghost predicate Turn<N>(k: Ctx<N>, t: Shape<N>, k': Ctx<N>, t': Shape<N>) {
    && Climbing(k', t') && Rank(k') < Rank(k)
    && CtxItems(k') + Items(t') == CtxItems(k) + Items(t)
  }

  ghost function Paint<N>(t: Shape<N>, c: Color): Shape<N>
    requires t.T?
  {
    t.(c := c)
  }

  /** Red uncle: parent and uncle black, grandparent red. */
  ghost function Recolored<N>(k: Ctx<N>, t: Shape<N>): Shape<N>
    requires !k.Top? && !k.up.Top? && Sib(k.up).T?
  {
    Paint(Fill(Other(k.up, Paint(Fill(k, t), Black)), Paint(Sib(k.up), Black)), Red)
  }

  lemma HasGrandparent<N>(k: Ctx<N>, t: Shape<N>)
    requires Climbing(k, t) && RedTop(k)
    ensures !k.up.Top? && k.up.c == Black && Depth(k) == Depth(k.up.up) + 2
    ensures Bh(Sib(k)) == Bh(t) && Balanced(Sib(k)) && NoRedRed(Sib(k)) && !IsRed(Sib(k))
    ensures Bh(Sib(k.up)) == Bh(t) && Balanced(Sib(k.up)) && NoRedRed(Sib(k.up))
    ensures CtxBalanced(k.up.up, Bh(t) + 1) && CtxNoRedRed(k.up.up)
    ensures !k.up.up.Top? ==> RootColor(k.up.up.up, k.up.up.c) == Black
  {
    assert CtxBalanced(k.up, Bh(t)) && CtxNoRedRed(k.up);
    assert RootColor(k.up, k.c) == RootColor(k.up.up, k.up.c);
  }

  lemma RecolorStep<N>(k: Ctx<N>, t: Shape<N>)
    requires Climbing(k, t) && RedTop(k) && !k.up.Top? && IsRed(Sib(k.up))
    ensures Turn(k, t, k.up.up, Recolored(k, t))
  {
    HasGrandparent(k, t);
  }

  /** Inner grandchild on the left side: rotate the parent left and climb on from it. */
  lemma InnerLeftStep<N>(k: Ctx<N>, t: Shape<N>)
    requires Climbing(k, t) && RedTop(k) && k.InR? && k.up.InL?
    ensures var u := RotL(Fill(k, t)); Turn(k, t, InL(k.up, u.n, u.c, u.id, u.r), u.l)
  {
  }

  lemma InnerRightStep<N>(k: Ctx<N>, t: Shape<N>)
    requires Climbing(k, t) && RedTop(k) && k.InL? && k.up.InR?
    ensures var u := RotR(Fill(k, t)); Turn(k, t, InR(k.up, u.l, u.n, u.c, u.id), u.r)
  {
  }

  /** Outer grandchild: the parent goes black, the grandparent red and down. */
  ghost function Outer<N>(k: Ctx<N>, t: Shape<N>): Shape<N>
    requires !k.Top? && !k.up.Top?
  {
    Paint(Fill(k.up, Paint(Fill(k, t), Black)), Red)
  }

  lemma OuterLeftStep<N>(k: Ctx<N>, t: Shape<N>)
    requires Climbing(k, t) && RedTop(k) && k.InL? && k.up.InL? && !IsRed(Sib(k.up))
    ensures var u := RotR(Outer(k, t));
      u.l == t && u.c == Black && Turn(k, t, InL(k.up.up, u.n, u.c, u.id, u.r), u.l)
  {
    HasGrandparent(k, t);
  }

  lemma OuterRightStep<N>(k: Ctx<N>, t: Shape<N>)
    requires Climbing(k, t) && RedTop(k) && k.InR? && k.up.InR? && !IsRed(Sib(k.up))
    ensures var u := RotL(Outer(k, t));
      u.r == t && u.c == Black && Turn(k, t, InR(k.up.up, u.l, u.n, u.c, u.id), u.r)
  {
    HasGrandparent(k, t);
  }

  /** Once the parent is black, or there is none, a black root makes a red-black tree. */
  lemma ClimbingDone<N>(k: Ctx<N>, t: Shape<N>)
    requires Climbing(k, t) && !RedTop(k)
    ensures Plug(k, t).T? && IsRb(Paint(Plug(k, t), Black))
  {
    BalancedPlug(k, t);
    NoRedRedPlug(k, t);
    PlugNonempty(k, t);
  }

  lemma {:induction false} PlugNonempty<N>(k: Ctx<N>, t: Shape<N>)
    requires t.T?
    ensures Plug(k, t).T?
    decreases k
  {
    if !k.Top? { PlugNonempty(k.up, Fill(k, t)); }
  }
}
