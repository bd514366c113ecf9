/** Why rebalancing after a removal works: the state of the loop in lib_rbRemoveBalance,
    and what each of its four cases does to it. */
module RbRemove {
  import opened RbShape
  import opened RbMem
  import opened RbInsert
  import opened RbSplice

  /** The subtree `t` is one black node short; everything else is in order, and the root is
      black unless it is that of `t`. A red root of `t` may have red children. */
  ghost predicate Short<N>(k: Ctx<N>, t: Shape<N>) {
    && Balanced(t) && (t.T? ==> NoRedRed(t.l) && NoRedRed(t.r))
    && CtxBalanced(k, Bh(t) + 1) && CtxNoRedRed(k)
    && (!k.Top? ==> RootColor(k.up, k.c) == Black)
  }

  /** The red-black property is restored by a black root of `t`. */
  ghost predicate Done<N>(k: Ctx<N>, t: Shape<N>) { k.Top? || IsRed(t) }

  ghost predicate FarRed<N>(k: Ctx<N>)
    requires !k.Top?
  {
    var w := Sib(k);
    w.T? && w.c == Black && (if k.InL? then IsRed(w.r) else IsRed(w.l))
  }

  /** What every turn of the loop lowers. */
  ghost function Rank<N>(k: Ctx<N>, t: Shape<N>): nat {
    if Done(k, t) then 0 else if FarRed(k) then 1 else Depth(k) + 1
  }

  ghost predicate SameItems<N>(k: Ctx<N>, t: Shape<N>, k': Ctx<N>, t': Shape<N>) {
    CtxItems(k') + Items(t') == CtxItems(k) + Items(t)
  }

  lemma HasSibling<N>(k: Ctx<N>, t: Shape<N>)
    requires Short(k, t) && !k.Top?
    ensures Sib(k).T? && Bh(Sib(k)) == Bh(t) + 1 && Balanced(Sib(k)) && NoRedRed(Sib(k))
    ensures IsRed(Sib(k)) ==> k.c == Black && Sib(k).l.T? && Sib(k).r.T?
    ensures CtxNoRedRed(k.up) && CtxBalanced(k.up, if k.c == Black then Bh(t) + 2 else Bh(t) + 1)
    ensures k.c == Red ==> !RedTop(k.up)
    ensures !k.up.Top? ==> RootColor(k.up.up, k.up.c) == Black
  {
  }

  // ----- red sibling: it goes up black, the parent down red -----

  ghost function RedSibling<N>(k: Ctx<N>, t: Shape<N>): Shape<N>
    requires !k.Top? && Sib(k).T?
  {
    Paint(Fill(Other(k, t), Paint(Sib(k), Black)), Red)
  }

  lemma RedSiblingLeft<N>(k: Ctx<N>, t: Shape<N>)
    requires Short(k, t) && k.InL? && IsRed(k.r)
    ensures var u := RotL(RedSibling(k, t));
      var k' := InL(InL(k.up, u.n, u.c, u.id, u.r), u.l.n, u.l.c, u.l.id, u.l.r);
      u.l.l == t && Short(k', t) && k'.c == Red && !IsRed(k'.r) && SameItems(k, t, k', t)
  {
    HasSibling(k, t);
  }

  lemma RedSiblingRight<N>(k: Ctx<N>, t: Shape<N>)
    requires Short(k, t) && k.InR? && IsRed(k.l)
    ensures var u := RotR(RedSibling(k, t));
      var k' := InR(InR(k.up, u.l, u.n, u.c, u.id), u.r.l, u.r.n, u.r.c, u.r.id);
      u.r.r == t && Short(k', t) && k'.c == Red && !IsRed(k'.l) && SameItems(k, t, k', t)
  {
    HasSibling(k, t);
  }

  // ----- black sibling with black children: it goes red and the shortage moves up -----

  lemma MoveUp<N>(k: Ctx<N>, t: Shape<N>)
    requires Short(k, t) && !Done(k, t) && !IsRed(Sib(k)) && Sib(k).T?
    requires !IsRed(Sib(k).l) && !IsRed(Sib(k).r)
    ensures var t' := Fill(Other(k, t), Paint(Sib(k), Red));
      Short(k.up, t') && SameItems(k, t, k.up, t') && Rank(k.up, t') < Rank(k, t)
      && (k.c == Red ==> Done(k.up, t'))
  {
    HasSibling(k, t);
  }

  // ----- only the near nephew is red: it becomes the sibling -----

  ghost function NearRed<N>(w: Shape<N>, left: bool): Shape<N>
    requires w.T? && (if left then w.l.T? else w.r.T?)
  {
    if left then Paint(w.(l := Paint(w.l, Black)), Red) else Paint(w.(r := Paint(w.r, Black)), Red)
  }

  lemma NearRedTreeLeft<N>(w: Shape<N>)
    requires w.T? && w.c == Black && Balanced(w) && NoRedRed(w) && IsRed(w.l) && !IsRed(w.r)
    ensures var v := RotR(NearRed(w, true));
      && Balanced(v) && Bh(v) == Bh(w) && NoRedRed(v) && v.c == Black && IsRed(v.r)
      && Items(v) == Items(w)
  {
    assert Balanced(w.l) && NoRedRed(w.l);
    assert Items(w.l) == {(w.l.n, w.l.id)} + Items(w.l.l) + Items(w.l.r);
    var v := RotR(NearRed(w, true));
    assert Items(v.r) == {(w.n, w.id)} + Items(w.l.r) + Items(w.r);
  }

  lemma NearRedTreeRight<N>(w: Shape<N>)
    requires w.T? && w.c == Black && Balanced(w) && NoRedRed(w) && IsRed(w.r) && !IsRed(w.l)
    ensures var v := RotL(NearRed(w, false));
      && Balanced(v) && Bh(v) == Bh(w) && NoRedRed(v) && v.c == Black && IsRed(v.l)
      && Items(v) == Items(w)
  {
    assert Balanced(w.r) && NoRedRed(w.r);
    assert Items(w.r) == {(w.r.n, w.r.id)} + Items(w.r.l) + Items(w.r.r);
    var v := RotL(NearRed(w, false));
    assert Items(v.l) == {(w.n, w.id)} + Items(w.r.l) + Items(w.l);
  }

  lemma NearRedLeft<N>(k: Ctx<N>, t: Shape<N>)
    requires Short(k, t) && !Done(k, t) && k.InL? && k.r.T? && k.r.c == Black
    requires IsRed(k.r.l) && !IsRed(k.r.r)
    ensures var k' := k.(r := RotR(NearRed(k.r, true)));
      Short(k', t) && SameItems(k, t, k', t) && FarRed(k')
  {
    HasSibling(k, t);
    NearRedTreeLeft(k.r);
  }

  lemma NearRedRight<N>(k: Ctx<N>, t: Shape<N>)
    requires Short(k, t) && !Done(k, t) && k.InR? && k.l.T? && k.l.c == Black
    requires IsRed(k.l.r) && !IsRed(k.l.l)
    ensures var k' := k.(l := RotL(NearRed(k.l, false)));
      Short(k', t) && SameItems(k, t, k', t) && FarRed(k')
  {
    HasSibling(k, t);
    NearRedTreeRight(k.l);
  }

  // ----- the far nephew is red: one rotation ends it -----

  ghost function FarTree<N>(k: Ctx<N>, t: Shape<N>): Shape<N>
    requires !k.Top? && FarRed(k)
  {
    var w := Paint(Sib(k), k.c);
    var w' := if k.InL? then w.(r := Paint(w.r, Black)) else w.(l := Paint(w.l, Black));
    Paint(Fill(Other(k, t), w'), Black)
  }

  lemma FarRedTree<N>(k: Ctx<N>, t: Shape<N>)
    requires Short(k, t) && !IsRed(t) && !k.Top? && FarRed(k)
    ensures var u := if k.InL? then RotL(FarTree(k, t)) else RotR(FarTree(k, t));
      && Balanced(u) && Bh(u) == Bh(t) + (if k.c == Black then 2 else 1)
      && NoRedRed(u) && u.c == k.c
      && Items(u) == {(k.n, k.id)} + Items(Sib(k)) + Items(t)
  {
    HasSibling(k, t);
    var w := Sib(k);
    assert Items(w) == {(w.n, w.id)} + Items(w.l) + Items(w.r);
    assert Balanced(w.l) && Balanced(w.r) && NoRedRed(w.l) && NoRedRed(w.r);
    var u := if k.InL? then RotL(FarTree(k, t)) else RotR(FarTree(k, t));
    if k.InL? {
      assert u.r == Paint(w.r, Black);
      assert Items(u.r) == Items(w.r);
      assert Items(u.l) == {(k.n, k.id)} + Items(t) + Items(w.l);
    } else {
      assert u.l == Paint(w.l, Black);
      assert Items(u.l) == Items(w.l);
      assert Items(u.r) == {(k.n, k.id)} + Items(t) + Items(w.r);
    }
  }

  lemma FarRedEnd<N>(k: Ctx<N>, t: Shape<N>)
    requires Short(k, t) && !IsRed(t) && !k.Top? && FarRed(k)
    ensures var s := Plug(k.up, if k.InL? then RotL(FarTree(k, t)) else RotR(FarTree(k, t)));
      s.T? && Short(Top, s) && Items(s) == CtxItems(k) + Items(t)
  {
    HasSibling(k, t);
    FarRedTree(k, t);
    var u := if k.InL? then RotL(FarTree(k, t)) else RotR(FarTree(k, t));
    BalancedPlug(k.up, u);
    NoRedRedPlug(k.up, u);
    PlugNonempty(k.up, u);
    PlugItems(k.up, u);
  }

  lemma ShortDone<N>(k: Ctx<N>, t: Shape<N>)
    requires Short(k, t) && t.T? && Done(k, t)
    ensures IsRb(Plug(k, Paint(t, Black)))
    ensures Items(Plug(k, Paint(t, Black))) == CtxItems(k) + Items(t)
  {
    var b := Paint(t, Black);
    BalancedPlug(k, b);
    NoRedRedPlug(k, b);
    RootColorPlug(k, b);
    PlugItems(k, b);
  }

  // ----- what splicing a node out leaves -----

  /** With no left child, the other child is missing or a red leaf. */
  lemma OneChild<N>(t: Shape<N>)
    requires t.T? && Balanced(t) && NoRedRed(t)
    ensures t.l.E? && t.r.T? ==> t.r.c == Red && t.r.l.E? && t.r.r.E?
    ensures t.r.E? && t.l.T? ==> t.l.c == Red && t.l.l.E? && t.l.r.E?
  {
    if t.l.E? && t.r.T? { assert Balanced(t.r) && NoRedRed(t.r); }
    if t.r.E? && t.l.T? { assert Balanced(t.l) && NoRedRed(t.l); }
  }

  /** The red-black property of the whole tree, seen from the hole of `k`. */
  ghost predicate RbAt<N>(k: Ctx<N>, t: Shape<N>) {
    && Balanced(t) && NoRedRed(t) && CtxBalanced(k, Bh(t)) && CtxNoRedRed(k)
    && !(IsRed(t) && RedTop(k)) && RootColor(k, ColorOf(t)) == Black
  }

  lemma RbAtPlug<N>(k: Ctx<N>, t: Shape<N>)
    ensures RbAt(k, t) <==> IsRb(Plug(k, t))
  {
    BalancedPlug(k, t);
    NoRedRedPlug(k, t);
    RootColorPlug(k, t);
  }

  /** A node with one child or none gives way to it: short of a black node if it was black. */
  lemma SplicedOne<N>(k: Ctx<N>, t: Shape<N>, c: Shape<N>)
    requires t.T? && RbAt(k, t)
    requires (t.l.E? && c == t.r) || (t.r.E? && c == t.l)
    ensures t.c == Black ==> Short(k, c)
    ensures t.c == Red ==> RbAt(k, c)
  {
    assert NoRedRed(c);
  }

  /** Colours and black heights of a path do not depend on which nodes and keys lie on it. */
  lemma {:induction false} Renamed<N>(a: Ctx<N>, k: Ctx<N>, l: Shape<N>, n: N, id: nat, n': N, id': nat, c: Color,
    h: nat, x: Color)
    ensures var b, b' := Cat(a, InR(k, l, n, c, id)), Cat(a, InR(k, l, n', c, id'));
      && CtxBalanced(b, h) == CtxBalanced(b', h) && CtxNoRedRed(b) == CtxNoRedRed(b')
      && RootColor(b, x) == RootColor(b', x) && RedTop(b) == RedTop(b')
  {
    if !a.Top? {
      Renamed(a.up, k, l, n, id, n', id', c, if a.c == Black then h + 1 else h, a.c);
    }
  }

  /** The successor `m` of a node with two children takes its place and colour, and gives
      way to its own right child: short of a black node there if `m` was black. */
  lemma SplicedSuccessor<N>(k: Ctx<N>, t: Shape<N>, a: Ctx<N>, m: Shape<N>)
    requires t.T? && t.r == Plug(a, m) && m.T? && m.l.E? && RbAt(k, t)
    ensures var b := Cat(a, InR(k, t.l, m.n, t.c, m.id));
      && (m.c == Black ==> Short(b, m.r))
      && (m.c == Red ==> RbAt(b, m.r))
  {
    var b, b' := Cat(a, InR(k, t.l, t.n, t.c, t.id)), Cat(a, InR(k, t.l, m.n, t.c, m.id));
    assert RbAt(b, m) by {
      PlugCat(a, InR(k, t.l, t.n, t.c, t.id), m);
      RbAtPlug(b, m);
      RbAtPlug(k, t);
    }
    SplicedOne(b, m, m.r);
    Renamed(a, k, t.l, t.n, t.id, m.n, m.id, t.c, Bh(m.r) + 1, Black);
    Renamed(a, k, t.l, t.n, t.id, m.n, m.id, t.c, Bh(m.r), ColorOf(m.r));
  }

  /** The order is kept: the leftmost key of the right part is above all of the left part
      and below the rest of the right part. */
  lemma {:induction false} LeftSpine<N>(a: Ctx<N>, lo: nat, hi: nat, x: nat)
    requires AllLeft(a) && CtxBst(a, lo, hi) && x < Hi(a, hi)
    ensures CtxBst(a, x + 1, hi) && Lo(a, x + 1) == x + 1
  {
    if !a.Top? {
      BstRange(a.r, a.id + 1, Hi(a.up, hi));
      LeftSpine(a.up, lo, hi, x);
    }
  }

  lemma {:induction false} BstWiden<N>(t: Shape<N>, lo: nat, hi: nat, lo': nat, hi': nat)
    requires Bst(t, lo, hi) && lo' <= lo && hi <= hi'
    ensures Bst(t, lo', hi')
  {
    if t.T? {
      BstWiden(t.l, lo, t.id, lo', t.id);
      BstWiden(t.r, t.id + 1, hi, t.id + 1, hi');
    }
  }

  lemma SuccessorOrder<N>(t: Shape<N>, a: Ctx<N>, m: Shape<N>, lo: nat, hi: nat)
    requires t.T? && t.r == Plug(a, m) && AllLeft(a) && m.T? && m.l.E? && Bst(t, lo, hi)
    ensures Bst(Plug(a, m.r), m.id + 1, hi) && Bst(t.l, lo, m.id)
    ensures Bst(Plug(a, m.r), t.id + 1, hi)
  {
    BstPlug(a, m, t.id + 1, hi);
    BstRange(m.r, m.id + 1, Hi(a, hi));
    LeftSpine(a, t.id + 1, hi, m.id);
    BstPlug(a, m.r, m.id + 1, hi);
    LeftLo(a, t.id + 1);
    BstWiden(t.l, lo, t.id, lo, m.id);
    BstWiden(Plug(a, m.r), m.id + 1, hi, t.id + 1, hi);
  }

  lemma {:induction false} LeftLo<N>(a: Ctx<N>, lo: nat)
    requires AllLeft(a)
    ensures Lo(a, lo) == lo
  {
    if !a.Top? { LeftLo(a.up, lo); }
  }
}
