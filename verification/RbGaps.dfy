/** The gap fields of libphoenix/posix/idtree.c on values: `lmaxgap` and `rmaxgap` of every
    node, what makes them exact, and what one run of `idtree_augment` does to them. */
module RbGaps {
  import opened RbShape
  import opened RbMem

  /** `lmaxgap` and `rmaxgap` of one node. */
  datatype Gap = Gap(l: nat, r: nat) {
    function Top(): nat { Max(l, r) }
  }

  type Gaps = map<Node, Gap>

  /** Every node of `t` holds the largest run of unused keys on each side of it within [lo, hi). */
  ghost predicate Exact(g: Gaps, t: Shape<Node>, lo: nat, hi: nat) {
    t.T? ==>
      && t.n in g && g[t.n] == Gap(MaxGap(t.l, lo, t.id), MaxGap(t.r, t.id + 1, hi))
      && Exact(g, t.l, lo, t.id) && Exact(g, t.r, t.id + 1, hi)
  }

  /** Everything beside the path is exact: the far field of each node on it, and the subtree there. */
  ghost predicate Off(g: Gaps, k: Ctx<Node>, lo: nat, hi: nat) {
    match k
    case Top => true
    case InL(up, n, _, id, r) =>
      && n in g && g[n].r == MaxGap(r, id + 1, Hi(up, hi))
      && Exact(g, r, id + 1, Hi(up, hi)) && Off(g, up, lo, hi)
    case InR(up, l, n, _, id) =>
      && n in g && g[n].l == MaxGap(l, Lo(up, lo), id)
      && Exact(g, l, Lo(up, lo), id) && Off(g, up, lo, hi)
  }

  /** The near fields along the path carry the largest gap `v` of the hole upwards. */
  ghost predicate Path(g: Gaps, k: Ctx<Node>, v: nat) {
    match k
    case Top => true
    case InL(up, n, _, _, _) => n in g && g[n].l == v && Path(g, up, g[n].Top())
    case InR(up, _, n, _, _) => n in g && g[n].r == v && Path(g, up, g[n].Top())
  }

  /** All gap fields of the tree `t` in the hole of `k` are exact over the whole key space. */
  ghost predicate GapsAt(g: Gaps, k: Ctx<Node>, t: Shape<Node>) {
    var lo, hi := Lo(k, 0), Hi(k, UINT_MAX);
    Exact(g, t, lo, hi) && Off(g, k, 0, UINT_MAX) && Path(g, k, MaxGap(t, lo, hi))
  }

  lemma GapsUp(g: Gaps, k: Ctx<Node>, t: Shape<Node>)
    requires !k.Top?
    ensures GapsAt(g, k, t) <==> GapsAt(g, k.up, Fill(k, t))
  {
  }

  lemma {:induction false} GapsCat(g: Gaps, a: Ctx<Node>, b: Ctx<Node>, t: Shape<Node>)
    ensures GapsAt(g, Cat(a, b), t) <==> GapsAt(g, b, Plug(a, t))
    decreases a
  {
    match a
    case Top =>
    case InL(up, n, c, id, r) => GapsCat(g, up, b, T(t, n, c, id, r));
    case InR(up, l, n, c, id) => GapsCat(g, up, b, T(l, n, c, id, t));
  }

  lemma GapsPlug(g: Gaps, k: Ctx<Node>, t: Shape<Node>)
    ensures GapsAt(g, k, t) <==> GapsAt(g, Top, Plug(k, t))
  {
    CatTop(k);
    GapsCat(g, k, Top, t);
  }

  lemma {:induction false} ExactFrame(g: Gaps, g': Gaps, t: Shape<Node>, lo: nat, hi: nat)
    requires Exact(g, t, lo, hi)
    requires forall n :: n in Nodes(t) && n in g ==> n in g' && g'[n] == g[n]
    ensures Exact(g', t, lo, hi)
  {
    if t.T? {
      ExactFrame(g, g', t.l, lo, t.id);
      ExactFrame(g, g', t.r, t.id + 1, hi);
    }
  }

  // ----- one run of idtree_augment -----

  /** The key the first upward walk ends at: that of the nearest ancestor on the left,
      or of the root (of the node itself when it is the root). */
  ghost function LastLeft(k: Ctx<Node>, p: nat): nat {
    match k
    case Top => p
    case InL(up, _, _, id, _) => LastLeft(up, id)
    case InR(_, _, _, _, id) => id
  }

  ghost function LastRight(k: Ctx<Node>, p: nat): nat {
    match k
    case Top => p
    case InL(_, _, _, id, _) => id
    case InR(up, _, _, _, id) => LastRight(up, id)
  }

  function GapBelow(id: nat, p: nat): nat { if id <= p then id else id - p - 1 }

  /** Unsigned, so at the very last key the difference wraps around. */
  function GapAbove(id: nat, p: nat): nat {
    if id >= p then (if id < UINT_MAX then UINT_MAX - id - 1 else UINT_MAX) else p - id - 1
  }

  /** Keys increase through the whole tree and stay below the last unsigned value. */
  ghost predicate Ordered(k: Ctx<Node>, t: Shape<Node>) {
    CtxBst(k, 0, UINT_MAX) && Bst(t, Lo(k, 0), Hi(k, UINT_MAX))
  }

  lemma OrderedUp(k: Ctx<Node>, t: Shape<Node>)
    requires !k.Top?
    ensures Ordered(k, t) <==> Ordered(k.up, Fill(k, t))
  {
    var lo, hi := Lo(k, 0), Hi(k, UINT_MAX);
    if Bst(t, lo, hi) { BstRange(t, lo, hi); }
  }

  lemma {:induction false} OrderedCat(a: Ctx<Node>, b: Ctx<Node>, t: Shape<Node>)
    ensures Ordered(Cat(a, b), t) <==> Ordered(b, Plug(a, t))
    decreases a
  {
    if !a.Top? {
      OrderedUp(Cat(a, b), t);
      OrderedCat(a.up, b, Fill(a, t));
    }
  }

  lemma {:induction false} HiBound(k: Ctx<Node>)
    requires CtxBst(k, 0, UINT_MAX)
    ensures Hi(k, UINT_MAX) <= UINT_MAX
  {
    if !k.Top? {
      HiBound(k.up);
      if k.InL? { BstRange(k.r, k.id + 1, Hi(k.up, UINT_MAX)); }
    }
  }

  lemma {:induction false} GapBelowExact(k: Ctx<Node>, id: nat, x: nat)
    requires CtxBst(k, 0, UINT_MAX) && Lo(k, 0) <= id <= x <= Hi(k, UINT_MAX)
    ensures GapBelow(id, LastLeft(k, x)) == id - Lo(k, 0)
  {
    if k.InL? {
      BstRange(k.r, k.id + 1, Hi(k.up, UINT_MAX));
      GapBelowExact(k.up, id, k.id);
    }
  }

  lemma {:induction false} GapAboveExact(k: Ctx<Node>, id: nat, x: nat)
    requires CtxBst(k, 0, UINT_MAX) && x <= id < Hi(k, UINT_MAX) && Lo(k, 0) <= x + 1
    ensures GapAbove(id, LastRight(k, x)) == Hi(k, UINT_MAX) - (id + 1)
  {
    HiBound(k);
    if k.InR? {
      BstRange(k.l, Lo(k.up, 0), k.id);
      GapAboveExact(k.up, id, k.id);
    }
  }

  /** The nodes of the path itself. */
  ghost function Spine<N>(k: Ctx<N>): set<N> {
    if k.Top? then {} else {k.n} + Spine(k.up)
  }

  lemma {:induction false} SpineIn<N>(k: Ctx<N>)
    ensures Spine(k) <= CtxNodes(k)
  {
    if !k.Top? { SpineIn(k.up); }
  }

  /** The last loop: the near field of every node on the path is refreshed, bottom up. */
  ghost function Climb(g: Gaps, k: Ctx<Node>, v: nat): Gaps
    decreases k
  {
    if k.Top? || k.n !in g then g
    else var f := Near(g, k, v); Climb(g[k.n := f], k.up, f.Top())
  }

  /** The fields of the node above the hole once the child there has largest gap `v`. */
  ghost function Near(g: Gaps, k: Ctx<Node>, v: nat): Gap
    requires !k.Top? && k.n in g
  {
    if k.InL? then Gap(v, g[k.n].r) else Gap(g[k.n].l, v)
  }

  /** The two fields written at the node itself. */
  ghost function Fresh(g: Gaps, k: Ctx<Node>, id: nat, left: Link, right: Link): Gap
    requires (left != NULL ==> left in g) && (right != NULL ==> right in g)
  {
    Gap(if left == NULL then GapBelow(id, LastLeft(k, id)) else g[left].Top(),
        if right == NULL then GapAbove(id, LastRight(k, id)) else g[right].Top())
  }

  ghost function Augmented(g: Gaps, k: Ctx<Node>, n: Node, id: nat, left: Link, right: Link): Gaps
    requires (left != NULL ==> left in g) && (right != NULL ==> right in g)
  {
    var f := Fresh(g, k, id, left, right);
    Climb(g[n := f], k, f.Top())
  }

  lemma {:induction false} ClimbKeeps(g: Gaps, k: Ctx<Node>, v: nat)
    ensures Climb(g, k, v).Keys == g.Keys
    ensures forall n :: n in g && n !in Spine(k) ==> Climb(g, k, v)[n] == g[n]
    decreases k
  {
    if !k.Top? && k.n in g {
      var f := Near(g, k, v);
      ClimbKeeps(g[k.n := f], k.up, f.Top());
    }
  }

  lemma {:induction false} OffFrame(g: Gaps, g': Gaps, k: Ctx<Node>, lo: nat, hi: nat)
    requires Off(g, k, lo, hi)
    requires forall n :: n in CtxNodes(k) && n in g ==> n in g' && g'[n] == g[n]
    ensures Off(g', k, lo, hi)
  {
    match k
    case Top =>
    case InL(up, n, _, id, r) =>
      ExactFrame(g, g', r, id + 1, Hi(up, hi)); OffFrame(g, g', up, lo, hi);
    case InR(up, l, n, _, id) =>
      ExactFrame(g, g', l, Lo(up, lo), id); OffFrame(g, g', up, lo, hi);
  }

  /** The climb writes the near fields and nothing beside the path. */
  lemma {:induction false} ClimbPath(g: Gaps, k: Ctx<Node>, v: nat, lo: nat, hi: nat)
    requires Spine(k) <= g.Keys && DisjCtx(k)
    ensures Path(Climb(g, k, v), k, v)
    ensures Off(g, k, lo, hi) ==> Off(Climb(g, k, v), k, lo, hi)
    decreases k
  {
    if !k.Top? {
      var up, n := k.up, k.n;
      var f := Near(g, k, v);
      var g1 := g[n := f];
      var g' := Climb(g1, up, f.Top());
      ClimbKeeps(g1, up, f.Top());
      ClimbPath(g1, up, f.Top(), lo, hi);
      SpineIn(up);
      assert g'[n] == f;
      if Off(g, k, lo, hi) {
        OffFrame(g, g1, up, lo, hi);
        if k.InL? { ExactFrame(g, g', k.r, k.id + 1, Hi(up, hi)); }
        else { ExactFrame(g, g', k.l, Lo(up, lo), k.id); }
      }
    }
  }

  /** Writing `f` at a node below the hole and climbing from it. */
  lemma ClimbFrom(g: Gaps, k: Ctx<Node>, n: Node, f: Gap)
    requires Spine(k) <= g.Keys && DisjCtx(k) && n !in CtxNodes(k)
    ensures var g' := Climb(g[n := f], k, f.Top());
      && n in g' && g'[n] == f && g'.Keys == g.Keys + {n} && Path(g', k, f.Top())
      && (Off(g, k, 0, UINT_MAX) ==> Off(g', k, 0, UINT_MAX))
      && (forall x :: x in g && x != n && x !in CtxNodes(k) ==> g'[x] == g[x])
  {
    SpineIn(k);
    ClimbKeeps(g[n := f], k, f.Top());
    ClimbPath(g[n := f], k, f.Top(), 0, UINT_MAX);
    if Off(g, k, 0, UINT_MAX) { OffFrame(g, g[n := f], k, 0, UINT_MAX); }
  }

  lemma FreshExact(g: Gaps, k: Ctx<Node>, t: Shape<Node>)
    requires t.T? && Ordered(k, t)
    requires Exact(g, t.l, Lo(k, 0), t.id) && Exact(g, t.r, t.id + 1, Hi(k, UINT_MAX))
    ensures Fresh(g, k, t.id, Ptr(t.l), Ptr(t.r))
         == Gap(MaxGap(t.l, Lo(k, 0), t.id), MaxGap(t.r, t.id + 1, Hi(k, UINT_MAX)))
  {
    BstRange(t.l, Lo(k, 0), t.id);
    BstRange(t.r, t.id + 1, Hi(k, UINT_MAX));
    GapBelowExact(k, t.id, t.id);
    GapAboveExact(k, t.id, t.id);
  }

  /** Augmenting a node below which, and beside whose path, all is exact makes all exact. */
  lemma AugmentExact(g: Gaps, k: Ctx<Node>, t: Shape<Node>)
    requires t.T? && Apart(k, t) && Ordered(k, t) && Spine(k) <= g.Keys && Nearly(g, k, t)
    ensures GapsAt(Augmented(g, k, t.n, t.id, Ptr(t.l), Ptr(t.r)), k, t)
  {
    var lo, hi := Lo(k, 0), Hi(k, UINT_MAX);
    var f := Fresh(g, k, t.id, Ptr(t.l), Ptr(t.r));
    assert f == Gap(MaxGap(t.l, lo, t.id), MaxGap(t.r, t.id + 1, hi)) by { FreshExact(g, k, t); }
    var g2 := Climb(g[t.n := f], k, f.Top());
    ClimbFrom(g, k, t.n, f);
    assert Exact(g2, t, lo, hi) by { ExactRoot(g, g2, t, lo, hi); }
  }

  lemma ExactRoot(g: Gaps, g': Gaps, t: Shape<Node>, lo: nat, hi: nat)
    requires t.T? && Exact(g, t.l, lo, t.id) && Exact(g, t.r, t.id + 1, hi)
    requires t.n in g' && g'[t.n] == Gap(MaxGap(t.l, lo, t.id), MaxGap(t.r, t.id + 1, hi))
    requires forall n :: n in Nodes(t.l) + Nodes(t.r) && n in g ==> n in g' && g'[n] == g[n]
    ensures Exact(g', t, lo, hi)
  {
    ExactFrame(g, g', t.l, lo, t.id);
    ExactFrame(g, g', t.r, t.id + 1, hi);
  }

  lemma RotLOrdered(k: Ctx<Node>, t: Shape<Node>)
    requires t.T? && t.r.T? && Ordered(k, t)
    ensures Ordered(k, RotL(t)) && Ordered(InL(k, t.r.n, t.r.c, t.r.id, t.r.r), RotL(t).l)
  {
    assert Bst(t.r, t.id + 1, Hi(k, UINT_MAX));
    BstRange(t.l, Lo(k, 0), t.id);
    BstRange(t.r.l, t.id + 1, t.r.id);
  }

  lemma RotROrdered(k: Ctx<Node>, t: Shape<Node>)
    requires t.T? && t.l.T? && Ordered(k, t)
    ensures Ordered(k, RotR(t)) && Ordered(InR(k, t.l.l, t.l.n, t.l.c, t.l.id), RotR(t).r)
  {
    assert Bst(t.l, Lo(k, 0), t.id);
    BstRange(t.r, t.id + 1, Hi(k, UINT_MAX));
    BstRange(t.l.r, t.l.id + 1, t.id);
  }

  /** All is exact but the fields of the root of `t` and the near fields along the path. */
  ghost predicate Nearly(g: Gaps, k: Ctx<Node>, t: Shape<Node>)
    requires t.T?
  {
    && Off(g, k, 0, UINT_MAX)
    && Exact(g, t.l, Lo(k, 0), t.id) && Exact(g, t.r, t.id + 1, Hi(k, UINT_MAX))
  }

  /** After a rotation only the node that went down needs augmenting. */
  lemma RotLGaps(g: Gaps, k: Ctx<Node>, t: Shape<Node>)
    requires t.T? && t.r.T? && GapsAt(g, k, t)
    ensures Nearly(g, InL(k, t.r.n, t.r.c, t.r.id, t.r.r), RotL(t).l)
  {
    assert Exact(g, t.r, t.id + 1, Hi(k, UINT_MAX));
  }

  lemma RotRGaps(g: Gaps, k: Ctx<Node>, t: Shape<Node>)
    requires t.T? && t.l.T? && GapsAt(g, k, t)
    ensures Nearly(g, InR(k, t.l.l, t.l.n, t.l.c, t.l.id), RotR(t).r)
  {
    assert Exact(g, t.l, Lo(k, 0), t.id);
  }

  /** rb_rotateRight augments the untouched left child first; that does not disturb the
      node that went down to the right, which is augmented next. */
  lemma AugmentLeftFirst(g: Gaps, k: Ctx<Node>, a: Shape<Node>, y: Node, c: Color, id: nat, x: Shape<Node>)
    requires a.T? && x.T? && Ordered(k, T(a, y, c, id, x)) && Apart(k, T(a, y, c, id, x))
    requires Nearly(g, InR(k, a, y, c, id), x) && Spine(k) <= g.Keys
    requires (a.l.T? ==> a.l.n in g) && (a.r.T? ==> a.r.n in g)
    ensures Nearly(Augmented(g, InL(k, y, c, id, x), a.n, a.id, Ptr(a.l), Ptr(a.r)), InR(k, a, y, c, id), x)
  {
    var d := InL(k, y, c, id, x);
    OrderedUp(d, a);
    FreshExact(g, d, a);
    var f := Fresh(g, d, a.id, Ptr(a.l), Ptr(a.r));
    assert f == g[a.n];
    var h := Gap(f.Top(), g[y].r);
    var g1 := g[y := h];
    assert Climb(g[a.n := f], d, f.Top()) == Climb(g1, k, h.Top()) by { assert g[a.n := f] == g; }
    ClimbFrom(g, k, y, h);
    var g' := Climb(g1, k, h.Top());
    ExactFrame(g, g', a, Lo(k, 0), id);
    ExactFrame(g, g', x.l, id + 1, x.id);
    ExactFrame(g, g', x.r, x.id + 1, Hi(k, UINT_MAX));
  }
}
