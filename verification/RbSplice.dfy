/** The gap fields while a node is spliced out: lib_rbRemove augments in the middle of
    rewriting links, when some fields are stale, and what those calls leave behind. */
module RbSplice {
  import opened RbShape
  import opened RbMem
  import opened RbGaps

  ghost function LeftOf(k: Ctx<Node>, v: Link): Link
    requires !k.Top?
  {
    if k.InL? then v else Ptr(k.l)
  }

  ghost function RightOf(k: Ctx<Node>, v: Link): Link
    requires !k.Top?
  {
    if k.InL? then Ptr(k.r) else v
  }

  /** The far field of the node above the hole, as a run of the callback there finds it. */
  lemma FarExact(g: Gaps, k: Ctx<Node>, v: Link)
    requires !k.Top? && Off(g, k, 0, UINT_MAX) && CtxBst(k, 0, UINT_MAX)
    requires v != NULL ==> v in g
    requires (k.InL? && k.r.T? ==> k.r.n in g) && (k.InR? && k.l.T? ==> k.l.n in g)
    ensures var f := Fresh(g, k.up, k.id, LeftOf(k, v), RightOf(k, v));
      if k.InL? then f.r == g[k.n].r else f.l == g[k.n].l
  {
    if k.InL? {
      BstRange(k.r, k.id + 1, Hi(k.up, UINT_MAX));
      GapAboveExact(k.up, k.id, k.id);
    } else {
      BstRange(k.l, Lo(k.up, 0), k.id);
      GapBelowExact(k.up, k.id, k.id);
    }
  }

  /** The callback on the node above the hole while `v` is being put there. */
  lemma AugmentAbove(g: Gaps, k: Ctx<Node>, v: Link)
    requires !k.Top? && DisjCtx(k) && CtxNodes(k) <= g.Keys
    requires Off(g, k, 0, UINT_MAX) && CtxBst(k, 0, UINT_MAX)
    requires v != NULL ==> v in g
    requires (k.InL? && k.r.T? ==> k.r.n in g) && (k.InR? && k.l.T? ==> k.l.n in g)
    ensures var g' := Augmented(g, k.up, k.n, k.id, LeftOf(k, v), RightOf(k, v));
      && g'.Keys == g.Keys && Off(g', k, 0, UINT_MAX)
      && (forall x :: x in g && x !in CtxNodes(k) ==> g'[x] == g[x])
  {
    var f := Fresh(g, k.up, k.id, LeftOf(k, v), RightOf(k, v));
    FarExact(g, k, v);
    SpineIn(k.up);
    ClimbFrom(g, k.up, k.n, f);
    var g' := Climb(g[k.n := f], k.up, f.Top());
    if k.InL? { ExactFrame(g, g', k.r, k.id + 1, Hi(k.up, UINT_MAX)); }
    else { ExactFrame(g, g', k.l, Lo(k.up, 0), k.id); }
  }

  /** With nothing put there, that call alone makes everything exact. */
  lemma AugmentAboveEmpty(g: Gaps, k: Ctx<Node>)
    requires !k.Top? && Apart(k, E) && CtxNodes(k) <= g.Keys && Ordered(k, E)
    requires Off(g, k, 0, UINT_MAX)
    requires (k.InL? && k.r.T? ==> k.r.n in g) && (k.InR? && k.l.T? ==> k.l.n in g)
    ensures GapsAt(Augmented(g, k.up, k.n, k.id, LeftOf(k, NULL), RightOf(k, NULL)), k, E)
  {
    var g' := Augmented(g, k.up, k.n, k.id, LeftOf(k, NULL), RightOf(k, NULL));
    assert GapsAt(g', k.up, Fill(k, E)) by {
      OrderedUp(k, E);
      ApartUp(k, E);
      SpineIn(k.up);
      assert Nearly(g, k.up, Fill(k, E));
      AugmentExact(g, k.up, Fill(k, E));
    }
    GapsUp(g', k, E);
  }

  // ----- climbing through a stretch of the path -----

  /** The value carried past the end of a climb. */
  ghost function Out(g: Gaps, k: Ctx<Node>, v: nat): nat
    decreases k
  {
    if k.Top? || k.n !in g then v
    else var f := Near(g, k, v); Out(g[k.n := f], k.up, f.Top())
  }

  lemma {:induction false} ClimbCat(g: Gaps, a: Ctx<Node>, b: Ctx<Node>, v: nat)
    requires Spine(a) <= g.Keys
    ensures Climb(g, Cat(a, b), v) == Climb(Climb(g, a, v), b, Out(g, a, v))
    decreases a
  {
    if !a.Top? {
      var f := Near(g, a, v);
      ClimbCat(g[a.n := f], a.up, b, f.Top());
    }
  }

  /** Climbing to the top of a subtree whose only inexact fields lie on the way makes it exact. */
  lemma {:induction false} ClimbExact(g: Gaps, a: Ctx<Node>, m: Shape<Node>, lo: nat, hi: nat)
    requires Apart(a, m) && Spine(a) <= g.Keys
    requires Off(g, a, lo, hi) && Exact(g, m, Lo(a, lo), Hi(a, hi))
    ensures var v := MaxGap(m, Lo(a, lo), Hi(a, hi));
      && Exact(Climb(g, a, v), Plug(a, m), lo, hi)
      && Out(g, a, v) == MaxGap(Plug(a, m), lo, hi)
    decreases a
  {
    if !a.Top? {
      var v := MaxGap(m, Lo(a, lo), Hi(a, hi));
      var f := Near(g, a, v);
      var g1 := g[a.n := f];
      var t := Fill(a, m);
      assert Off(g1, a.up, lo, hi) by { OffFrame(g, g1, a.up, lo, hi); }
      assert Exact(g1, t, Lo(a.up, lo), Hi(a.up, hi)) by {
        ExactRoot(g, g1, t, Lo(a.up, lo), Hi(a.up, hi));
      }
      ApartUp(a, m);
      ClimbExact(g1, a.up, t, lo, hi);
    }
  }

  // ----- the leftmost and rightmost paths -----

  ghost predicate AllLeft<N>(k: Ctx<N>) { !k.Top? ==> k.InL? && AllLeft(k.up) }

  ghost predicate AllRight<N>(k: Ctx<N>) { !k.Top? ==> k.InR? && AllRight(k.up) }

  /** The far fields, and what lies beside, are exact along the leftmost path of `s`. */
  ghost predicate LeftOff(g: Gaps, s: Shape<Node>, hi: nat) {
    s.T? ==>
      && s.n in g && g[s.n].r == MaxGap(s.r, s.id + 1, hi)
      && Exact(g, s.r, s.id + 1, hi) && LeftOff(g, s.l, s.id)
  }

  lemma {:induction false} ExactLeftOff(g: Gaps, s: Shape<Node>, lo: nat, hi: nat)
    requires Exact(g, s, lo, hi)
    ensures LeftOff(g, s, hi)
  {
    if s.T? { ExactLeftOff(g, s.l, lo, s.id); }
  }

  lemma {:induction false} LeftOffFrame(g: Gaps, g': Gaps, s: Shape<Node>, hi: nat)
    requires LeftOff(g, s, hi)
    requires forall n :: n in Nodes(s) && n in g ==> n in g' && g'[n] == g[n]
    ensures LeftOff(g', s, hi)
  {
    if s.T? {
      ExactFrame(g, g', s.r, s.id + 1, hi);
      LeftOffFrame(g, g', s.l, s.id);
    }
  }

  lemma {:induction false} LeftOffPlug(g: Gaps, a: Ctx<Node>, m: Shape<Node>, lo: nat, hi: nat)
    requires AllLeft(a) && LeftOff(g, Plug(a, m), hi)
    ensures Off(g, a, lo, hi) && LeftOff(g, m, Hi(a, hi))
    decreases a
  {
    if !a.Top? { LeftOffPlug(g, a.up, Fill(a, m), lo, hi); }
  }

  /** Along the rightmost path exactness of the far fields does not depend on the upper bound. */
  lemma {:induction false} RightOffPlug(g: Gaps, a: Ctx<Node>, m: Shape<Node>, lo: nat, hi: nat, hi': nat)
    requires AllRight(a) && Exact(g, Plug(a, m), lo, hi)
    ensures Off(g, a, lo, hi') && Exact(g, m, Lo(a, lo), hi) && Hi(a, hi') == hi'
    decreases a
  {
    if !a.Top? { RightOffPlug(g, a.up, Fill(a, m), lo, hi, hi'); }
  }

  lemma {:induction false} OffCat(g: Gaps, a: Ctx<Node>, b: Ctx<Node>, lo: nat, hi: nat)
    ensures Off(g, Cat(a, b), lo, hi) <==> Off(g, a, Lo(b, lo), Hi(b, hi)) && Off(g, b, lo, hi)
    ensures Lo(Cat(a, b), lo) == Lo(a, Lo(b, lo)) && Hi(Cat(a, b), hi) == Hi(a, Hi(b, hi))
  {
    if !a.Top? { OffCat(g, a.up, b, lo, hi); }
  }

  // ----- the last two calls of the callback in lib_rbRemove -----

  /** The callback at the foot of a path inside a subtree makes the subtree exact. */
  lemma AugmentWithin(g: Gaps, a: Ctx<Node>, m: Shape<Node>, lo: nat, hi: nat, f: Gap)
    requires m.T? && Disj(Plug(a, m)) && Spine(a) <= g.Keys
    requires Off(g, a, lo, hi)
    requires Exact(g, m.l, Lo(a, lo), m.id) && Exact(g, m.r, m.id + 1, Hi(a, hi))
    requires f == Gap(MaxGap(m.l, Lo(a, lo), m.id), MaxGap(m.r, m.id + 1, Hi(a, hi)))
    ensures var g' := Climb(g[m.n := f], a, f.Top());
      && g'.Keys == g.Keys + {m.n} && Exact(g', Plug(a, m), lo, hi)
      && Out(g[m.n := f], a, f.Top()) == MaxGap(Plug(a, m), lo, hi)
      && (forall x :: x in g && x !in Nodes(Plug(a, m)) ==> g'[x] == g[x])
  {
    CatTop(a);
    ApartCat(a, Top, m);
    SpineIn(a);
    PlugNodes(a, m);
    var g1 := g[m.n := f];
    ClimbKeeps(g1, a, f.Top());
    OffFrame(g, g1, a, lo, hi);
    ExactRoot(g, g1, m, Lo(a, lo), Hi(a, hi));
    ClimbExact(g1, a, m, lo, hi);
  }

  /** After the successor has taken the place of the removed node, the callback on the
      rightmost node of its left part makes that part exact. */
  lemma AugmentMaxOfLeft(g: Gaps, k: Ctx<Node>, s: Shape<Node>, h: nat, a: Ctx<Node>, m: Shape<Node>)
    requires s.T? && s.l == Plug(a, m) && AllRight(a) && m.T? && m.r.E?
    requires Apart(k, s) && Ordered(k, s) && Nodes(s) + CtxNodes(k) <= g.Keys
    requires Off(g, k, 0, UINT_MAX) && Exact(g, s.l, Lo(k, 0), h)
    requires m.l.T? ==> m.l.n in g
    ensures var g' := Augmented(g, Cat(a, InL(k, s.n, s.c, s.id, s.r)), m.n, m.id, Ptr(m.l), NULL);
      && g'.Keys == g.Keys && Exact(g', s.l, Lo(k, 0), s.id)
      && g'[s.n] == Gap(MaxGap(s.l, Lo(k, 0), s.id), g[s.n].r)
      && Off(g', k, 0, UINT_MAX) && Path(g', k, g'[s.n].Top())
      && (forall x :: x in Nodes(s.r) ==> g'[x] == g[x])
  {
    var d, lo := InL(k, s.n, s.c, s.id, s.r), Lo(k, 0);
    var f := Fresh(g, Cat(a, d), m.id, Ptr(m.l), NULL);
    MaxOfLeftFresh(g, k, s, h, a, m);
    PlugNodes(a, m);
    SpineIn(a);
    AugmentWithin(g, a, m, lo, s.id, f);
    var g1, v := g[m.n := f], f.Top();
    var g2, w := Climb(g1, a, v), Out(g1, a, v);
    ClimbCat(g1, a, d, v);
    SettleAbove(g, g2, k, s, w);
    ExactFrame(g2, Climb(g2, d, w), s.l, lo, s.id);
  }

  lemma MaxOfLeftFresh(g: Gaps, k: Ctx<Node>, s: Shape<Node>, h: nat, a: Ctx<Node>, m: Shape<Node>)
    requires s.T? && s.l == Plug(a, m) && AllRight(a) && m.T? && m.r.E? && Ordered(k, s)
    requires Exact(g, s.l, Lo(k, 0), h) && (m.l.T? ==> m.l.n in g)
    ensures Off(g, a, Lo(k, 0), s.id) && Hi(a, s.id) == s.id
    ensures Exact(g, m.l, Lo(a, Lo(k, 0)), m.id) && Exact(g, m.r, m.id + 1, s.id)
    ensures Fresh(g, Cat(a, InL(k, s.n, s.c, s.id, s.r)), m.id, Ptr(m.l), NULL)
         == Gap(MaxGap(m.l, Lo(a, Lo(k, 0)), m.id), MaxGap(m.r, m.id + 1, s.id))
  {
    var d, lo := InL(k, s.n, s.c, s.id, s.r), Lo(k, 0);
    RightOffPlug(g, a, m, lo, h, s.id);
    OffCat(g, a, d, 0, UINT_MAX);
    OrderedUp(d, s.l);
    OrderedCat(a, d, m);
    FreshExact(g, Cat(a, d), m);
  }

  /** The rest of that climb: the successor's near field, then the path above it. */
  lemma SettleAbove(g: Gaps, g': Gaps, k: Ctx<Node>, s: Shape<Node>, w: nat)
    requires s.T? && Apart(k, s) && Nodes(s) + CtxNodes(k) <= g.Keys && g'.Keys == g.Keys
    requires forall x :: x in g && x !in Nodes(s.l) ==> g'[x] == g[x]
    requires Off(g, k, 0, UINT_MAX)
    ensures var g'' := Climb(g', InL(k, s.n, s.c, s.id, s.r), w);
      && g''.Keys == g.Keys && g''[s.n] == Gap(w, g[s.n].r)
      && Off(g'', k, 0, UINT_MAX) && Path(g'', k, g''[s.n].Top())
      && (forall x :: x in Nodes(s.r) ==> g''[x] == g[x])
      && (forall x :: x in Nodes(s.l) ==> g''[x] == g'[x])
  {
    OffFrame(g, g', k, 0, UINT_MAX);
    SpineIn(k);
    ClimbFrom(g', k, s.n, Gap(w, g'[s.n].r));
  }

  lemma MinOfRightAt(k: Ctx<Node>, s: Shape<Node>, a: Ctx<Node>, m: Shape<Node>)
    requires s.T? && s.r == Plug(a, m)
    ensures var kd := Cat(a, InR(k, s.l, s.n, s.c, s.id));
      (Apart(kd, m) <==> Apart(k, s)) && (Ordered(kd, m) <==> Ordered(k, s))
  {
    var d := InR(k, s.l, s.n, s.c, s.id);
    ApartUp(d, s.r);
    ApartCat(a, d, m);
    OrderedUp(d, s.r);
    OrderedCat(a, d, m);
  }

  lemma MinOfRightNearly(g: Gaps, k: Ctx<Node>, s: Shape<Node>, a: Ctx<Node>, m: Shape<Node>)
    requires s.T? && s.r == Plug(a, m) && AllLeft(a) && m.T? && m.l.E? && s.n in g
    requires Off(g, k, 0, UINT_MAX) && Exact(g, s.l, Lo(k, 0), s.id)
    requires g[s.n].l == MaxGap(s.l, Lo(k, 0), s.id) && LeftOff(g, s.r, Hi(k, UINT_MAX))
    ensures Nearly(g, Cat(a, InR(k, s.l, s.n, s.c, s.id)), m)
  {
    LeftOffPlug(g, a, m, s.id + 1, Hi(k, UINT_MAX));
    OffCat(g, a, InR(k, s.l, s.n, s.c, s.id), 0, UINT_MAX);
  }
}
