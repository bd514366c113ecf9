/** Memory as a map from node addresses to their fields: how the links, colours and keys
    of `rbnode_t` records represent a shape, and how the links written by a rotation or a transplant
    change that shape. */
module RbMem {
  import opened RbShape

  /** A C pointer to a node: an address, or the null pointer. */
  type Link = nat

  const NULL: Link := 0

  type Node = a: Link | a != NULL witness 1

  /** The link, colour and key fields of one node. */
  datatype Cell = Cell(parent: Link, left: Link, right: Link, color: Color, id: nat)

  type Mem = map<Node, Cell>

  ghost function Ptr(t: Shape<Node>): Link { if t.E? then NULL else t.n }

  ghost function Par(k: Ctx<Node>): Link { if k.Top? then NULL else k.n }

  /** The cells of `t` carry it; `par` is above its root. */
  ghost predicate Rep(m: Mem, t: Shape<Node>, par: Link) {
    t.T? ==>
      && t.n in m && m[t.n] == Cell(par, Ptr(t.l), Ptr(t.r), t.c, t.id)
      && Rep(m, t.l, t.n) && Rep(m, t.r, t.n)
  }

  /** The cells on and beside the path `k` carry it, with `hole` below and `root` at its end. */
  ghost predicate RepCtx(m: Mem, k: Ctx<Node>, hole: Link, root: Link) {
    match k
    case Top => hole == root
    case InL(up, n, c, id, r) =>
      && n in m && m[n] == Cell(Par(up), hole, Ptr(r), c, id)
      && Rep(m, r, n) && RepCtx(m, up, n, root)
    case InR(up, l, n, c, id) =>
      && n in m && m[n] == Cell(Par(up), Ptr(l), hole, c, id)
      && Rep(m, l, n) && RepCtx(m, up, n, root)
  }

  /** No node occurs twice in `t` in the hole of `k`. */
  ghost predicate Apart(k: Ctx<Node>, t: Shape<Node>) {
    DisjCtx(k) && Disj(t) && CtxNodes(k) !! Nodes(t)
  }

  /** The tree below `root` is `t` in the hole of `k`. */
  ghost predicate At(m: Mem, root: Link, k: Ctx<Node>, t: Shape<Node>) {
    RepCtx(m, k, Ptr(t), root) && Rep(m, t, Par(k)) && Apart(k, t)
  }

  /** `node` hangs in the hole of `k`. */
  ghost predicate Under(m: Mem, root: Link, node: Node, k: Ctx<Node>) {
    && node in m && m[node].parent == Par(k)
    && RepCtx(m, k, node, root) && DisjCtx(k) && node !in CtxNodes(k)
  }

  lemma UnderUp(m: Mem, root: Link, node: Node, k: Ctx<Node>)
    requires Under(m, root, node, k) && !k.Top?
    ensures Under(m, root, k.n, k.up) && k.n != node && m[node].parent == k.n && m[k.n].id == k.id
    ensures m[k.n].left == node <==> k.InL?
    ensures m[k.n].right == node <==> k.InR?
  {
    if k.InL? && k.r.T? { assert k.r.n in Nodes(k.r); }
    if k.InR? && k.l.T? { assert k.l.n in Nodes(k.l); }
  }

  /** `m'` differs from `m` only at `ns`. */
  ghost predicate SameBut(m: Mem, m': Mem, ns: set<Node>) {
    m.Keys == m'.Keys && forall n :: n in m && n !in ns ==> m'[n] == m[n]
  }

  lemma {:induction false} RepFrame(m: Mem, m': Mem, t: Shape<Node>, par: Link)
    requires Rep(m, t, par)
    requires forall n :: n in Nodes(t) ==> n in m && n in m' && m'[n] == m[n]
    ensures Rep(m', t, par)
  {
    if t.T? {
      RepFrame(m, m', t.l, t.n);
      RepFrame(m, m', t.r, t.n);
    }
  }

  lemma {:induction false} RepCtxFrame(m: Mem, m': Mem, k: Ctx<Node>, hole: Link, root: Link)
    requires RepCtx(m, k, hole, root)
    requires forall n :: n in CtxNodes(k) ==> n in m && n in m' && m'[n] == m[n]
    ensures RepCtx(m', k, hole, root)
  {
    match k
    case Top =>
    case InL(up, n, c, id, r) => RepFrame(m, m', r, n); RepCtxFrame(m, m', up, n, root);
    case InR(up, l, n, c, id) => RepFrame(m, m', l, n); RepCtxFrame(m, m', up, n, root);
  }

  lemma {:induction false} RepDomain(m: Mem, t: Shape<Node>, par: Link)
    requires Rep(m, t, par)
    ensures Nodes(t) <= m.Keys
  {
    if t.T? {
      RepDomain(m, t.l, t.n);
      RepDomain(m, t.r, t.n);
    }
  }

  lemma {:induction false} RepCtxDomain(m: Mem, k: Ctx<Node>, hole: Link, root: Link)
    requires RepCtx(m, k, hole, root)
    ensures CtxNodes(k) <= m.Keys
  {
    match k
    case Top =>
    case InL(up, n, c, id, r) => RepDomain(m, r, n); RepCtxDomain(m, up, n, root);
    case InR(up, l, n, c, id) => RepDomain(m, l, n); RepCtxDomain(m, up, n, root);
  }

  lemma ApartUp(k: Ctx<Node>, t: Shape<Node>)
    requires !k.Top?
    ensures Apart(k, t) <==> Apart(k.up, Fill(k, t))
  {
  }

  lemma {:induction false} ApartCat(a: Ctx<Node>, b: Ctx<Node>, t: Shape<Node>)
    ensures Apart(Cat(a, b), t) <==> Apart(b, Plug(a, t))
    decreases a
  {
    if !a.Top? {
      ApartUp(Cat(a, b), t);
      ApartCat(a.up, b, Fill(a, t));
    }
  }

  lemma AtUnder(m: Mem, root: Link, k: Ctx<Node>, t: Shape<Node>)
    requires At(m, root, k, t) && t.T?
    ensures Under(m, root, t.n, k)
    ensures m[t.n] == Cell(Par(k), Ptr(t.l), Ptr(t.r), t.c, t.id)
    ensures (t.l.T? ==> t.l.n in m) && (t.r.T? ==> t.r.n in m)
  {
    assert Rep(m, t.l, t.n) && Rep(m, t.r, t.n);
  }

  /** The root pointer leads to the focus exactly when there is no path above it. */
  lemma RootAt(m: Mem, root: Link, k: Ctx<Node>, t: Shape<Node>)
    requires At(m, root, k, t)
    ensures k.Top? ==> root == Ptr(t)
    ensures !k.Top? ==> root != NULL && root != Ptr(t)
  {
    if !k.Top? { RootOnPath(m, k, Ptr(t), root); }
    if t.T? { assert t.n in Nodes(t); }
  }

  lemma {:induction false} RootOnPath(m: Mem, k: Ctx<Node>, hole: Link, root: Link)
    requires RepCtx(m, k, hole, root) && !k.Top?
    ensures root != NULL && root in CtxNodes(k)
  {
    if !k.up.Top? { RootOnPath(m, k.up, k.n, root); }
  }

  /** Moving the focus along a stretch of the path changes nothing. */
  lemma {:induction false} AtCat(m: Mem, root: Link, a: Ctx<Node>, b: Ctx<Node>, t: Shape<Node>)
    ensures At(m, root, Cat(a, b), t) <==> At(m, root, b, Plug(a, t))
    decreases a
  {
    match a
    case Top =>
    case InL(up, n, c, id, r) => AtCat(m, root, up, b, T(t, n, c, id, r));
    case InR(up, l, n, c, id) => AtCat(m, root, up, b, T(l, n, c, id, t));
  }

  lemma {:induction false} CatTop<N>(k: Ctx<N>)
    ensures Cat(k, Top) == k
  {
    if !k.Top? { CatTop(k.up); }
  }

  lemma AtPlug(m: Mem, root: Link, k: Ctx<Node>, t: Shape<Node>)
    ensures At(m, root, k, t) <==> At(m, root, Top, Plug(k, t))
  {
    CatTop(k);
    AtCat(m, root, k, Top, t);
  }

  // ----- writes at the focus -----

  /** Hanging a subtree below another node: only its root's parent link is written. */
  lemma Reparent(m: Mem, m': Mem, t: Shape<Node>, par: Link, par': Link)
    requires Rep(m, t, par) && Disj(t)
    requires t.T? ==> t.n in m' && m'[t.n] == m[t.n].(parent := par')
    requires forall n :: n in Nodes(t) && n != Ptr(t) ==> n in m && n in m' && m'[n] == m[n]
    ensures Rep(m', t, par')
  {
    if t.T? {
      RepFrame(m, m', t.l, t.n);
      RepFrame(m, m', t.r, t.n);
    }
  }

  /** The child link that leads to the hole is written, or the root pointer if there is none. */
  ghost predicate Relinked(m: Mem, m': Mem, root: Link, root': Link, k: Ctx<Node>, hole: Link) {
    match k
    case Top => root' == hole
    case InL(_, n, _, _, _) => root' == root && n in m && n in m' && m'[n] == m[n].(left := hole)
    case InR(_, _, n, _, _) => root' == root && n in m && n in m' && m'[n] == m[n].(right := hole)
  }

  lemma Relink(m: Mem, m': Mem, root: Link, root': Link, k: Ctx<Node>, hole: Link, hole': Link)
    requires RepCtx(m, k, hole, root) && DisjCtx(k)
    requires Relinked(m, m', root, root', k, hole')
    requires forall n :: n in CtxNodes(k) && n != Par(k) ==> n in m && n in m' && m'[n] == m[n]
    ensures RepCtx(m', k, hole', root')
  {
    match k
    case Top =>
    case InL(up, n, c, id, r) => RepFrame(m, m', r, n); RepCtxFrame(m, m', up, n, root);
    case InR(up, l, n, c, id) => RepFrame(m, m', l, n); RepCtxFrame(m, m', up, n, root);
  }

  lemma Repaint(m: Mem, root: Link, k: Ctx<Node>, t: Shape<Node>, c: Color)
    requires At(m, root, k, t) && t.T?
    ensures At(m[t.n := m[t.n].(color := c)], root, k, t.(c := c))
  {
    var m' := m[t.n := m[t.n].(color := c)];
    RepDomain(m, t, Par(k));
    RepCtxDomain(m, k, t.n, root);
    RepFrame(m, m', t.l, t.n);
    RepFrame(m, m', t.r, t.n);
    RepCtxFrame(m, m', k, t.n, root);
  }

  // ----- rotations -----

  ghost function RotL<N>(t: Shape<N>): Shape<N>
    requires t.T? && t.r.T?
  {
    T(T(t.l, t.n, t.c, t.id, t.r.l), t.r.n, t.r.c, t.r.id, t.r.r)
  }

  ghost function RotR<N>(t: Shape<N>): Shape<N>
    requires t.T? && t.l.T?
  {
    T(t.l.l, t.l.n, t.l.c, t.l.id, T(t.l.r, t.n, t.c, t.id, t.r))
  }

  ghost function Opt(n: Link): set<Node> { if n == NULL then {} else {n} }

  /** Which parts of a tree a rotation leaves alone. */
  lemma RotLApart(k: Ctx<Node>, t: Shape<Node>)
    requires t.T? && t.r.T? && Apart(k, t)
    ensures Apart(k, RotL(t)) && Nodes(RotL(t)) == Nodes(t) && Disj(t.r.l)
    ensures var w := {t.n, t.r.n} + Opt(Ptr(t.r.l)) + Opt(Par(k));
      && Nodes(t.l) !! w && Nodes(t.r.r) !! w
      && (Nodes(t.r.l) - Opt(Ptr(t.r.l))) !! w && (CtxNodes(k) - Opt(Par(k))) !! w
  {
    var x := T(t.l, t.n, t.c, t.id, t.r.l);
    assert Disj(t.r);
    assert Nodes(t.r) == {t.r.n} + Nodes(t.r.l) + Nodes(t.r.r);
    assert Nodes(x) == {t.n} + Nodes(t.l) + Nodes(t.r.l);
    assert Disj(x);
    assert t.r.l.T? ==> t.r.l.n in Nodes(t.r.l);
    assert !k.Top? ==> k.n in CtxNodes(k);
  }

  lemma RotRApart(k: Ctx<Node>, t: Shape<Node>)
    requires t.T? && t.l.T? && Apart(k, t)
    ensures Apart(k, RotR(t)) && Nodes(RotR(t)) == Nodes(t) && Disj(t.l.r)
    ensures var w := {t.n, t.l.n} + Opt(Ptr(t.l.r)) + Opt(Par(k));
      && Nodes(t.r) !! w && Nodes(t.l.l) !! w
      && (Nodes(t.l.r) - Opt(Ptr(t.l.r))) !! w && (CtxNodes(k) - Opt(Par(k))) !! w
  {
    var x := T(t.l.r, t.n, t.c, t.id, t.r);
    assert Disj(t.l);
    assert Nodes(t.l) == {t.l.n} + Nodes(t.l.r) + Nodes(t.l.l);
    assert Nodes(x) == {t.n} + Nodes(t.l.r) + Nodes(t.r);
    assert Disj(x);
    assert t.l.r.T? ==> t.l.r.n in Nodes(t.l.r);
    assert !k.Top? ==> k.n in CtxNodes(k);
  }

  lemma RotateLeftOk(m: Mem, m': Mem, root: Link, root': Link, k: Ctx<Node>, t: Shape<Node>)
    requires t.T? && t.r.T? && At(m, root, k, t) && t.r.n in m
    requires SameBut(m, m', {t.n, t.r.n} + Opt(Ptr(t.r.l)) + Opt(Par(k)))
    requires m'[t.n] == m[t.n].(right := Ptr(t.r.l), parent := t.r.n)
    requires m'[t.r.n] == m[t.r.n].(left := t.n, parent := Par(k))
    requires t.r.l.T? ==> t.r.l.n in m && m'[t.r.l.n] == m[t.r.l.n].(parent := t.n)
    requires Relinked(m, m', root, root', k, t.r.n)
    ensures At(m', root', k, RotL(t))
  {
    var a, x, b, y, c := t.l, t.n, t.r.l, t.r.n, t.r.r;
    RotLApart(k, t);
    RepDomain(m, t, Par(k));
    RepCtxDomain(m, k, x, root);
    assert Rep(m, t.r, x);
    assert Rep(m', a, x) by { RepFrame(m, m', a, x); }
    assert Rep(m', c, y) by { RepFrame(m, m', c, y); }
    assert Rep(m', b, x) by { Reparent(m, m', b, y, x); }
    assert RepCtx(m', k, y, root') by { Relink(m, m', root, root', k, x, y); }
  }

  lemma RotateRightOk(m: Mem, m': Mem, root: Link, root': Link, k: Ctx<Node>, t: Shape<Node>)
    requires t.T? && t.l.T? && At(m, root, k, t) && t.l.n in m
    requires SameBut(m, m', {t.n, t.l.n} + Opt(Ptr(t.l.r)) + Opt(Par(k)))
    requires m'[t.n] == m[t.n].(left := Ptr(t.l.r), parent := t.l.n)
    requires m'[t.l.n] == m[t.l.n].(right := t.n, parent := Par(k))
    requires t.l.r.T? ==> t.l.r.n in m && m'[t.l.r.n] == m[t.l.r.n].(parent := t.n)
    requires Relinked(m, m', root, root', k, t.l.n)
    ensures At(m', root', k, RotR(t))
  {
    var c, x, b, y, a := t.r, t.n, t.l.r, t.l.n, t.l.l;
    RotRApart(k, t);
    RepDomain(m, t, Par(k));
    RepCtxDomain(m, k, x, root);
    assert Rep(m, t.l, x);
    assert Rep(m', c, x) by { RepFrame(m, m', c, x); }
    assert Rep(m', a, y) by { RepFrame(m, m', a, y); }
    assert Rep(m', b, x) by { Reparent(m, m', b, y, x); }
    assert RepCtx(m', k, y, root') by { Relink(m, m', root, root', k, x, y); }
  }
}
