/** Values behind the red-black tree of libphoenix/sys/rb.c: the shape of a subtree,
    the path from a subtree up to the root, and what search order, colouring and
    gaps between keys mean on them. The handle type `N` stands for a node address. */
module RbShape {
  import opened Powers

  datatype Color = Red | Black

  /** A subtree: left part, root node with its colour and key, right part. */
  datatype Shape<N> = E | T(l: Shape<N>, n: N, c: Color, id: nat, r: Shape<N>)

  /** A path from a hole up to the root. `InL` says the hole is the left child of `n`
      (whose right part is `r`), `InR` that it is the right child. */
  datatype Ctx<N> =
    | Top
    | InL(up: Ctx<N>, n: N, c: Color, id: nat, r: Shape<N>)
    | InR(up: Ctx<N>, l: Shape<N>, n: N, c: Color, id: nat)

  /** The keys are C `unsigned int` values; the last one is never handed out. */
  const UINT_MAX: nat := 0xFFFF_FFFF

  function Max(a: nat, b: nat): nat { if a > b then a else b }

  // ----- contents -----

  ghost function Nodes<N>(t: Shape<N>): set<N> {
    match t
    case E => {}
    case T(l, n, _, _, r) => {n} + Nodes(l) + Nodes(r)
  }

  ghost function CtxNodes<N>(k: Ctx<N>): set<N> {
    match k
    case Top => {}
    case InL(up, n, _, _, r) => {n} + Nodes(r) + CtxNodes(up)
    case InR(up, l, n, _, _) => {n} + Nodes(l) + CtxNodes(up)
  }

  ghost function Keys<N>(t: Shape<N>): set<nat> {
    match t
    case E => {}
    case T(l, _, _, id, r) => {id} + Keys(l) + Keys(r)
  }

  ghost function CtxKeys<N>(k: Ctx<N>): set<nat> {
    if k.Top? then {} else {k.id} + Keys(Sib(k)) + CtxKeys(k.up)
  }

  /** Which node holds which key. */
  ghost function Items<N>(t: Shape<N>): set<(N, nat)> {
    if t.E? then {} else {(t.n, t.id)} + Items(t.l) + Items(t.r)
  }

  ghost function CtxItems<N>(k: Ctx<N>): set<(N, nat)> {
    if k.Top? then {} else {(k.n, k.id)} + Items(Sib(k)) + CtxItems(k.up)
  }

  lemma {:induction false} ItemsAre<N>(t: Shape<N>)
    ensures Nodes(t) == set x | x in Items(t) :: x.0
    ensures Keys(t) == set x | x in Items(t) :: x.1
  {
    if t.T? {
      ItemsAre(t.l);
      ItemsAre(t.r);
      var i := Items(t);
      assert Items(t.l) <= i && Items(t.r) <= i && (t.n, t.id) in i;
    }
  }

  /** No node occurs twice. */
  ghost predicate Disj<N>(t: Shape<N>) {
    t.T? ==>
      && t.n !in Nodes(t.l) && t.n !in Nodes(t.r) && Nodes(t.l) !! Nodes(t.r)
      && Disj(t.l) && Disj(t.r)
  }

  ghost predicate DisjCtx<N>(k: Ctx<N>) {
    match k
    case Top => true
    case InL(up, n, _, _, r) =>
      n !in Nodes(r) && n !in CtxNodes(up) && Nodes(r) !! CtxNodes(up) && Disj(r) && DisjCtx(up)
    case InR(up, l, n, _, _) =>
      n !in Nodes(l) && n !in CtxNodes(up) && Nodes(l) !! CtxNodes(up) && Disj(l) && DisjCtx(up)
  }

  /** The subtree one level up from the hole of `k`. */
  ghost function Fill<N>(k: Ctx<N>, t: Shape<N>): Shape<N>
    requires !k.Top?
  {
    match k
    case InL(_, n, c, id, r) => T(t, n, c, id, r)
    case InR(_, l, n, c, id) => T(l, n, c, id, t)
  }

  /** The subtree on the other side of the node above the hole. */
  ghost function Sib<N>(k: Ctx<N>): Shape<N>
    requires !k.Top?
  {
    match k
    case InL(_, _, _, _, r) => r
    case InR(_, l, _, _, _) => l
  }

  /** The path from that subtree, once the hole holds `t`. */
  ghost function Other<N>(k: Ctx<N>, t: Shape<N>): Ctx<N>
    requires !k.Top?
  {
    match k
    case InL(up, n, c, id, _) => InR(up, t, n, c, id)
    case InR(up, _, n, c, id) => InL(up, n, c, id, t)
  }

  ghost function Plug<N>(k: Ctx<N>, t: Shape<N>): Shape<N>
    decreases k
  {
    match k
    case Top => t
    case InL(up, n, c, id, r) => Plug(up, T(t, n, c, id, r))
    case InR(up, l, n, c, id) => Plug(up, T(l, n, c, id, t))
  }

  /** The path `a` followed by the path `b`. */
  ghost function Cat<N>(a: Ctx<N>, b: Ctx<N>): Ctx<N> {
    match a
    case Top => b
    case InL(up, n, c, id, r) => InL(Cat(up, b), n, c, id, r)
    case InR(up, l, n, c, id) => InR(Cat(up, b), l, n, c, id)
  }

  ghost function Depth<N>(k: Ctx<N>): nat {
    if k.Top? then 0 else 1 + Depth(k.up)
  }

  lemma {:induction false} PlugCat<N>(a: Ctx<N>, b: Ctx<N>, t: Shape<N>)
    ensures Plug(Cat(a, b), t) == Plug(b, Plug(a, t))
    decreases a
  {
    match a
    case Top =>
    case InL(up, n, c, id, r) => PlugCat(up, b, T(t, n, c, id, r));
    case InR(up, l, n, c, id) => PlugCat(up, b, T(l, n, c, id, t));
  }

  lemma {:induction false} PlugNodes<N>(k: Ctx<N>, t: Shape<N>)
    ensures Nodes(Plug(k, t)) == CtxNodes(k) + Nodes(t)
    decreases k
  {
    match k
    case Top =>
    case InL(up, n, c, id, r) => PlugNodes(up, T(t, n, c, id, r));
    case InR(up, l, n, c, id) => PlugNodes(up, T(l, n, c, id, t));
  }

  lemma {:induction false} PlugItems<N>(k: Ctx<N>, t: Shape<N>)
    ensures Items(Plug(k, t)) == CtxItems(k) + Items(t)
    ensures Keys(Plug(k, t)) == CtxKeys(k) + Keys(t)
    decreases k
  {
    if !k.Top? { PlugItems(k.up, Fill(k, t)); }
  }

  lemma {:induction false} CatItems<N>(a: Ctx<N>, b: Ctx<N>)
    ensures CtxItems(Cat(a, b)) == CtxItems(a) + CtxItems(b)
  {
    if !a.Top? { CatItems(a.up, b); }
  }

  lemma {:induction false} ItemNodes<N>(t: Shape<N>, n: N, id: nat)
    requires (n, id) in Items(t)
    ensures n in Nodes(t)
  {
    if (n, id) in Items(t.l) { ItemNodes(t.l, n, id); }
    if (n, id) in Items(t.r) { ItemNodes(t.r, n, id); }
  }

  lemma {:induction false} CtxItemNodes<N>(k: Ctx<N>, n: N, id: nat)
    requires (n, id) in CtxItems(k)
    ensures n in CtxNodes(k)
  {
    if (n, id) in Items(Sib(k)) { ItemNodes(Sib(k), n, id); }
    if (n, id) in CtxItems(k.up) { CtxItemNodes(k.up, n, id); }
  }

  /** The path to a node of a tree. */
  lemma {:induction false} Locate<N>(t: Shape<N>, n: N) returns (k: Ctx<N>, s: Shape<N>)
    requires n in Nodes(t)
    ensures s.T? && s.n == n && Plug(k, s) == t
  {
    if t.n == n {
      k, s := Top, t;
    } else if n in Nodes(t.l) {
      k, s := Locate(t.l, n);
      PlugCat(k, InL(Top, t.n, t.c, t.id, t.r), s);
      k := Cat(k, InL(Top, t.n, t.c, t.id, t.r));
    } else {
      k, s := Locate(t.r, n);
      PlugCat(k, InR(Top, t.l, t.n, t.c, t.id), s);
      k := Cat(k, InR(Top, t.l, t.n, t.c, t.id));
    }
  }

  // ----- search order -----

  /** Keys increase from left to right and lie in [lo, hi). */
  ghost predicate Bst<N>(t: Shape<N>, lo: nat, hi: nat) {
    match t
    case E => lo <= hi
    case T(l, _, _, id, r) => Bst(l, lo, id) && Bst(r, id + 1, hi)
  }

  /** The key range left for the hole of `k` when the whole tree has range [lo, hi). */
  ghost function Lo<N>(k: Ctx<N>, lo: nat): nat {
    match k
    case Top => lo
    case InL(up, _, _, _, _) => Lo(up, lo)
    case InR(_, _, _, _, id) => id + 1
  }

  ghost function Hi<N>(k: Ctx<N>, hi: nat): nat {
    match k
    case Top => hi
    case InL(_, _, _, id, _) => id
    case InR(up, _, _, _, _) => Hi(up, hi)
  }

  ghost predicate CtxBst<N>(k: Ctx<N>, lo: nat, hi: nat) {
    match k
    case Top => true
    case InL(up, _, _, id, r) => Bst(r, id + 1, Hi(up, hi)) && Lo(up, lo) <= id && CtxBst(up, lo, hi)
    case InR(up, l, _, _, id) => Bst(l, Lo(up, lo), id) && id < Hi(up, hi) && CtxBst(up, lo, hi)
  }

  lemma {:induction false} BstRange<N>(t: Shape<N>, lo: nat, hi: nat)
    requires Bst(t, lo, hi)
    ensures lo <= hi
    ensures forall x :: x in Keys(t) ==> lo <= x < hi
  {
    if t.T? {
      BstRange(t.l, lo, t.id);
      BstRange(t.r, t.id + 1, hi);
    }
  }

  lemma {:induction false} BstPlug<N>(k: Ctx<N>, t: Shape<N>, lo: nat, hi: nat)
    ensures Bst(Plug(k, t), lo, hi) <==> CtxBst(k, lo, hi) && Bst(t, Lo(k, lo), Hi(k, hi))
    decreases k
  {
    match k
    case Top =>
    case InL(up, n, c, id, r) =>
      BstPlug(up, T(t, n, c, id, r), lo, hi);
      if Bst(t, Lo(up, lo), id) { BstRange(t, Lo(up, lo), id); }
    case InR(up, l, n, c, id) =>
      BstPlug(up, T(l, n, c, id, t), lo, hi);
      if Bst(t, id + 1, Hi(up, hi)) { BstRange(t, id + 1, Hi(up, hi)); }
  }

  /** A key in the range of the hole is nowhere on the path or beside it. */
  lemma {:induction false} CtxKeysOutside<N>(k: Ctx<N>, lo: nat, hi: nat, x: nat)
    requires CtxBst(k, lo, hi) && Lo(k, lo) <= x < Hi(k, hi)
    ensures x !in CtxKeys(k)
  {
    match k
    case Top =>
    case InL(up, _, _, id, r) =>
      BstRange(r, id + 1, Hi(up, hi));
      CtxKeysOutside(up, lo, hi, x);
    case InR(up, l, _, _, id) =>
      BstRange(l, Lo(up, lo), id);
      CtxKeysOutside(up, lo, hi, x);
  }

  // ----- colouring -----

  ghost predicate IsRed<N>(t: Shape<N>) { t.T? && t.c == Red }

  ghost predicate RedTop<N>(k: Ctx<N>) { !k.Top? && k.c == Red }

  /** Number of black nodes on the leftmost path. */
  ghost function Bh<N>(t: Shape<N>): nat {
    if t.E? then 0 else Bh(t.l) + (if t.c == Black then 1 else 0)
  }

  /** Every path down has the same number of black nodes. */
  ghost predicate Balanced<N>(t: Shape<N>) {
    t.T? ==> Bh(t.l) == Bh(t.r) && Balanced(t.l) && Balanced(t.r)
  }

  /** No red node has a red child. */
  ghost predicate NoRedRed<N>(t: Shape<N>) {
    t.T? ==> (t.c == Red ==> !IsRed(t.l) && !IsRed(t.r)) && NoRedRed(t.l) && NoRedRed(t.r)
  }

  ghost predicate IsRb<N>(t: Shape<N>) {
    Balanced(t) && NoRedRed(t) && !IsRed(t)
  }

  /** A subtree of black height `h` in the hole makes the tree balanced. */
  ghost predicate CtxBalanced<N>(k: Ctx<N>, h: nat) {
    match k
    case Top => true
    case InL(up, _, c, _, r) =>
      Bh(r) == h && Balanced(r) && CtxBalanced(up, if c == Black then h + 1 else h)
    case InR(up, l, _, c, _) =>
      Bh(l) == h && Balanced(l) && CtxBalanced(up, if c == Black then h + 1 else h)
  }

  /** No red node of the path has a red child outside the hole. */
  ghost predicate CtxNoRedRed<N>(k: Ctx<N>) {
    match k
    case Top => true
    case InL(up, _, c, _, r) =>
      NoRedRed(r) && (c == Red ==> !IsRed(r) && !RedTop(up)) && CtxNoRedRed(up)
    case InR(up, l, _, c, _) =>
      NoRedRed(l) && (c == Red ==> !IsRed(l) && !RedTop(up)) && CtxNoRedRed(up)
  }

  lemma {:induction false} BalancedPlug<N>(k: Ctx<N>, t: Shape<N>)
    ensures Balanced(Plug(k, t)) <==> Balanced(t) && CtxBalanced(k, Bh(t))
    decreases k
  {
    match k
    case Top =>
    case InL(up, n, c, id, r) => BalancedPlug(up, T(t, n, c, id, r));
    case InR(up, l, n, c, id) => BalancedPlug(up, T(l, n, c, id, t));
  }

  lemma {:induction false} NoRedRedPlug<N>(k: Ctx<N>, t: Shape<N>)
    ensures NoRedRed(Plug(k, t)) <==> NoRedRed(t) && CtxNoRedRed(k) && !(IsRed(t) && RedTop(k))
    decreases k
  {
    match k
    case Top =>
    case InL(up, n, c, id, r) => NoRedRedPlug(up, T(t, n, c, id, r));
    case InR(up, l, n, c, id) => NoRedRedPlug(up, T(l, n, c, id, t));
  }

  /** The colour of the root of the tree that `k` belongs to, `c` being that of the hole. */
  ghost function RootColor<N>(k: Ctx<N>, c: Color): Color {
    if k.Top? then c else RootColor(k.up, k.c)
  }

  ghost function ColorOf<N>(t: Shape<N>): Color { if t.E? then Black else t.c }

  lemma {:induction false} RootColorPlug<N>(k: Ctx<N>, t: Shape<N>)
    ensures ColorOf(Plug(k, t)) == RootColor(k, ColorOf(t))
    decreases k
  {
    match k
    case Top =>
    case InL(up, n, c, id, r) => RootColorPlug(up, T(t, n, c, id, r));
    case InR(up, l, n, c, id) => RootColorPlug(up, T(l, n, c, id, t));
  }

  ghost function Size<N>(t: Shape<N>): nat {
    if t.E? then 0 else Size(t.l) + 1 + Size(t.r)
  }

  ghost function Height<N>(t: Shape<N>): nat {
    if t.E? then 0 else 1 + Max(Height(t.l), Height(t.r))
  }

  /** What the colouring is for: the longest search is at most twice the base-two
      logarithm of the number of keys plus one. */
  lemma {:induction false} HeightBound<N>(t: Shape<N>)
    requires IsRb(t)
    ensures Height(t) <= 2 * Bh(t) && Pow(2, Bh(t)) <= Size(t) + 1
  {
    HeightBoundAt(t);
  }

  lemma {:induction false} HeightBoundAt<N>(t: Shape<N>)
    requires Balanced(t) && NoRedRed(t)
    ensures Height(t) <= 2 * Bh(t) + (if IsRed(t) then 1 else 0)
    ensures Pow(2, Bh(t)) <= Size(t) + 1
  {
    if t.T? {
      HeightBoundAt(t.l);
      HeightBoundAt(t.r);
    }
  }

  // ----- gaps between keys -----

  /** The largest run of unused keys in [lo, hi), read off the tree. */
  ghost function MaxGap<N>(t: Shape<N>, lo: nat, hi: nat): nat {
    match t
    case E => if lo <= hi then hi - lo else 0
    case T(l, _, _, id, r) => Max(MaxGap(l, lo, id), MaxGap(r, id + 1, hi))
  }

  /** All of [a, a + g) lies in [lo, hi) and outside `used`. */
  ghost predicate FreeRun(used: set<nat>, lo: nat, hi: nat, a: nat, g: nat) {
    lo <= a && a + g <= hi && forall x :: a <= x < a + g ==> x !in used
  }

  /** `g` is the length of the largest run of unused keys, from the plain key set. */
  ghost predicate IsLargestRun(used: set<nat>, lo: nat, hi: nat, g: nat) {
    && (exists a: nat :: FreeRun(used, lo, hi, a, g))
    && (forall a: nat, m: nat :: FreeRun(used, lo, hi, a, m) ==> m <= g)
  }

  lemma {:induction false} MaxGapIsLargestRun<N>(t: Shape<N>, lo: nat, hi: nat)
    requires Bst(t, lo, hi)
    ensures IsLargestRun(Keys(t), lo, hi, MaxGap(t, lo, hi))
  {
    match t
    case E =>
      assert FreeRun(Keys(t), lo, hi, lo, hi - lo);
    case T(l, n, c, id, r) =>
      BstRange(l, lo, id);
      BstRange(r, id + 1, hi);
      MaxGapIsLargestRun(l, lo, id);
      MaxGapIsLargestRun(r, id + 1, hi);
      var gl, gr := MaxGap(l, lo, id), MaxGap(r, id + 1, hi);
      var al :| FreeRun(Keys(l), lo, id, al, gl);
      var ar :| FreeRun(Keys(r), id + 1, hi, ar, gr);
      assert FreeRun(Keys(t), lo, hi, al, gl);
      assert FreeRun(Keys(t), lo, hi, ar, gr);
      forall a: nat, m: nat | FreeRun(Keys(t), lo, hi, a, m)
        ensures m <= Max(gl, gr)
      {
        assert id in Keys(t);
        if a + m <= id {
          assert FreeRun(Keys(l), lo, id, a, m);
        } else if a > id {
          assert FreeRun(Keys(r), id + 1, hi, a, m);
        }
      }
  }

  // ----- the ends of a tree -----

  ghost function First<N>(t: Shape<N>): (r: Shape<N>)
    requires t.T?
    ensures r.T?
  {
    if t.l.E? then t else First(t.l)
  }

  ghost function Last<N>(t: Shape<N>): (r: Shape<N>)
    requires t.T?
    ensures r.T?
  {
    if t.r.E? then t else Last(t.r)
  }
}
