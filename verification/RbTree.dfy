/** The red-black tree of libphoenix/sys/rb.c as it works in place on nodes with parent
    links, firing the augmentation callback where rb.c fires it. */
module RbTree {
  import opened RbShape
  import opened RbMem
  import opened RbGaps
  import opened RbInsert
  import Rm = RbRemove
  import opened RbSplice

  lemma SibIn<N>(k: Ctx<N>)
    requires !k.Top?
    ensures Sib(k).T? ==> Sib(k).n in CtxNodes(k)
  {
  }

  lemma ChildrenIn<N>(t: Shape<N>)
    requires t.T?
    ensures (t.l.T? ==> t.l.n in Nodes(t)) && (t.r.T? ==> t.r.n in Nodes(t))
  {
  }

  /** Keys are compared through a C `int` difference, which orders them only below this. */
  const ID_LIMIT: nat := 0x8000_0000

  /** idtree_cmp: the unsigned difference taken as a C `int`. */
  function Compare(a: nat, b: nat): int {
    var d := (a - b) % 0x1_0000_0000;
    if d < 0x8000_0000 then d else d - 0x1_0000_0000
  }

  lemma CompareOrders(a: nat, b: nat)
    requires a < ID_LIMIT && b <= ID_LIMIT
    ensures Compare(a, b) == a - b
  {
  }

  /** `rbtree_t` and the memory its nodes live in: their link, colour and key fields
      in `cells`, the fields the callback maintains in `gaps`. */
  class Tree {
    var root: Link
    var cells: Mem
    var gaps: Gaps
    const augment: bool
    ghost var shape: Shape<Node>

    /** The whole tree is a red-black search tree over exactly the nodes in memory, its keys
        fit a C `int`, and with a callback installed every gap field is exact. */
    ghost predicate Valid()
      reads this
    {
      Sound() && forall x :: x in Keys(shape) ==> x < ID_LIMIT
    }

    /** The same, whatever its keys. */
    ghost predicate Sound()
      reads this
    {
      Good(Top, shape) && IsRb(shape) && Nodes(shape) == cells.Keys
    }

    /** `t` sits in the hole of `k`, keys in order; with a callback installed the gaps are exact. */
    ghost predicate Good(k: Ctx<Node>, t: Shape<Node>)
      reads this
    {
      && At(cells, root, k, t) && Ordered(k, t) && cells.Keys == gaps.Keys
      && (augment ==> GapsAt(gaps, k, t))
    }

    lemma GoodUp(k: Ctx<Node>, t: Shape<Node>)
      requires !k.Top?
      ensures Good(k, t) <==> Good(k.up, Fill(k, t))
    {
      OrderedUp(k, t);
    }

    lemma GoodPlug(k: Ctx<Node>, t: Shape<Node>)
      ensures Good(k, t) <==> Good(Top, Plug(k, t))
    {
      AtPlug(cells, root, k, t);
      GapsPlug(gaps, k, t);
      CatTop(k);
      OrderedCat(k, Top, t);
    }

    /** The first walk of idtree_augment. */
    method WalkLeft(node: Node, ghost k: Ctx<Node>) returns (p: Node)
      requires Under(cells, root, node, k)
      ensures p in cells && cells[p].id == LastLeft(k, cells[node].id)
    {
      p := node;
      var it: Node := node;
      ghost var up := k;
      while cells[it].parent != NULL
        invariant p in cells && Under(cells, root, it, up)
        invariant LastLeft(up, cells[p].id) == LastLeft(k, cells[node].id)
        decreases up
      {
        UnderUp(cells, root, it, up);
        p := cells[it].parent;
        if cells[p].right == it {
          break;
        }
        it := p;
        up := up.up;
      }
    }

    /** The second walk of idtree_augment. */
    method WalkRight(node: Node, ghost k: Ctx<Node>) returns (p: Node)
      requires Under(cells, root, node, k)
      ensures p in cells && cells[p].id == LastRight(k, cells[node].id)
    {
      p := node;
      var it: Node := node;
      ghost var up := k;
      while cells[it].parent != NULL
        invariant p in cells && Under(cells, root, it, up)
        invariant LastRight(up, cells[p].id) == LastRight(k, cells[node].id)
        decreases up
      {
        UnderUp(cells, root, it, up);
        p := cells[it].parent;
        if cells[p].left == it {
          break;
        }
        it := p;
        up := up.up;
      }
    }

    /** The last loop of idtree_augment. */
    method Refresh(node: Node, ghost k: Ctx<Node>)
      requires Under(cells, root, node, k) && cells.Keys == gaps.Keys
      modifies this`gaps
      ensures gaps == Climb(old(gaps), k, old(gaps)[node].Top())
    {
      var it: Node := node;
      ghost var up := k;
      while cells[it].parent != NULL
        invariant Under(cells, root, it, up) && cells.Keys == gaps.Keys
        invariant Climb(gaps, up, gaps[it].Top()) == Climb(old(gaps), k, old(gaps)[node].Top())
        decreases up
      {
        UnderUp(cells, root, it, up);
        var p: Node := cells[it].parent;
        if cells[p].left == it {
          gaps := gaps[p := Gap(gaps[it].Top(), gaps[p].r)];
        } else {
          gaps := gaps[p := Gap(gaps[p].l, gaps[it].Top())];
        }
        it := p;
        up := up.up;
      }
    }

    /** idtree_augment: recompute both fields of `node`, then refresh every ancestor. */
    method Augment(node: Node, ghost k: Ctx<Node>)
      requires Under(cells, root, node, k) && cells.Keys == gaps.Keys
      requires cells[node].left != NULL ==> cells[node].left in gaps
      requires cells[node].right != NULL ==> cells[node].right in gaps
      modifies this`gaps
      ensures gaps == Augmented(old(gaps), k, node, cells[node].id, cells[node].left, cells[node].right)
    {
      var lg, rg;
      var c := cells[node];
      if c.left == NULL {
        var p := WalkLeft(node, k);
        lg := GapBelow(c.id, cells[p].id);
      } else {
        lg := Max(gaps[c.left].l, gaps[c.left].r);
      }
      if c.right == NULL {
        var p := WalkRight(node, k);
        rg := GapAbove(c.id, cells[p].id);
      } else {
        rg := Max(gaps[c.right].l, gaps[c.right].r);
      }
      gaps := gaps[node := Gap(lg, rg)];
      Refresh(node, k);
    }

    method RbAugment(node: Link, ghost k: Ctx<Node>)
      requires cells.Keys == gaps.Keys
      requires node != NULL ==> Under(cells, root, node, k)
      requires node != NULL ==> cells[node].left == NULL || cells[node].left in gaps
      requires node != NULL ==> cells[node].right == NULL || cells[node].right in gaps
      modifies this`gaps
      ensures gaps == if node == NULL || !augment then old(gaps)
                      else Augmented(old(gaps), k, node, cells[node].id, cells[node].left, cells[node].right)
    {
      if node == NULL {
        return;
      }
      if augment {
        Augment(node, k);
      }
    }

    /** rb_augment at the focus repairs the fields there and along the path. */
    method AugmentAt(node: Node, ghost k: Ctx<Node>, ghost t: Shape<Node>)
      requires t.T? && node == t.n && At(cells, root, k, t) && Ordered(k, t)
      requires cells.Keys == gaps.Keys && (augment ==> Nearly(gaps, k, t))
      modifies this`gaps
      ensures Good(k, t)
    {
      AtUnder(cells, root, k, t);
      RepCtxDomain(cells, k, node, root);
      SpineIn(k);
      if augment { AugmentExact(gaps, k, t); }
      RbAugment(node, k);
      var f := Fresh(old(gaps), k, t.id, Ptr(t.l), Ptr(t.r));
      ClimbKeeps(old(gaps)[t.n := f], k, f.Top());
    }

    /** The links written by rb_rotateLeft. */
    method LinkLeft(x: Node, ghost k: Ctx<Node>, ghost t: Shape<Node>)
      requires t.T? && t.n == x && t.r.T? && At(cells, root, k, t)
      modifies this`root, this`cells
      ensures cells.Keys == old(cells.Keys) && At(cells, root, k, RotL(t))
    {
      ghost var m := cells;
      assert Rep(m, t.r, x);
      RepDomain(m, t, Par(k));
      RepCtxDomain(m, k, x, root);
      RotLApart(k, t);
      var y: Node := cells[x].right;
      var b := cells[y].left;
      cells := cells[x := cells[x].(right := b)];
      if b != NULL {
        cells := cells[b := cells[b].(parent := x)];
      }
      var p := cells[x].parent;
      cells := cells[y := cells[y].(parent := p)];
      if p == NULL {
        root := y;
      } else if cells[p].left == x {
        cells := cells[p := cells[p].(left := y)];
      } else {
        cells := cells[p := cells[p].(right := y)];
      }
      cells := cells[y := cells[y].(left := x)];
      cells := cells[x := cells[x].(parent := y)];
      RotateLeftOk(m, cells, old(root), root, k, t);
    }

    method RotateLeft(x: Node, ghost k: Ctx<Node>, ghost t: Shape<Node>)
      requires t.T? && t.n == x && t.r.T? && Good(k, t)
      modifies this
      ensures cells.Keys == old(cells.Keys) && Good(k, RotL(t))
    {
      AtUnder(cells, root, k, t);
      var y: Node := cells[x].right;
      LinkLeft(x, k, t);
      ghost var u := RotL(t);
      ghost var kl, kr := InL(k, y, u.c, u.id, u.r), InR(k, u.l, y, u.c, u.id);
      RotLOrdered(k, t);
      if augment { RotLGaps(gaps, k, t); }
      AtUnder(cells, root, k, u);
      AugmentAt(cells[y].left, kl, u.l);
      GoodUp(kl, u.l);
      GoodUp(kr, u.r);
      if cells[y].right != NULL {
        AugmentAt(cells[y].right, kr, u.r);
        GoodUp(kr, u.r);
      }
    }

    /** The links written by rb_rotateRight. */
    method LinkRight(x: Node, ghost k: Ctx<Node>, ghost t: Shape<Node>)
      requires t.T? && t.n == x && t.l.T? && At(cells, root, k, t)
      modifies this`root, this`cells
      ensures cells.Keys == old(cells.Keys) && At(cells, root, k, RotR(t))
    {
      ghost var m := cells;
      assert Rep(m, t.l, x);
      RepDomain(m, t, Par(k));
      RepCtxDomain(m, k, x, root);
      RotRApart(k, t);
      var y: Node := cells[x].left;
      var b := cells[y].right;
      cells := cells[x := cells[x].(left := b)];
      if b != NULL {
        cells := cells[b := cells[b].(parent := x)];
      }
      var p := cells[x].parent;
      cells := cells[y := cells[y].(parent := p)];
      if p == NULL {
        root := y;
      } else if cells[p].right == x {
        cells := cells[p := cells[p].(right := y)];
      } else {
        cells := cells[p := cells[p].(left := y)];
      }
      cells := cells[y := cells[y].(right := x)];
      cells := cells[x := cells[x].(parent := y)];
      RotateRightOk(m, cells, old(root), root, k, t);
    }

    method RotateRight(x: Node, ghost k: Ctx<Node>, ghost t: Shape<Node>)
      requires t.T? && t.n == x && t.l.T? && Good(k, t)
      modifies this
      ensures cells.Keys == old(cells.Keys) && Good(k, RotR(t))
    {
      AtUnder(cells, root, k, t);
      var y: Node := cells[x].left;
      LinkRight(x, k, t);
      ghost var u := RotR(t);
      ghost var kl, kr := InL(k, y, u.c, u.id, u.r), InR(k, u.l, y, u.c, u.id);
      RotROrdered(k, t);
      if augment { RotRGaps(gaps, k, t); }
      AtUnder(cells, root, k, u);
      AugmentLeft(y, k, u);
      AugmentAt(cells[y].right, kr, u.r);
      GoodUp(kr, u.r);
    }

    /** rb_augment of the left child, before the right child has been repaired. */
    method AugmentLeft(y: Node, ghost k: Ctx<Node>, ghost u: Shape<Node>)
      requires u.T? && u.n == y && u.r.T? && At(cells, root, k, u) && Ordered(k, u)
      requires cells.Keys == gaps.Keys
      requires augment ==> Nearly(gaps, InR(k, u.l, y, u.c, u.id), u.r)
      modifies this`gaps
      ensures cells.Keys == gaps.Keys
      ensures augment ==> Nearly(gaps, InR(k, u.l, y, u.c, u.id), u.r)
    {
      ghost var d := InL(k, y, u.c, u.id, u.r);
      AtUnder(cells, root, k, u);
      if u.l.T? { AtUnder(cells, root, d, u.l); }
      RepCtxDomain(cells, k, y, root);
      SpineIn(k);
      if augment && u.l.T? { AugmentLeftFirst(gaps, k, u.l, y, u.c, u.id, u.r); }
      RbAugment(cells[y].left, d);
      if u.l.T? {
        var f := Fresh(old(gaps), d, u.l.id, Ptr(u.l.l), Ptr(u.l.r));
        ClimbKeeps(old(gaps)[u.l.n := f], d, f.Top());
      }
    }

    // ----- insertion -----

    method SetColor(n: Node, c: Color, ghost k: Ctx<Node>, ghost t: Shape<Node>)
      requires t.T? && t.n == n && Good(k, t)
      modifies this`cells
      ensures cells.Keys == old(cells.Keys) && Good(k, Paint(t, c))
    {
      Repaint(cells, root, k, t, c);
      cells := cells[n := cells[n].(color := c)];
    }

    /** Red uncle `y`: black parent and uncle, red grandparent. */
    method Recolor(z: Node, y: Node, ghost k: Ctx<Node>, ghost t: Shape<Node>)
      requires t.T? && t.n == z && Good(k, t) && !k.Top? && !k.up.Top?
      requires Sib(k.up).T? && Sib(k.up).n == y
      modifies this`cells
      ensures cells.Keys == old(cells.Keys) && Good(k.up.up, Recolored(k, t))
    {
      ghost var p1 := Paint(Fill(k, t), Black);
      ghost var d, u := Other(k.up, p1), Sib(k.up);
      GoodUp(k, t);
      AtUnder(cells, root, k, t);
      var p: Node := cells[z].parent;
      SetColor(p, Black, k.up, Fill(k, t));
      AtUnder(cells, root, k.up, p1);
      var g: Node := cells[p].parent;
      GoodUp(k.up, p1);
      GoodUp(d, u);
      SetColor(y, Black, d, u);
      GoodUp(d, Paint(u, Black));
      SetColor(g, Red, k.up.up, Fill(d, Paint(u, Black)));
    }

    /** Outer grandchild: black parent, red grandparent, rotate it away from `z`. */
    method OuterLeft(p: Node, g: Node, ghost k: Ctx<Node>, ghost t: Shape<Node>)
      requires t.T? && Good(k, t) && k.InL? && k.up.InL? && k.n == p && k.up.n == g
      modifies this
      ensures cells.Keys == old(cells.Keys) && Good(k.up.up, RotR(Outer(k, t)))
    {
      GoodUp(k, t);
      SetColor(p, Black, k.up, Fill(k, t));
      GoodUp(k.up, Paint(Fill(k, t), Black));
      SetColor(g, Red, k.up.up, Fill(k.up, Paint(Fill(k, t), Black)));
      RotateRight(g, k.up.up, Outer(k, t));
    }

    method OuterRight(p: Node, g: Node, ghost k: Ctx<Node>, ghost t: Shape<Node>)
      requires t.T? && Good(k, t) && k.InR? && k.up.InR? && k.n == p && k.up.n == g
      modifies this
      ensures cells.Keys == old(cells.Keys) && Good(k.up.up, RotL(Outer(k, t)))
    {
      GoodUp(k, t);
      SetColor(p, Black, k.up, Fill(k, t));
      GoodUp(k.up, Paint(Fill(k, t), Black));
      SetColor(g, Red, k.up.up, Fill(k.up, Paint(Fill(k, t), Black)));
      RotateLeft(g, k.up.up, Outer(k, t));
    }

    /** What the loop reads around `z`: parent, grandparent and uncle. */
    lemma Family(k: Ctx<Node>, t: Shape<Node>)
      requires t.T? && Good(k, t) && Climbing(k, t) && RedTop(k)
      ensures !k.up.Top? && Good(k.up, Fill(k, t)) && Good(k.up.up, Fill(k.up, Fill(k, t)))
      ensures t.n in cells && cells[t.n].parent == k.n && k.n in cells && cells[k.n].parent == k.up.n
      ensures cells[k.n].left == t.n <==> k.InL?
      ensures cells[k.n].right == t.n <==> k.InR?
      ensures k.up.n in cells && cells[k.up.n].left == (if k.up.InL? then k.n else Ptr(Sib(k.up)))
      ensures cells[k.up.n].right == (if k.up.InR? then k.n else Ptr(Sib(k.up)))
      ensures Sib(k.up).T? ==> Sib(k.up).n in cells && cells[Sib(k.up).n].color == Sib(k.up).c
    {
      HasGrandparent(k, t);
      AtUnder(cells, root, k, t);
      UnderUp(cells, root, t.n, k);
      GoodUp(k, t);
      GoodUp(k.up, Fill(k, t));
    }

    /** One turn of the loop when the parent of `z` is a left child. */
    method ClimbLeft(z: Node, p: Node, g: Node, ghost k: Ctx<Node>, ghost t: Shape<Node>)
      returns (z': Node, ghost k': Ctx<Node>, ghost t': Shape<Node>)
      requires t.T? && t.n == z && Good(k, t) && Climbing(k, t) && RedTop(k)
      requires k.up.InL? && k.n == p && k.up.n == g
      modifies this
      ensures cells.Keys == old(cells.Keys)
      ensures t'.T? && t'.n == z' && Good(k', t') && Turn(k, t, k', t')
    {
      Family(k, t);
      var y := cells[g].right;
      if y != NULL && cells[y].color == Red {
        RecolorStep(k, t);
        Recolor(z, y, k, t);
        z', k', t' := g, k.up.up, Recolored(k, t);
      } else if z == cells[p].right {
        InnerLeftStep(k, t);
        RotateLeft(p, k.up, Fill(k, t));
        ghost var u := RotL(Fill(k, t));
        z', k', t' := p, InL(k.up, u.n, u.c, u.id, u.r), u.l;
        GoodUp(k', t');
      } else {
        OuterLeftStep(k, t);
        OuterLeft(p, g, k, t);
        ghost var u := RotR(Outer(k, t));
        z', k', t' := z, InL(k.up.up, u.n, u.c, u.id, u.r), u.l;
        GoodUp(k', t');
      }
    }

    method ClimbRight(z: Node, p: Node, g: Node, ghost k: Ctx<Node>, ghost t: Shape<Node>)
      returns (z': Node, ghost k': Ctx<Node>, ghost t': Shape<Node>)
      requires t.T? && t.n == z && Good(k, t) && Climbing(k, t) && RedTop(k)
      requires k.up.InR? && k.n == p && k.up.n == g
      modifies this
      ensures cells.Keys == old(cells.Keys)
      ensures t'.T? && t'.n == z' && Good(k', t') && Turn(k, t, k', t')
    {
      Family(k, t);
      var y := cells[g].left;
      if y != NULL && cells[y].color == Red {
        RecolorStep(k, t);
        Recolor(z, y, k, t);
        z', k', t' := g, k.up.up, Recolored(k, t);
      } else if z == cells[p].left {
        InnerRightStep(k, t);
        RotateRight(p, k.up, Fill(k, t));
        ghost var u := RotR(Fill(k, t));
        z', k', t' := p, InR(k.up, u.l, u.n, u.c, u.id), u.r;
        GoodUp(k', t');
      } else {
        OuterRightStep(k, t);
        OuterRight(p, g, k, t);
        ghost var u := RotL(Outer(k, t));
        z', k', t' := z, InR(k.up.up, u.l, u.n, u.c, u.id), u.r;
        GoodUp(k', t');
      }
    }

    /** lib_rbInsertBalance. */
    method InsertBalance(node: Node, ghost k: Ctx<Node>, ghost t: Shape<Node>) returns (ghost s: Shape<Node>)
      requires t.T? && t.n == node && Good(k, t) && Climbing(k, t)
      modifies this
      ensures cells.Keys == old(cells.Keys)
      ensures Good(Top, s) && IsRb(s) && Items(s) == CtxItems(k) + Items(t)
    {
      var z := node;
      ghost var kz, tz := k, t;
      AtUnder(cells, root, kz, tz);
      while cells[z].parent != NULL && cells[cells[z].parent].color == Red
        invariant cells.Keys == old(cells.Keys) && z in cells && cells[z].parent == Par(kz)
        invariant !kz.Top? ==> kz.n in cells && cells[kz.n].color == kz.c
        invariant tz.T? && tz.n == z && Good(kz, tz) && Climbing(kz, tz)
        invariant CtxItems(kz) + Items(tz) == CtxItems(k) + Items(t)
        decreases Rank(kz)
      {
        Family(kz, tz);
        var p: Node := cells[z].parent;
        var g: Node := cells[p].parent;
        if p == cells[g].left {
          z, kz, tz := ClimbLeft(z, p, g, kz, tz);
        } else {
          z, kz, tz := ClimbRight(z, p, g, kz, tz);
        }
        AtUnder(cells, root, kz, tz);
      }
      ClimbingDone(kz, tz);
      GoodPlug(kz, tz);
      PlugItems(kz, tz);
      s := Plug(kz, tz);
      SetColor(root, Black, Top, s);
      s := Paint(s, Black);
    }

    /** A search has come down to the subtree `t`. */
    ghost predicate Reached(x: Link, k: Ctx<Node>, t: Shape<Node>)
      reads this
    {
      Good(k, t) && x == Ptr(t) && Plug(k, t) == shape
    }

    lemma ReachedStep(k: Ctx<Node>, t: Shape<Node>)
      requires t.T? && Reached(t.n, k, t)
      ensures t.n in cells && cells[t.n] == Cell(Par(k), Ptr(t.l), Ptr(t.r), t.c, t.id)
      ensures t.id in Keys(shape)
      ensures Reached(Ptr(t.l), InL(k, t.n, t.c, t.id, t.r), t.l)
      ensures Reached(Ptr(t.r), InR(k, t.l, t.n, t.c, t.id), t.r)
    {
      AtUnder(cells, root, k, t);
      GoodUp(InL(k, t.n, t.c, t.id, t.r), t.l);
      GoodUp(InR(k, t.l, t.n, t.c, t.id), t.r);
      PlugItems(k, t);
    }

    /** An empty hole whose range contains `id` shows that no node has that key. */
    lemma SearchEnds(id: nat, k: Ctx<Node>)
      requires Reached(NULL, k, E) && Lo(k, 0) <= id < Hi(k, UINT_MAX)
      ensures id !in Keys(shape)
    {
      CtxKeysOutside(k, 0, UINT_MAX, id);
      PlugItems(k, E);
    }

    /** The search loop of lib_rbInsert: the node with key `id`, or the place it belongs. */
    method Descend(id: nat) returns (hit: Link, y: Link, c: int, ghost k: Ctx<Node>)
      requires Valid() && id <= ID_LIMIT
      ensures hit == NULL <==> id !in Keys(shape)
      ensures hit != NULL ==> hit in cells && cells[hit].id == id
      ensures hit == NULL ==> y == Par(k) && Reached(NULL, k, E) && Lo(k, 0) <= id < Hi(k, UINT_MAX)
      ensures hit == NULL && y != NULL ==> (c > 0 <==> k.InL?)
    {
      var x := root;
      y, c, k := NULL, 0, Top;
      ghost var t := shape;
      while x != NULL
        invariant y == Par(k) && Reached(x, k, t) && Lo(k, 0) <= id < Hi(k, UINT_MAX)
        invariant y != NULL ==> (c > 0 <==> k.InL?)
        decreases t
      {
        ReachedStep(k, t);
        y := x;
        CompareOrders(cells[y].id, id);
        c := Compare(cells[y].id, id);
        if c == 0 {
          return y, y, c, k;
        }
        if c > 0 {
          x := cells[y].left;
          k, t := InL(k, t.n, t.c, t.id, t.r), t.l;
        } else {
          x := cells[y].right;
          k, t := InR(k, t.l, t.n, t.c, t.id), t.r;
        }
      }
      SearchEnds(id, k);
      hit := NULL;
    }

    /** The links written by lib_rbInsert for the new red leaf `z` below `y`. */
    method LinkLeaf(z: Node, y: Link, c: int, id: nat, ghost k: Ctx<Node>)
      requires Good(k, E) && y == Par(k) && Lo(k, 0) <= id < Hi(k, UINT_MAX) && z !in cells
      requires y != NULL ==> (c > 0 <==> k.InL?)
      modifies this`root, this`cells
      ensures cells.Keys == old(cells.Keys) + {z}
      ensures At(cells, root, k, T(E, z, Red, id, E)) && Ordered(k, T(E, z, Red, id, E))
    {
      RepCtxDomain(cells, k, NULL, root);
      cells := cells[z := Cell(y, NULL, NULL, Red, id)];
      if y == NULL {
        root := z;
      } else if c > 0 {
        cells := cells[y := cells[y].(left := z)];
      } else {
        cells := cells[y := cells[y].(right := z)];
      }
      Relink(old(cells), cells, old(root), root, k, NULL, z);
    }

    /** lib_rbInsert: NULL once `z` is in, or the node that already has its key. A key of 2^31 still
        finds its place, but those that come after it may not. */
    method Insert(z: Node, id: nat) returns (r: Link)
      requires Valid() && z !in cells && id <= ID_LIMIT
      modifies this
      ensures Sound() && (Valid() <==> id < ID_LIMIT)
      ensures r == NULL <==> id !in old(Keys(shape))
      ensures r != NULL ==> r in cells && cells[r].id == id && cells == old(cells) && gaps == old(gaps)
      ensures r != NULL ==> root == old(root) && shape == old(shape)
      ensures r == NULL ==> cells.Keys == old(cells.Keys) + {z}
      ensures r == NULL ==> Items(shape) == old(Items(shape)) + {(z, id)}
    {
      var hit, y, c, k := Descend(id);
      if hit != NULL {
        return hit;
      }
      InsertAt(z, y, c, id, k);
      r := NULL;
    }

    /** lib_rbInsert at the place that was found. */
    method InsertAt(z: Node, y: Link, c: int, id: nat, ghost k: Ctx<Node>)
      requires Sound() && z !in cells && id !in Keys(shape)
      requires y == Par(k) && Reached(NULL, k, E) && Lo(k, 0) <= id < Hi(k, UINT_MAX)
      requires y != NULL ==> (c > 0 <==> k.InL?)
      modifies this
      ensures Sound() && cells.Keys == old(cells.Keys) + {z}
      ensures Items(shape) == old(Items(shape)) + {(z, id)} && Keys(shape) == old(Keys(shape)) + {id}
    {
      LeafClimbing(k, z, id);
      InsertLeaf(z, y, c, id, k);
      shape := InsertBalance(z, k, T(E, z, Red, id, E));
      ItemsGrow(old(shape), shape, k, T(E, z, Red, id, E));
    }

    /** lib_rbInsert up to the rebalancing. */
    method InsertLeaf(z: Node, y: Link, c: int, id: nat, ghost k: Ctx<Node>)
      requires Good(k, E) && y == Par(k) && Lo(k, 0) <= id < Hi(k, UINT_MAX) && z !in cells
      requires y != NULL ==> (c > 0 <==> k.InL?)
      modifies this`root, this`cells, this`gaps
      ensures cells.Keys == old(cells.Keys) + {z} && Good(k, T(E, z, Red, id, E))
    {
      RepCtxDomain(cells, k, NULL, root);
      LinkLeaf(z, y, c, id, k);
      gaps := gaps[z := Gap(0, 0)];
      if augment { OffFrame(old(gaps), gaps, k, 0, UINT_MAX); }
      AugmentAt(z, k, T(E, z, Red, id, E));
    }

    lemma LeafClimbing(k: Ctx<Node>, z: Node, id: nat)
      requires IsRb(Plug(k, E))
      ensures Climbing(k, T(E, z, Red, id, E))
    {
      BalancedPlug(k, E);
      NoRedRedPlug(k, E);
      RootColorPlug(k, E);
    }

    /** lib_rbFind with idtree_cmp: the node with key `id`, for every unsigned `id`. */
    method Find(id: nat) returns (r: Link)
      requires Valid() && id <= UINT_MAX
      ensures r == NULL <==> id !in Keys(shape)
      ensures r != NULL ==> r in cells && cells[r].id == id
    {
      r := root;
      ghost var k, t := Top, shape;
      while r != NULL
        invariant Reached(r, k, t)
        invariant id < ID_LIMIT ==> Lo(k, 0) <= id < Hi(k, UINT_MAX)
        decreases t
      {
        ReachedStep(k, t);
        var c := Compare(cells[r].id, id);
        if c == 0 {
          return;
        }
        if id < ID_LIMIT { CompareOrders(cells[r].id, id); }
        if c > 0 {
          r := cells[r].left;
          k, t := InL(k, t.n, t.c, t.id, t.r), t.l;
        } else {
          r := cells[r].right;
          k, t := InR(k, t.l, t.n, t.c, t.id), t.r;
        }
      }
      if id < ID_LIMIT { SearchEnds(id, k); }
    }

    constructor (augment: bool)
      ensures Valid() && shape == E && cells == map[] && this.augment == augment
    {
      root := NULL;
      cells, gaps, shape := map[], map[], E;
      this.augment := augment;
    }

    // ----- rebalancing after a removal -----

    method RedSiblingLeft(p: Node, w: Node, ghost k: Ctx<Node>, ghost t: Shape<Node>)
      requires Good(k, t) && k.InL? && k.n == p && k.r.T? && k.r.n == w
      modifies this
      ensures cells.Keys == old(cells.Keys) && Good(k.up, RotL(Rm.RedSibling(k, t)))
    {
      ghost var d := Other(k, t);
      GoodUp(k, t);
      GoodUp(d, k.r);
      SetColor(w, Black, d, k.r);
      GoodUp(d, Paint(k.r, Black));
      SetColor(p, Red, k.up, Fill(d, Paint(k.r, Black)));
      RotateLeft(p, k.up, Rm.RedSibling(k, t));
    }

    method RedSiblingRight(p: Node, w: Node, ghost k: Ctx<Node>, ghost t: Shape<Node>)
      requires Good(k, t) && k.InR? && k.n == p && k.l.T? && k.l.n == w
      modifies this
      ensures cells.Keys == old(cells.Keys) && Good(k.up, RotR(Rm.RedSibling(k, t)))
    {
      ghost var d := Other(k, t);
      GoodUp(k, t);
      GoodUp(d, k.l);
      SetColor(w, Black, d, k.l);
      GoodUp(d, Paint(k.l, Black));
      SetColor(p, Red, k.up, Fill(d, Paint(k.l, Black)));
      RotateRight(p, k.up, Rm.RedSibling(k, t));
    }

    method NearRedLeft(w: Node, n: Node, ghost k: Ctx<Node>, ghost t: Shape<Node>)
      requires Good(k, t) && k.InL? && k.r.T? && k.r.n == w && k.r.l.T? && k.r.l.n == n
      modifies this
      ensures cells.Keys == old(cells.Keys) && Good(k.(r := RotR(Rm.NearRed(k.r, true))), t)
    {
      ghost var d := Other(k, t);
      ghost var e := InL(d, w, k.r.c, k.r.id, k.r.r);
      ghost var w1 := k.r.(l := Paint(k.r.l, Black));
      GoodUp(k, t);
      GoodUp(d, k.r);
      GoodUp(e, k.r.l);
      SetColor(n, Black, e, k.r.l);
      GoodUp(e, Paint(k.r.l, Black));
      SetColor(w, Red, d, w1);
      RotateRight(w, d, Rm.NearRed(k.r, true));
      GoodUp(d, RotR(Rm.NearRed(k.r, true)));
      GoodUp(k.(r := RotR(Rm.NearRed(k.r, true))), t);
    }

    method NearRedRight(w: Node, n: Node, ghost k: Ctx<Node>, ghost t: Shape<Node>)
      requires Good(k, t) && k.InR? && k.l.T? && k.l.n == w && k.l.r.T? && k.l.r.n == n
      modifies this
      ensures cells.Keys == old(cells.Keys) && Good(k.(l := RotL(Rm.NearRed(k.l, false))), t)
    {
      ghost var d := Other(k, t);
      ghost var e := InR(d, k.l.l, w, k.l.c, k.l.id);
      ghost var w1 := k.l.(r := Paint(k.l.r, Black));
      GoodUp(k, t);
      GoodUp(d, k.l);
      GoodUp(e, k.l.r);
      SetColor(n, Black, e, k.l.r);
      GoodUp(e, Paint(k.l.r, Black));
      SetColor(w, Red, d, w1);
      RotateLeft(w, d, Rm.NearRed(k.l, false));
      GoodUp(d, RotL(Rm.NearRed(k.l, false)));
      GoodUp(k.(l := RotL(Rm.NearRed(k.l, false))), t);
    }

    method FarRedLeft(p: Node, w: Node, n: Node, ghost k: Ctx<Node>, ghost t: Shape<Node>)
      requires Good(k, t) && k.InL? && k.n == p && Rm.FarRed(k) && k.r.n == w && k.r.r.n == n
      modifies this
      ensures cells.Keys == old(cells.Keys) && Good(Top, Plug(k.up, RotL(Rm.FarTree(k, t))))
    {
      ghost var d := Other(k, t);
      ghost var w1 := Paint(k.r, k.c);
      GoodUp(k, t);
      AtUnder(cells, root, k.up, Fill(k, t));
      GoodUp(d, k.r);
      SetColor(w, cells[p].color, d, k.r);
      GoodUp(d, w1);
      SetColor(p, Black, k.up, Fill(d, w1));
      ghost var d1 := InR(k.up, t, p, Black, k.id);
      GoodUp(d1, w1);
      ghost var e := InR(d1, w1.l, w, w1.c, w1.id);
      GoodUp(e, w1.r);
      SetColor(n, Black, e, w1.r);
      GoodUp(e, Paint(w1.r, Black));
      GoodUp(d1, w1.(r := Paint(w1.r, Black)));
      RotateLeft(p, k.up, Rm.FarTree(k, t));
      GoodPlug(k.up, RotL(Rm.FarTree(k, t)));
    }

    method FarRedRight(p: Node, w: Node, n: Node, ghost k: Ctx<Node>, ghost t: Shape<Node>)
      requires Good(k, t) && k.InR? && k.n == p && Rm.FarRed(k) && k.l.n == w && k.l.l.n == n
      modifies this
      ensures cells.Keys == old(cells.Keys) && Good(Top, Plug(k.up, RotR(Rm.FarTree(k, t))))
    {
      ghost var d := Other(k, t);
      ghost var w1 := Paint(k.l, k.c);
      GoodUp(k, t);
      AtUnder(cells, root, k.up, Fill(k, t));
      GoodUp(d, k.l);
      SetColor(w, cells[p].color, d, k.l);
      GoodUp(d, w1);
      SetColor(p, Black, k.up, Fill(d, w1));
      ghost var d1 := InL(k.up, p, Black, k.id, t);
      GoodUp(d1, w1);
      ghost var e := InL(d1, w, w1.c, w1.id, w1.r);
      GoodUp(e, w1.l);
      SetColor(n, Black, e, w1.l);
      GoodUp(e, Paint(w1.l, Black));
      GoodUp(d1, w1.(l := Paint(w1.l, Black)));
      RotateRight(p, k.up, Rm.FarTree(k, t));
      GoodPlug(k.up, RotR(Rm.FarTree(k, t)));
    }

    lemma SiblingGood(k: Ctx<Node>, t: Shape<Node>)
      requires Good(k, t) && !k.Top?
      ensures Good(Other(k, t), Sib(k))
    {
      GoodUp(k, t);
      GoodUp(Other(k, t), Sib(k));
    }

    /** Black sibling with black children: it goes red. */
    method RedSibling(w: Node, ghost k: Ctx<Node>, ghost t: Shape<Node>)
      requires Good(k, t) && !k.Top? && Sib(k).T? && Sib(k).n == w
      modifies this
      ensures cells.Keys == old(cells.Keys) && Good(k.up, Fill(Other(k, t), Paint(Sib(k), Red)))
    {
      SiblingGood(k, t);
      SetColor(w, Red, Other(k, t), Sib(k));
      GoodUp(Other(k, t), Paint(Sib(k), Red));
    }

    /** One turn of the loop once the sibling `w` is black, `x` being a left child. */
    method LightLeft(x: Link, p: Node, w: Node, ghost k: Ctx<Node>, ghost t: Shape<Node>)
      returns (x': Link, ghost k': Ctx<Node>, ghost t': Shape<Node>)
      requires x == Ptr(t) && Good(k, t) && Rm.Short(k, t) && !Rm.Done(k, t)
      requires k.InL? && k.n == p && k.r.T? && k.r.n == w && k.r.c == Black
      modifies this
      ensures cells.Keys == old(cells.Keys) && x' == Ptr(t') && Good(k', t')
      ensures Rm.Short(k', t') && Rm.SameItems(k, t, k', t')
      ensures Rm.Rank(k', t') < Rm.Rank(k, t) && (k.c == Red ==> Rm.Rank(k', t') <= 1)
      ensures t'.E? ==> t.E? && Par(k') == Par(k)
    {
      ghost var d := Other(k, t);
      SiblingGood(k, t);
      SiblingFields(d, k.r);
      var c := cells[w];
      if (c.left == NULL || cells[c.left].color == Black) && (c.right == NULL || cells[c.right].color == Black) {
        Rm.MoveUp(k, t);
        RedSibling(w, k, t);
        x', k', t' := p, k.up, Fill(d, Paint(k.r, Red));
      } else if c.right == NULL || cells[c.right].color == Black {
        Rm.NearRedLeft(k, t);
        NearRedLeft(w, c.left, k, t);
        x', k', t' := x, k.(r := RotR(Rm.NearRed(k.r, true))), t;
      } else {
        x', k', t' := EndLeft(p, w, c.right, k, t);
      }
    }

    /** The last turn: the sibling's far child is red. */
    method EndLeft(p: Node, w: Node, far: Link, ghost k: Ctx<Node>, ghost t: Shape<Node>)
      returns (x': Link, ghost k': Ctx<Node>, ghost t': Shape<Node>)
      requires Good(k, t) && Rm.Short(k, t) && !Rm.Done(k, t)
      requires k.InL? && k.n == p && k.r.T? && k.r.n == w && k.r.c == Black
      requires k.r.r.T? && k.r.r.c == Red && far == k.r.r.n
      modifies this
      ensures cells.Keys == old(cells.Keys) && x' == Ptr(t') && Good(k', t')
      ensures Rm.Short(k', t') && Rm.SameItems(k, t, k', t')
      ensures Rm.Rank(k', t') < Rm.Rank(k, t) && Rm.Rank(k', t') <= 1 && t'.T?
    {
      Rm.FarRedEnd(k, t);
      FarRedLeft(p, w, far, k, t);
      x', k', t' := root, Top, Plug(k.up, RotL(Rm.FarTree(k, t)));
    }

    method LightRight(x: Link, p: Node, w: Node, ghost k: Ctx<Node>, ghost t: Shape<Node>)
      returns (x': Link, ghost k': Ctx<Node>, ghost t': Shape<Node>)
      requires x == Ptr(t) && Good(k, t) && Rm.Short(k, t) && !Rm.Done(k, t)
      requires k.InR? && k.n == p && k.l.T? && k.l.n == w && k.l.c == Black
      modifies this
      ensures cells.Keys == old(cells.Keys) && x' == Ptr(t') && Good(k', t')
      ensures Rm.Short(k', t') && Rm.SameItems(k, t, k', t')
      ensures Rm.Rank(k', t') < Rm.Rank(k, t) && (k.c == Red ==> Rm.Rank(k', t') <= 1)
      ensures t'.E? ==> t.E? && Par(k') == Par(k)
    {
      ghost var d := Other(k, t);
      SiblingGood(k, t);
      SiblingFields(d, k.l);
      var c := cells[w];
      if (c.right == NULL || cells[c.right].color == Black) && (c.left == NULL || cells[c.left].color == Black) {
        Rm.MoveUp(k, t);
        RedSibling(w, k, t);
        x', k', t' := p, k.up, Fill(d, Paint(k.l, Red));
      } else if c.left == NULL || cells[c.left].color == Black {
        Rm.NearRedRight(k, t);
        NearRedRight(w, c.right, k, t);
        x', k', t' := x, k.(l := RotL(Rm.NearRed(k.l, false))), t;
      } else {
        x', k', t' := EndRight(p, w, c.left, k, t);
      }
    }

    /** The last turn: the sibling's far child is red. */
    method EndRight(p: Node, w: Node, far: Link, ghost k: Ctx<Node>, ghost t: Shape<Node>)
      returns (x': Link, ghost k': Ctx<Node>, ghost t': Shape<Node>)
      requires Good(k, t) && Rm.Short(k, t) && !Rm.Done(k, t)
      requires k.InR? && k.n == p && k.l.T? && k.l.n == w && k.l.c == Black
      requires k.l.l.T? && k.l.l.c == Red && far == k.l.l.n
      modifies this
      ensures cells.Keys == old(cells.Keys) && x' == Ptr(t') && Good(k', t')
      ensures Rm.Short(k', t') && Rm.SameItems(k, t, k', t')
      ensures Rm.Rank(k', t') < Rm.Rank(k, t) && Rm.Rank(k', t') <= 1 && t'.T?
    {
      Rm.FarRedEnd(k, t);
      FarRedRight(p, w, far, k, t);
      x', k', t' := root, Top, Plug(k.up, RotR(Rm.FarTree(k, t)));
    }

    /** One turn of the loop when `x` is a left child; `x` is NULL when it stands for the nil node. */
    method TurnLeft(x: Link, p: Node, ghost k: Ctx<Node>, ghost t: Shape<Node>)
      returns (x': Link, ghost k': Ctx<Node>, ghost t': Shape<Node>)
      requires x == Ptr(t) && Good(k, t) && Rm.Short(k, t) && !Rm.Done(k, t) && k.InL? && k.n == p
      modifies this
      ensures cells.Keys == old(cells.Keys) && x' == Ptr(t') && Good(k', t')
      ensures Rm.Short(k', t') && Rm.SameItems(k, t, k', t') && Rm.Rank(k', t') < Rm.Rank(k, t)
      ensures t'.E? ==> t.E? && Par(k') == Par(k)
    {
      Rm.HasSibling(k, t);
      GoodUp(k, t);
      SiblingFields(k.up, Fill(k, t));
      var w: Node := cells[p].right;
      ghost var k1 := k;
      if cells[w].color == Red {
        Rm.RedSiblingLeft(k, t);
        RedSiblingLeft(p, w, k, t);
        ghost var u := RotL(Rm.RedSibling(k, t));
        ghost var e := InL(k.up, u.n, u.c, u.id, u.r);
        k1 := InL(e, u.l.n, u.l.c, u.l.id, u.l.r);
        GoodUp(e, u.l);
        GoodUp(k1, t);
        Rm.HasSibling(k1, t);
        SiblingFields(e, u.l);
        w := cells[p].right;
      }
      x', k', t' := LightLeft(x, p, w, k1, t);
    }

    method TurnRight(x: Link, p: Node, ghost k: Ctx<Node>, ghost t: Shape<Node>)
      returns (x': Link, ghost k': Ctx<Node>, ghost t': Shape<Node>)
      requires x == Ptr(t) && Good(k, t) && Rm.Short(k, t) && !Rm.Done(k, t) && k.InR? && k.n == p
      modifies this
      ensures cells.Keys == old(cells.Keys) && x' == Ptr(t') && Good(k', t')
      ensures Rm.Short(k', t') && Rm.SameItems(k, t, k', t') && Rm.Rank(k', t') < Rm.Rank(k, t)
      ensures t'.E? ==> t.E? && Par(k') == Par(k)
    {
      Rm.HasSibling(k, t);
      GoodUp(k, t);
      SiblingFields(k.up, Fill(k, t));
      var w: Node := cells[p].left;
      ghost var k1 := k;
      if cells[w].color == Red {
        Rm.RedSiblingRight(k, t);
        RedSiblingRight(p, w, k, t);
        ghost var u := RotR(Rm.RedSibling(k, t));
        ghost var e := InR(k.up, u.l, u.n, u.c, u.id);
        k1 := InR(e, u.r.l, u.r.n, u.r.c, u.r.id);
        GoodUp(e, u.r);
        GoodUp(k1, t);
        Rm.HasSibling(k1, t);
        SiblingFields(e, u.r);
        w := cells[p].left;
      }
      x', k', t' := LightRight(x, p, w, k1, t);
    }

    /** What the loop guard reads. */
    ghost predicate Sees(parent: Link, k: Ctx<Node>, t: Shape<Node>)
      reads this
    {
      && root != NULL && (k.Top? <==> Ptr(t) == root)
      && (t.T? ==> t.n in cells && cells[t.n].color == t.c && cells[t.n].parent == Par(k))
      && (t.E? ==> parent == Par(k))
    }

    lemma SeesAt(parent: Link, k: Ctx<Node>, t: Shape<Node>)
      requires Good(k, t) && root != NULL && (t.E? ==> parent == Par(k))
      ensures Sees(parent, k, t)
    {
      RootAt(cells, root, k, t);
      if t.T? { AtUnder(cells, root, k, t); }
    }

    method RemoveTurn(x: Link, parent: Link, ghost k: Ctx<Node>, ghost t: Shape<Node>)
      returns (x': Link, ghost k': Ctx<Node>, ghost t': Shape<Node>)
      requires x == Ptr(t) && Good(k, t) && Rm.Short(k, t) && !Rm.Done(k, t) && Sees(parent, k, t)
      modifies this
      ensures cells.Keys == old(cells.Keys) && x' == Ptr(t') && Good(k', t') && Sees(parent, k', t')
      ensures Rm.Short(k', t') && Rm.SameItems(k, t, k', t') && Rm.Rank(k', t') < Rm.Rank(k, t)
    {
      var p: Node := if x == NULL then parent else cells[x].parent;
      Rm.HasSibling(k, t);
      SideOf(k, t);
      if cells[p].left == x {
        x', k', t' := TurnLeft(x, p, k, t);
      } else {
        x', k', t' := TurnRight(x, p, k, t);
      }
      RootAt(cells, root, k', t');
      SeesAt(parent, k', t');
    }

    lemma SideOf(k: Ctx<Node>, t: Shape<Node>)
      requires Good(k, t) && !k.Top? && Sib(k).T?
      ensures k.n in cells && (cells[k.n].left == Ptr(t) <==> k.InL?)
    {
      assert Sib(k).n in CtxNodes(k);
      if t.T? { assert t.n in Nodes(t); }
    }

    /** lib_rbRemoveBalance. The temporary nil node is `x == NULL`; its parent is `parent`. */
    method RemoveBalance(parent: Link, node: Link, ghost k: Ctx<Node>, ghost t: Shape<Node>)
      returns (ghost s: Shape<Node>)
      requires node == Ptr(t) && parent == Par(k) && Good(k, t) && Rm.Short(k, t)
      modifies this
      ensures cells.Keys == old(cells.Keys)
      ensures Good(Top, s) && IsRb(s) && Items(s) == CtxItems(k) + Items(t)
    {
      RootAt(cells, root, k, t);
      if root == NULL {
        return t;
      }
      var x := node;
      ghost var kx, tx := k, t;
      SeesAt(parent, kx, tx);
      while x != root && (x == NULL || cells[x].color == Black)
        invariant cells.Keys == old(cells.Keys) && x == Ptr(tx) && Good(kx, tx) && Sees(parent, kx, tx)
        invariant Rm.Short(kx, tx) && Rm.SameItems(k, t, kx, tx)
        decreases Rm.Rank(kx, tx)
      {
        x, kx, tx := RemoveTurn(x, parent, kx, tx);
      }
      Rm.ShortDone(kx, tx);
      SetColor(x, Black, kx, tx);
      s := Plug(kx, Paint(tx, Black));
      GoodPlug(kx, Paint(tx, Black));
    }

    lemma SiblingFields(d: Ctx<Node>, w: Shape<Node>)
      requires w.T? && Good(d, w)
      ensures w.n in cells && cells[w.n].left == Ptr(w.l) && cells[w.n].right == Ptr(w.r)
      ensures cells[w.n].color == w.c && cells[w.n].parent == Par(d)
      ensures w.l.T? ==> w.l.n in cells && cells[w.l.n].color == w.l.c
      ensures w.r.T? ==> w.r.n in cells && cells[w.r.n].color == w.r.c
    {
      AtUnder(cells, root, d, w);
      assert Rep(cells, w.l, w.n) && Rep(cells, w.r, w.n);
    }

    // ----- removal -----

    /** The first half of rb_transplant: the link to `u` now leads to `v`. */
    method ReplaceChild(u: Node, v: Link, ghost k: Ctx<Node>)
      requires Under(cells, root, u, k) && cells.Keys == gaps.Keys
      requires v != NULL ==> v in cells && v !in CtxNodes(k)
      requires CtxBst(k, 0, UINT_MAX) && (augment ==> Off(gaps, k, 0, UINT_MAX))
      modifies this
      ensures cells.Keys == gaps.Keys && SameBut(old(cells), cells, Opt(Par(k)))
      ensures RepCtx(cells, k, v, root)
      ensures forall x :: x in gaps && x !in CtxNodes(k) ==> gaps[x] == old(gaps)[x]
      ensures augment ==> Off(gaps, k, 0, UINT_MAX)
      ensures augment && v == NULL && Ordered(k, E) ==> GapsAt(gaps, k, E)
    {
      RepCtxDomain(cells, k, u, root);
      var p := cells[u].parent;
      if p != NULL {
        UnderUp(cells, root, u, k);
        if cells[p].left == u {
          cells := cells[p := cells[p].(left := v)];
        } else {
          cells := cells[p := cells[p].(right := v)];
        }
        Relink(old(cells), cells, root, root, k, u, v);
        assert !k.Top? && cells[k.n].left == LeftOf(k, v) && cells[k.n].right == RightOf(k, v);
        SibIn(k);
        if augment {
          AugmentAbove(gaps, k, v);
          if v == NULL && Ordered(k, E) { AugmentAboveEmpty(gaps, k); }
        }
        RbAugment(p, k.up);
      } else {
        root := v;
      }
    }

    /** The second half of rb_transplant: `v` points back and is augmented. */
    method HangChild(u: Node, v: Link, ghost k: Ctx<Node>, ghost tv: Shape<Node>, ghost q: Link)
      requires u in cells && cells[u].parent == Par(k) && cells.Keys == gaps.Keys
      requires v == Ptr(tv) && Rep(cells, tv, q) && Apart(k, tv) && RepCtx(cells, k, v, root)
      modifies this
      ensures cells.Keys == gaps.Keys && SameBut(old(cells), cells, Opt(v)) && root == old(root)
      ensures At(cells, root, k, tv)
      ensures forall x :: x in gaps && x !in CtxNodes(k) && x != v ==> gaps[x] == old(gaps)[x]
      ensures augment && old(Off(gaps, k, 0, UINT_MAX)) ==> Off(gaps, k, 0, UINT_MAX)
      ensures tv.T? ==> (tv.l.T? ==> tv.l.n in old(gaps)) && (tv.r.T? ==> tv.r.n in old(gaps))
      ensures augment && tv.T? ==> gaps[v] == Fresh(old(gaps), k, tv.id, Ptr(tv.l), Ptr(tv.r))
      ensures augment && tv.T? ==> Path(gaps, k, gaps[v].Top())
      ensures tv.E? ==> gaps == old(gaps)
    {
      RepDomain(cells, tv, q);
      RepCtxDomain(cells, k, v, root);
      if v != NULL {
        cells := cells[v := cells[v].(parent := cells[u].parent)];
        Reparent(old(cells), cells, tv, q, Par(k));
        RepCtxFrame(old(cells), cells, k, v, root);
        AtUnder(cells, root, k, tv);
        SpineIn(k);
        ClimbFrom(gaps, k, v, Fresh(gaps, k, tv.id, Ptr(tv.l), Ptr(tv.r)));
      }
      RbAugment(v, k);
    }

    /** rb_transplant: the subtree `tv` rooted at `v` takes the place of `u`. */
    method Transplant(u: Node, v: Link, ghost k: Ctx<Node>, ghost tv: Shape<Node>, ghost q: Link)
      requires Under(cells, root, u, k) && cells.Keys == gaps.Keys
      requires v == Ptr(tv) && Rep(cells, tv, q) && Apart(k, tv)
      requires CtxBst(k, 0, UINT_MAX) && (augment ==> Off(gaps, k, 0, UINT_MAX))
      modifies this
      ensures cells.Keys == old(cells.Keys) == gaps.Keys && SameBut(old(cells), cells, Opt(Par(k)) + Opt(v))
      ensures At(cells, root, k, tv)
      ensures forall x :: x in gaps && x !in CtxNodes(k) && x != v ==> gaps[x] == old(gaps)[x]
      ensures augment ==> Off(gaps, k, 0, UINT_MAX)
      ensures tv.T? ==> (tv.l.T? ==> tv.l.n in old(gaps)) && (tv.r.T? ==> tv.r.n in old(gaps))
      ensures augment && tv.T? ==> gaps[v] == Fresh(old(gaps), k, tv.id, Ptr(tv.l), Ptr(tv.r))
      ensures augment && tv.T? ==> Path(gaps, k, gaps[v].Top())
      ensures augment && tv.E? && Ordered(k, E) ==> GapsAt(gaps, k, E)
    {
      RepDomain(cells, tv, q);
      RepCtxDomain(cells, k, u, root);
      assert !k.Top? ==> k.n in CtxNodes(k);
      assert tv.T? ==> tv.n in Nodes(tv);
      ReplaceChild(u, v, k);
      RepFrame(old(cells), cells, tv, q);
      ghost var g := gaps;
      HangChild(u, v, k, tv, q);
      if tv.T? { ChildrenIn(tv); }
    }

    /** lib_rbMinimum below a node: the leftmost node and the path down to it. */
    method Minimum(node: Node, ghost t: Shape<Node>, ghost par: Link)
      returns (x: Node, ghost a: Ctx<Node>, ghost m: Shape<Node>)
      requires t.T? && t.n == node && Rep(cells, t, par)
      ensures x == First(t).n
      ensures AllLeft(a) && m.T? && m.n == x && m.l.E? && Plug(a, m) == t
    {
      x, a, m := node, Top, t;
      ghost var q := par;
      while cells[x].left != NULL
        invariant m.T? && m.n == x && Rep(cells, m, q) && AllLeft(a) && Plug(a, m) == t && First(m) == First(t)
        decreases m
      {
        a, q := InL(a, m.n, m.c, m.id, m.r), m.n;
        m := m.l;
        x := cells[x].left;
      }
    }

    /** lib_rbMaximum below a node: the rightmost node and the path down to it. */
    method Maximum(node: Node, ghost t: Shape<Node>, ghost par: Link)
      returns (x: Node, ghost a: Ctx<Node>, ghost m: Shape<Node>)
      requires t.T? && t.n == node && Rep(cells, t, par)
      ensures x == Last(t).n
      ensures AllRight(a) && m.T? && m.n == x && m.r.E? && Plug(a, m) == t
    {
      x, a, m := node, Top, t;
      ghost var q := par;
      while cells[x].right != NULL
        invariant m.T? && m.n == x && Rep(cells, m, q) && AllRight(a) && Plug(a, m) == t && Last(m) == Last(t)
        decreases m
      {
        a, q := InR(a, m.l, m.n, m.c, m.id), m.n;
        m := m.r;
        x := cells[x].right;
      }
    }

    /** A node with at most one child gives way to it. */
    method SpliceOne(z: Node, c: Link, ghost k: Ctx<Node>, ghost t: Shape<Node>, ghost tc: Shape<Node>)
      requires t.T? && t.n == z && Good(k, t) && Rm.RbAt(k, t) && c == Ptr(tc)
      requires (t.l.E? && tc == t.r) || (t.r.E? && tc == t.l)
      modifies this
      ensures cells.Keys == old(cells.Keys) && cells[z] == old(cells)[z] && Good(k, tc)
    {
      AtUnder(cells, root, k, t);
      Rm.OneChild(t);
      assert Rep(cells, tc, z);
      assert Apart(k, tc) && z !in Nodes(tc);
      assert !k.Top? ==> k.n in CtxNodes(k);
      assert tc.T? ==> tc.n in Nodes(tc);
      Transplant(z, c, k, tc, z);
      ChildOrder(k, t, tc);
      if augment && tc.T? {
        FreshExact(old(gaps), k, tc);
        NoRightGaps(gaps, k, tc);
      }
    }

    lemma ChildOrder(k: Ctx<Node>, t: Shape<Node>, tc: Shape<Node>)
      requires t.T? && Ordered(k, t) && (tc == t.r || tc == t.l)
      ensures Ordered(k, tc)
    {
      var lo, hi := Lo(k, 0), Hi(k, UINT_MAX);
      BstRange(t.l, lo, t.id);
      BstRange(t.r, t.id + 1, hi);
      if tc == t.r { Rm.BstWiden(t.r, t.id + 1, hi, lo, hi); }
      else { Rm.BstWiden(t.l, lo, t.id, lo, hi); }
    }

    lemma GoodCat(a: Ctx<Node>, b: Ctx<Node>, t: Shape<Node>)
      ensures Good(Cat(a, b), t) <==> Good(b, Plug(a, t))
    {
      AtCat(cells, root, a, b, t);
      GapsCat(gaps, a, b, t);
      OrderedCat(a, b, t);
    }

    /** What is needed to put the successor `y` with right part `r` in the place of `z`. */
    ghost predicate Detached(z: Node, y: Node, k: Ctx<Node>, t: Shape<Node>, m: Shape<Node>, r: Shape<Node>)
      requires t.T? && m.T?
      reads this
    {
      && Under(cells, root, z, k) && cells.Keys == gaps.Keys
      && cells[z] == Cell(Par(k), Ptr(t.l), cells[z].right, t.c, t.id) && Rep(cells, t.l, z)
      && y in cells && cells[y] == Cell(cells[y].parent, NULL, Ptr(r), m.c, m.id) && Rep(cells, r, y)
      && (augment ==> Off(gaps, k, 0, UINT_MAX) && Exact(gaps, t.l, Lo(k, 0), t.id)
                      && LeftOff(gaps, r, Hi(k, UINT_MAX)))
    }

    /** The successor is the right child itself. */
    lemma SuccessorIsChild(k: Ctx<Node>, t: Shape<Node>)
      requires t.T? && t.r.T? && t.r.l.E? && Good(k, t)
      ensures Detached(t.n, t.r.n, k, t, t.r, t.r.r)
    {
      AtUnder(cells, root, k, t);
      assert Rep(cells, t.r, t.n);
      if augment {
        assert Exact(gaps, t.r, t.id + 1, Hi(k, UINT_MAX));
        ExactLeftOff(gaps, t.r.r, t.r.id + 1, Hi(k, UINT_MAX));
      }
    }

    /** The successor is deeper: it is first taken out of the right part of `z`. */
    method DetachSuccessor(z: Node, y: Node, ghost k: Ctx<Node>, ghost t: Shape<Node>, ghost a: Ctx<Node>,
      ghost m: Shape<Node>)
      requires t.T? && t.n == z && Good(k, t) && Rm.RbAt(k, t)
      requires m.T? && m.n == y && m.l.E? && t.r == Plug(a, m) && !a.Top?
      modifies this
      ensures cells.Keys == old(cells.Keys) && Detached(z, y, k, t, m, Plug(a, m.r))
    {
      ghost var kz := InR(k, t.l, z, t.c, t.id);
      ghost var r := Plug(a, m.r);
      GoodUp(kz, t.r);
      GoodCat(a, kz, m);
      SuccessorRb(k, t, a, m);
      FocusFields(Cat(a, kz), m);
      SpliceOne(y, cells[y].right, Cat(a, kz), m, m.r);
      GoodCat(a, kz, m.r);
      GoodUp(kz, r);
      PlugIn(a, m.r);
      NotInside(k, t, a, m);
      AttachRight(z, y, k, t.(r := r), m);
    }

    lemma SuccessorRb(k: Ctx<Node>, t: Shape<Node>, a: Ctx<Node>, m: Shape<Node>)
      requires t.T? && t.r == Plug(a, m) && Rm.RbAt(k, t)
      ensures Rm.RbAt(Cat(a, InR(k, t.l, t.n, t.c, t.id)), m)
    {
      PlugCat(a, InR(k, t.l, t.n, t.c, t.id), m);
      Rm.RbAtPlug(Cat(a, InR(k, t.l, t.n, t.c, t.id)), m);
      Rm.RbAtPlug(k, t);
    }

    lemma FocusFields(k: Ctx<Node>, t: Shape<Node>)
      requires t.T? && Good(k, t)
      ensures t.n in cells && cells[t.n] == Cell(Par(k), Ptr(t.l), Ptr(t.r), t.c, t.id)
    {
      AtUnder(cells, root, k, t);
    }

    /** `y`, outside the tree, takes over the right part of `z`. */
    method AttachRight(z: Node, y: Node, ghost k: Ctx<Node>, ghost t: Shape<Node>, ghost m: Shape<Node>)
      requires t.T? && t.n == z && t.r.T? && Good(k, t) && m.T?
      requires y in cells && y !in Nodes(t) && y !in CtxNodes(k)
      requires cells[y].left == NULL && cells[y].color == m.c && cells[y].id == m.id
      modifies this`cells
      ensures cells.Keys == old(cells.Keys) && Detached(z, y, k, t, m, t.r)
    {
      FocusFields(k, t);
      RepDomain(cells, t, Par(k));
      RepCtxDomain(cells, k, z, root);
      assert t.r.n in Nodes(t.r);
      cells := cells[y := cells[y].(right := cells[z].right)];
      var c: Node := cells[y].right;
      cells := cells[c := cells[c].(parent := y)];
      Reparent(old(cells), cells, t.r, z, y);
      RepFrame(old(cells), cells, t.l, z);
      RepCtxFrame(old(cells), cells, k, z, root);
      if augment { ExactLeftOff(gaps, t.r, t.id + 1, Hi(k, UINT_MAX)); }
    }

    /** The successor takes the place, the left part and the colour of `z`. */
    method Adopt(z: Node, y: Node, ghost k: Ctx<Node>, ghost t: Shape<Node>, ghost m: Shape<Node>, ghost r: Shape<Node>)
      requires t.T? && t.l.T? && m.T? && Detached(z, y, k, t, m, r)
      requires z != y && z !in Nodes(t.l) && z !in Nodes(r)
      requires Apart(k, T(t.l, y, t.c, m.id, r)) && Ordered(k, T(t.l, y, t.c, m.id, r))
      modifies this
      ensures cells.Keys == old(cells.Keys) == gaps.Keys && At(cells, root, k, T(t.l, y, t.c, m.id, r))
      ensures augment ==> Off(gaps, k, 0, UINT_MAX) && Exact(gaps, t.l, Lo(k, 0), t.id)
                          && LeftOff(gaps, r, Hi(k, UINT_MAX))
      ensures augment && r.E? ==> gaps[y].r == MaxGap(r, m.id + 1, Hi(k, UINT_MAX))
    {
      ghost var v := T(E, y, m.c, m.id, r);
      ghost var q := cells[y].parent;
      assert !k.Top? ==> k.n in CtxNodes(k);
      WithoutLeft(k, T(t.l, y, t.c, m.id, r), m.c);
      Transplant(z, y, k, v, q);
      RepDomain(old(cells), t.l, z);
      RepFrame(old(cells), cells, t.l, z);
      if augment { AdoptGaps(old(gaps), gaps, k, t.l, t.id, y, t.c, m.id, r); }
      AttachLeft(z, y, k, t, v);
    }

    lemma AdoptGaps(g: Gaps, g': Gaps, k: Ctx<Node>, l: Shape<Node>, h: nat, y: Node, c: Color, id: nat, r: Shape<Node>)
      requires Apart(k, T(l, y, c, id, r)) && Ordered(k, T(l, y, c, id, r)) && g.Keys == g'.Keys
      requires forall x :: x in g && x !in CtxNodes(k) && x != y ==> g'[x] == g[x]
      requires Exact(g, l, Lo(k, 0), h) && LeftOff(g, r, Hi(k, UINT_MAX)) && (r.T? ==> r.n in g)
      requires y in g' && g'[y] == Fresh(g, k, id, NULL, Ptr(r))
      ensures Exact(g', l, Lo(k, 0), h) && LeftOff(g', r, Hi(k, UINT_MAX))
      ensures r.E? ==> g'[y].r == MaxGap(r, id + 1, Hi(k, UINT_MAX))
    {
      ExactFrame(g, g', l, Lo(k, 0), h);
      LeftOffFrame(g, g', r, Hi(k, UINT_MAX));
      BstRange(l, Lo(k, 0), id);
      BstRange(r, id + 1, Hi(k, UINT_MAX));
      GapAboveExact(k, id, id);
    }

    /** `y`, now in place, takes over the left part and the colour of `z`. */
    method AttachLeft(z: Node, y: Node, ghost k: Ctx<Node>, ghost t: Shape<Node>, ghost v: Shape<Node>)
      requires t.T? && t.l.T? && v.T? && v.n == y && v.l.E? && At(cells, root, k, v)
      requires z in cells && cells[z].left == t.l.n && cells[z].color == t.c && Rep(cells, t.l, z)
      requires z != y && z !in Nodes(t.l) && Apart(k, T(t.l, y, t.c, v.id, v.r))
      modifies this`cells
      ensures cells.Keys == old(cells.Keys) && At(cells, root, k, T(t.l, y, t.c, v.id, v.r))
    {
      AtUnder(cells, root, k, v);
      RepDomain(cells, t.l, z);
      RepDomain(cells, v, Par(k));
      RepCtxDomain(cells, k, y, root);
      assert t.l.n in Nodes(t.l);
      var l: Node := cells[z].left;
      cells := cells[y := cells[y].(left := l)];
      cells := cells[l := cells[l].(parent := y)];
      cells := cells[y := cells[y].(color := cells[z].color)];
      Reparent(old(cells), cells, t.l, z, y);
      RepFrame(old(cells), cells, v.r, y);
      RepCtxFrame(old(cells), cells, k, y, root);
    }

    /** The last two calls of the callback in lib_rbRemove. */
    method FinishGaps(y: Node, ghost k: Ctx<Node>, ghost s: Shape<Node>, ghost h: nat)
      requires s.T? && s.n == y && s.l.T? && At(cells, root, k, s) && Ordered(k, s) && cells.Keys == gaps.Keys
      requires augment ==> Off(gaps, k, 0, UINT_MAX) && Exact(gaps, s.l, Lo(k, 0), h)
                           && LeftOff(gaps, s.r, Hi(k, UINT_MAX))
      requires augment && s.r.E? ==> gaps[y].r == MaxGap(s.r, s.id + 1, Hi(k, UINT_MAX))
      modifies this`gaps
      ensures cells.Keys == old(cells.Keys) && Good(k, s)
    {
      AtUnder(cells, root, k, s);
      AugmentMax(y, k, s, h);
      if cells[y].right != NULL {
        var t2, a, m := Minimum(cells[y].right, s.r, y);
        ghost var d := InR(k, s.l, s.n, s.c, s.id);
        AtCat(cells, root, a, d, m);
        MinOfRightAt(k, s, a, m);
        if augment { MinOfRightNearly(gaps, k, s, a, m); }
        AugmentAt(t2, Cat(a, d), m);
        GoodCat(a, d, m);
        GoodUp(d, s.r);
      } else if augment {
        NoRightGaps(gaps, k, s);
      }
    }

    method AugmentMax(y: Node, ghost k: Ctx<Node>, ghost s: Shape<Node>, ghost h: nat)
      requires s.T? && s.n == y && s.l.T? && At(cells, root, k, s) && Ordered(k, s) && cells.Keys == gaps.Keys
      requires augment ==> Off(gaps, k, 0, UINT_MAX) && Exact(gaps, s.l, Lo(k, 0), h)
                           && LeftOff(gaps, s.r, Hi(k, UINT_MAX))
      modifies this`gaps
      ensures cells.Keys == gaps.Keys && y in gaps
      ensures augment ==> Off(gaps, k, 0, UINT_MAX) && Exact(gaps, s.l, Lo(k, 0), s.id)
                          && LeftOff(gaps, s.r, Hi(k, UINT_MAX)) && Path(gaps, k, gaps[y].Top())
      ensures augment ==> gaps[y] == Gap(MaxGap(s.l, Lo(k, 0), s.id), old(gaps)[y].r)
    {
      AtUnder(cells, root, k, s);
      RepDomain(cells, s, Par(k));
      RepCtxDomain(cells, k, y, root);
      var t1, a, m := Maximum(cells[y].left, s.l, y);
      ghost var d := InL(k, s.n, s.c, s.id, s.r);
      AtCat(cells, root, a, d, m);
      AtUnder(cells, root, Cat(a, d), m);
      if augment {
        AugmentMaxOfLeft(gaps, k, s, h, a, m);
        LeftOffFrame(gaps, Augmented(gaps, Cat(a, d), m.n, m.id, Ptr(m.l), NULL), s.r, Hi(k, UINT_MAX));
      }
      RbAugment(t1, Cat(a, d));
    }

    /** The successor `y` is detached and put in the place of `z`. */
    method PromoteSuccessor(z: Node, y: Node, ghost k: Ctx<Node>, ghost t: Shape<Node>, ghost a: Ctx<Node>,
      ghost m: Shape<Node>)
      returns (p: Link)
      requires t.T? && t.n == z && t.l.T? && Good(k, t) && Rm.RbAt(k, t)
      requires m.T? && m.n == y && m.l.E? && AllLeft(a) && t.r == Plug(a, m)
      modifies this
      ensures cells.Keys == old(cells.Keys) && p == (if a.Top? then y else a.n)
      ensures Good(k, T(t.l, y, t.c, m.id, Plug(a, m.r)))
    {
      SuccessorFields(k, t, a, m);
      SuccessorApart(k, t, a, m);
      if cells[y].parent == z {
        p := y;
        SuccessorIsChild(k, t);
      } else {
        p := cells[y].parent;
        DetachSuccessor(z, y, k, t, a, m);
      }
      Adopt(z, y, k, t, m, Plug(a, m.r));
      FinishGaps(y, k, T(t.l, y, t.c, m.id, Plug(a, m.r)), t.id);
    }

    /** A node with two children: its successor takes its place. */
    method SpliceTwo(z: Node, ghost k: Ctx<Node>, ghost t: Shape<Node>)
      returns (c: Color, x: Link, p: Link, ghost kx: Ctx<Node>, ghost tx: Shape<Node>)
      requires t.T? && t.n == z && t.l.T? && t.r.T? && Good(k, t) && Rm.RbAt(k, t)
      modifies this
      ensures cells.Keys == old(cells.Keys) && Good(kx, tx) && x == Ptr(tx) && p == Par(kx)
      ensures c == Black ==> Rm.Short(kx, tx)
      ensures c == Red ==> Rm.RbAt(kx, tx)
      ensures CtxItems(kx) + Items(tx) == CtxItems(k) + Items(t.l) + Items(t.r)
    {
      FocusFields(k, t);
      var y, a, m := Minimum(cells[z].right, t.r, z);
      SuccessorFields(k, t, a, m);
      c, x := cells[y].color, cells[y].right;
      p := PromoteSuccessor(z, y, k, t, a, m);
      ghost var d := InR(k, t.l, y, t.c, m.id);
      kx, tx := Cat(a, d), m.r;
      GoodUp(d, Plug(a, m.r));
      GoodCat(a, d, m.r);
      Rm.SplicedSuccessor(k, t, a, m);
      SuccessorItems(k, t, a, m);
    }

    lemma SuccessorFields(k: Ctx<Node>, t: Shape<Node>, a: Ctx<Node>, m: Shape<Node>)
      requires t.T? && m.T? && t.r == Plug(a, m) && Good(k, t)
      ensures m.n in cells && cells[m.n].right == Ptr(m.r) && cells[m.n].color == m.c
      ensures cells[m.n].parent == (if a.Top? then t.n else a.n)
      ensures !a.Top? ==> a.n != t.n
    {
      var kz := InR(k, t.l, t.n, t.c, t.id);
      GoodUp(kz, t.r);
      GoodCat(a, kz, m);
      FocusFields(Cat(a, kz), m);
      PlugNodes(a, m);
    }

    lemma SuccessorApart(k: Ctx<Node>, t: Shape<Node>, a: Ctx<Node>, m: Shape<Node>)
      requires t.T? && m.T? && m.l.E? && AllLeft(a) && t.r == Plug(a, m) && Good(k, t)
      ensures var r := Plug(a, m.r); var s := T(t.l, m.n, t.c, m.id, r);
        && Apart(k, s) && Ordered(k, s) && t.n !in Nodes(t.l) && t.n !in Nodes(r) && t.n != m.n
    {
      NotInside(k, t, a, m);
      PlugNodes(a, m);
      PlugNodes(a, m.r);
      CatTop(a);
      ApartCat(a, Top, m);
      ApartCat(a, Top, m.r);
      Rm.SuccessorOrder(t, a, m, Lo(k, 0), Hi(k, UINT_MAX));
    }

    /** The node at the focus is spliced out and the tree rebalanced. */
    method RemoveAt(z: Node, ghost k: Ctx<Node>, ghost t: Shape<Node>) returns (ghost s: Shape<Node>)
      requires t.T? && t.n == z && Good(k, t) && Rm.RbAt(k, t)
      modifies this
      ensures cells.Keys == old(cells.Keys) && Good(Top, s) && IsRb(s)
      ensures Items(s) == CtxItems(k) + Items(t.l) + Items(t.r)
    {
      FocusFields(k, t);
      var p, c, x := cells[z].parent, cells[z].color, NULL;
      ghost var kx, tx := k, t.r;
      if cells[z].left == NULL {
        x := cells[z].right;
        Rm.SplicedOne(k, t, t.r);
        SpliceOne(z, x, k, t, t.r);
      } else if cells[z].right == NULL {
        x, tx := cells[z].left, t.l;
        Rm.SplicedOne(k, t, t.l);
        SpliceOne(z, x, k, t, t.l);
      } else {
        c, x, p, kx, tx := SpliceTwo(z, k, t);
      }
      if c == Black {
        s := RemoveBalance(p, x, kx, tx);
      } else {
        s := Plug(kx, tx);
        Rm.RbAtPlug(kx, tx);
        GoodPlug(kx, tx);
        PlugItems(kx, tx);
      }
    }

    /** lib_rbRemove. */
    method Remove(z: Node)
      requires Valid() && z in cells
      modifies this
      ensures Valid() && cells.Keys == old(cells.Keys) - {z}
      ensures Items(shape) == old(Items(shape)) - {(z, old(cells)[z].id)}
    {
      ghost var k, t := Locate(shape, z);
      GoodPlug(k, t);
      Rm.RbAtPlug(k, t);
      PlugItems(k, t);
      PlugNodes(k, t);
      FocusFields(k, t);
      LeavesItems(k, t);
      shape := RemoveAt(z, k, t);
      Forget(z, k, t);
    }

    /** The removed node leaves the memory the tree owns. */
    method Forget(z: Node, ghost k: Ctx<Node>, ghost t: Shape<Node>)
      requires Good(Top, shape) && IsRb(shape) && t.T? && t.n == z && Apart(k, t)
      requires cells.Keys == CtxNodes(k) + Nodes(t)
      requires Items(shape) == CtxItems(k) + Items(t.l) + Items(t.r)
      requires forall x :: x in CtxKeys(k) + Keys(t) ==> x < ID_LIMIT
      modifies this`cells, this`gaps
      ensures cells.Keys == old(cells.Keys) - {z} && Valid()
    {
      NodesFromItems(shape, k, t);
      cells := cells - {z};
      gaps := gaps - {z};
      RepDomain(old(cells), shape, NULL);
      RepFrame(old(cells), cells, shape, NULL);
      if augment { ExactFrame(old(gaps), gaps, shape, 0, UINT_MAX); }
    }
  }

  lemma WithoutLeft(k: Ctx<Node>, s: Shape<Node>, c: Color)
    requires s.T? && Apart(k, s)
    ensures Apart(k, T(E, s.n, c, s.id, s.r))
  {
    var v := T(E, s.n, c, s.id, s.r);
    assert Nodes(v) == {s.n} + Nodes(s.r);
  }

  lemma NoRightGaps(g: Gaps, k: Ctx<Node>, s: Shape<Node>)
    requires s.T? && s.r.E? && s.n in g && Exact(g, s.l, Lo(k, 0), s.id)
    requires g[s.n] == Gap(MaxGap(s.l, Lo(k, 0), s.id), MaxGap(s.r, s.id + 1, Hi(k, UINT_MAX)))
    requires Off(g, k, 0, UINT_MAX) && Path(g, k, g[s.n].Top())
    ensures GapsAt(g, k, s)
  {
  }

  lemma PlugIn<N>(a: Ctx<N>, t: Shape<N>)
    requires !a.Top?
    ensures Plug(a, t).T?
  {
    PlugNonempty(a.up, Fill(a, t));
  }

  /** The successor taken out is no longer in the tree. */
  lemma NotInside(k: Ctx<Node>, t: Shape<Node>, a: Ctx<Node>, m: Shape<Node>)
    requires t.T? && m.T? && t.r == Plug(a, m) && Apart(k, t)
    ensures m.n !in Nodes(Plug(a, m.r)) && m.n !in Nodes(t.l) && m.n != t.n && m.n !in CtxNodes(k)
  {
    PlugNodes(a, m);
    PlugNodes(a, m.r);
    CatTop(a);
    ApartCat(a, Top, m);
  }

  lemma SuccessorItems(k: Ctx<Node>, t: Shape<Node>, a: Ctx<Node>, m: Shape<Node>)
    requires t.T? && m.T? && m.l.E? && t.r == Plug(a, m)
    ensures CtxItems(Cat(a, InR(k, t.l, m.n, t.c, m.id))) + Items(m.r) == CtxItems(k) + Items(t.l) + Items(t.r)
  {
    CatItems(a, InR(k, t.l, m.n, t.c, m.id));
    PlugItems(a, m);
  }

  lemma ItemsDetermine<N>(a: Shape<N>, b: Shape<N>)
    requires Items(a) == Items(b)
    ensures Nodes(a) == Nodes(b) && Keys(a) == Keys(b)
  {
    ItemsAre(a);
    ItemsAre(b);
  }

  lemma LeafSets<N>(t: Shape<N>)
    requires t.T? && t.l.E? && t.r.E?
    ensures Items(t) == {(t.n, t.id)} && Nodes(t) == {t.n} && Keys(t) == {t.id}
  {
  }

  lemma ItemsGrow(s: Shape<Node>, s': Shape<Node>, k: Ctx<Node>, t: Shape<Node>)
    requires t.T? && t.l.E? && t.r.E? && s == Plug(k, E) && Items(s') == CtxItems(k) + Items(t)
    ensures Items(s') == Items(s) + {(t.n, t.id)}
    ensures Nodes(s') == Nodes(s) + {t.n} && Keys(s') == Keys(s) + {t.id}
  {
    LeafSets(t);
    assert Items(s) == CtxItems(k) && Keys(s) == CtxKeys(k) by { PlugItems(k, E); }
    assert Nodes(s) == CtxNodes(k) by { PlugNodes(k, E); }
    PlugItems(k, t);
    PlugNodes(k, t);
    ItemsDetermine(s', Plug(k, t));
  }

  /** Taking the root of `t` out of the items. */
  lemma LeavesItems(k: Ctx<Node>, t: Shape<Node>)
    requires t.T? && Apart(k, t)
    ensures CtxItems(k) + Items(t.l) + Items(t.r) == (CtxItems(k) + Items(t)) - {(t.n, t.id)}
  {
    if (t.n, t.id) in CtxItems(k) { CtxItemNodes(k, t.n, t.id); }
    if (t.n, t.id) in Items(t.l) { ItemNodes(t.l, t.n, t.id); }
    if (t.n, t.id) in Items(t.r) { ItemNodes(t.r, t.n, t.id); }
  }

  lemma NodesFromItems(s: Shape<Node>, k: Ctx<Node>, t: Shape<Node>)
    requires t.T? && Apart(k, t) && Items(s) == CtxItems(k) + Items(t.l) + Items(t.r)
    ensures Nodes(s) == CtxNodes(k) + Nodes(t) - {t.n} && Keys(s) <= CtxKeys(k) + Keys(t)
  {
    ItemsAre(s);
    ItemsAre(Plug(k, t));
    PlugItems(k, t);
    PlugNodes(k, t);
    LeavesItems(k, t);
    UniqueItem(k, t);
  }

  lemma UniqueItem(k: Ctx<Node>, t: Shape<Node>)
    requires t.T? && Apart(k, t)
    ensures forall x :: x in CtxItems(k) + Items(t) && x.0 == t.n ==> x.1 == t.id
  {
    forall x | x in CtxItems(k) + Items(t) && x.0 == t.n
      ensures x.1 == t.id
    {
      if x in CtxItems(k) { CtxItemNodes(k, x.0, x.1); }
      else if x in Items(t.l) { ItemNodes(t.l, x.0, x.1); }
      else if x in Items(t.r) { ItemNodes(t.r, x.0, x.1); }
    }
  }
}
