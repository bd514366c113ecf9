/** The bins of malloc_dl.c: 32 lists of free chunks of one small size each, 32 search trees of
    larger free chunks, and the bitmaps of the bins that are not empty. */
module MallocBins {
  import opened MallocSize
  import opened MallocArena

  /** A circular list, from its head on. */
  type List = seq<Addr>

  /** A tree of larger chunks: for each size in it the chunks of that size, the one that is the
      tree's node first. The shape of the tree is left open here. */
  type Tree = map<nat, List>

  const BINS := 32

  ghost predicate NoDups(l: List) {
    forall i, j :: 0 <= i < j < |l| ==> l[i] != l[j]
  }

  /** A free chunk that is not one of `out`. */
  ghost predicate IsFree(chunks: Chunks, out: set<Addr>, c: Addr) {
    c in chunks && !chunks[c].used && c !in out
  }

  ghost predicate InSmall(chunks: Chunks, out: set<Addr>, i: nat, c: Addr) {
    IsFree(chunks, out, c) && chunks[c].size <= SMALLBIN_MAX_SIZE && SmallIndex(chunks[c].size) == i
  }

  ghost predicate InLarge(chunks: Chunks, out: set<Addr>, i: nat, s: nat, c: Addr) {
    IsFree(chunks, out, c) && chunks[c].size == s > SMALLBIN_MAX_SIZE && LargeIndex(s) == i
  }

  /** A list has exactly the free chunks of its size. */
  ghost predicate SmallOk(chunks: Chunks, out: set<Addr>, i: nat, l: List) {
    NoDups(l) && forall c {:trigger InSmall(chunks, out, i, c)} :: c in l <==> InSmall(chunks, out, i, c)
  }

  ghost predicate InTree(t: Tree, s: nat, c: Addr) {
    s in t && c in t[s]
  }

  /** A tree has exactly the free chunks of its sizes, and no list in it is empty. */
  ghost predicate LargeOk(chunks: Chunks, out: set<Addr>, i: nat, t: Tree) {
    && (forall s :: s in t ==> t[s] != [] && NoDups(t[s]))
    && forall s: nat, c {:trigger InLarge(chunks, out, i, s, c)} {:trigger InTree(t, s, c)} ::
      InTree(t, s, c) <==> InLarge(chunks, out, i, s, c)
  }

  /** Every free chunk but those of `out` is in the bin of its size and in no other; a bit of a
      bitmap is set exactly if its bin is not empty. */
  ghost predicate Binned(chunks: Chunks, out: set<Addr>, sbins: seq<List>, lbins: seq<Tree>, sbinmap: set<nat>,
    lbinmap: set<nat>) {
    && |sbins| == BINS == |lbins|
    && (forall i :: 0 <= i < BINS ==> SmallOk(chunks, out, i, sbins[i]))
    && (forall i :: 0 <= i < BINS ==> LargeOk(chunks, out, i, lbins[i]))
    && sbinmap == (set i | 0 <= i < BINS && sbins[i] != [])
    && lbinmap == (set i | 0 <= i < BINS && lbins[i] != map[])
  }

  /** Chunks may change as long as the free ones that are in bins and their sizes do not. */
  lemma BinsKeep(chunks: Chunks, out: set<Addr>, chunks': Chunks, out': set<Addr>,
                 sbins: seq<List>, lbins: seq<Tree>, sbinmap: set<nat>, lbinmap: set<nat>)
    requires Binned(chunks, out, sbins, lbins, sbinmap, lbinmap)
    requires forall c :: IsFree(chunks, out, c) <==> IsFree(chunks', out', c)
    requires forall c :: IsFree(chunks, out, c) && c in chunks' ==> chunks'[c].size == chunks[c].size
    ensures Binned(chunks', out', sbins, lbins, sbinmap, lbinmap)
  {
    forall i | 0 <= i < BINS ensures SmallOk(chunks', out', i, sbins[i]) {
      forall c ensures c in sbins[i] <==> InSmall(chunks', out', i, c) {
        assert InSmall(chunks, out, i, c) <==> InSmall(chunks', out', i, c);
      }
    }
    forall i | 0 <= i < BINS ensures LargeOk(chunks', out', i, lbins[i]) {
      assert LargeOk(chunks, out, i, lbins[i]);
      forall s: nat, c ensures InTree(lbins[i], s, c) <==> InLarge(chunks', out', i, s, c) {
        assert InLarge(chunks, out, i, s, c) <==> InLarge(chunks', out', i, s, c);
      }
    }
  }

  // ----- lists -----

  function Without(l: List, c: Addr): List {
    if l == [] then [] else if l[0] == c then l[1..] else [l[0]] + Without(l[1..], c)
  }

  lemma {:induction false} WithoutIs(l: List, c: Addr)
    requires NoDups(l)
    ensures NoDups(Without(l, c)) && forall x :: x in Without(l, c) <==> x in l && x != c
  {
    if l == [] {
    } else if l[0] == c {
      assert forall x :: x in l <==> x == l[0] || x in l[1..];
    } else {
      assert NoDups(l[1..]);
      WithoutIs(l[1..], c);
      assert forall x :: x in l <==> x == l[0] || x in l[1..];
      assert l[0] !in l[1..];
    }
  }

  lemma AppendIs(l: List, c: Addr)
    requires NoDups(l) && c !in l
    ensures NoDups(l + [c]) && forall x :: x in l + [c] <==> x in l || x == c
  {
  }

  // ----- adding and removing a chunk -----

  lemma OthersSmall(chunks: Chunks, out: set<Addr>, out': set<Addr>, c: Addr, j: nat, l: List)
    requires SmallOk(chunks, out, j, l) && c in chunks && (out' == out - {c} || out' == out + {c})
    requires chunks[c].size <= SMALLBIN_MAX_SIZE ==> SmallIndex(chunks[c].size) != j
    ensures SmallOk(chunks, out', j, l)
  {
    forall x ensures x in l <==> InSmall(chunks, out', j, x) {
      assert InSmall(chunks, out, j, x) <==> InSmall(chunks, out', j, x);
    }
  }

  lemma OthersLarge(chunks: Chunks, out: set<Addr>, out': set<Addr>, c: Addr, j: nat, t: Tree)
    requires LargeOk(chunks, out, j, t) && c in chunks && (out' == out - {c} || out' == out + {c})
    requires chunks[c].size > SMALLBIN_MAX_SIZE ==> LargeIndex(chunks[c].size) != j
    ensures LargeOk(chunks, out', j, t)
  {
    forall s: nat, x ensures InTree(t, s, x) <==> InLarge(chunks, out', j, s, x) {
      assert InLarge(chunks, out, j, s, x) <==> InLarge(chunks, out', j, s, x);
    }
  }

  lemma SmallAdded(chunks: Chunks, out: set<Addr>, c: Addr, sbins: seq<List>, lbins: seq<Tree>, sbinmap: set<nat>,
    lbinmap: set<nat>, i: nat)
    requires Binned(chunks, out, sbins, lbins, sbinmap, lbinmap) && c in chunks && !chunks[c].used && c in out
    requires chunks[c].size <= SMALLBIN_MAX_SIZE && i == SmallIndex(chunks[c].size)
    ensures Binned(chunks, out - {c}, sbins[i := sbins[i] + [c]], lbins, sbinmap + {i}, lbinmap)
  {
    var out', sbins' := out - {c}, sbins[i := sbins[i] + [c]];
    forall j | 0 <= j < BINS ensures SmallOk(chunks, out', j, sbins'[j]) {
      if j == i {
        assert SmallOk(chunks, out, i, sbins[i]);
        assert c !in sbins[i] by { assert !InSmall(chunks, out, i, c); }
        AppendIs(sbins[i], c);
        forall x ensures x in sbins'[i] <==> InSmall(chunks, out', i, x) {
          assert x != c ==> (InSmall(chunks, out, i, x) <==> InSmall(chunks, out', i, x));
        }
      } else {
        OthersSmall(chunks, out, out', c, j, sbins[j]);
      }
    }
    forall j | 0 <= j < BINS ensures LargeOk(chunks, out', j, lbins[j]) {
      OthersLarge(chunks, out, out', c, j, lbins[j]);
    }
  }

  lemma SmallRemoved(chunks: Chunks, out: set<Addr>, c: Addr, sbins: seq<List>, lbins: seq<Tree>, sbinmap: set<nat>,
    lbinmap: set<nat>, i: nat, l: List)
    requires Binned(chunks, out, sbins, lbins, sbinmap, lbinmap) && IsFree(chunks, out, c)
    requires chunks[c].size <= SMALLBIN_MAX_SIZE && i == SmallIndex(chunks[c].size) && l == Without(sbins[i], c)
    ensures Binned(chunks, out + {c}, sbins[i := l], lbins, if l == [] then sbinmap - {i} else sbinmap, lbinmap)
  {
    var out', sbins' := out + {c}, sbins[i := l];
    forall j | 0 <= j < BINS ensures SmallOk(chunks, out', j, sbins'[j]) {
      if j == i {
        assert SmallOk(chunks, out, i, sbins[i]);
        WithoutIs(sbins[i], c);
        forall x ensures x in sbins'[i] <==> InSmall(chunks, out', i, x) {
          assert x != c ==> (InSmall(chunks, out, i, x) <==> InSmall(chunks, out', i, x));
        }
      } else {
        OthersSmall(chunks, out, out', c, j, sbins[j]);
      }
    }
    forall j | 0 <= j < BINS ensures LargeOk(chunks, out', j, lbins[j]) {
      OthersLarge(chunks, out, out', c, j, lbins[j]);
    }
    assert sbins[i] != [] by { assert InSmall(chunks, out, i, c); }
  }

  /** A tree with one more chunk of size `s`. */
  function TreeWith(t: Tree, s: nat, c: Addr): Tree {
    t[s := (if s in t then t[s] else []) + [c]]
  }

  /** A tree with one chunk of size `s` less. */
  function TreeWithout(t: Tree, s: nat, c: Addr): Tree
    requires s in t
  {
    var l := Without(t[s], c);
    if l == [] then t - {s} else t[s := l]
  }

  lemma TreeWithOk(chunks: Chunks, out: set<Addr>, i: nat, t: Tree, s: nat, c: Addr)
    requires LargeOk(chunks, out, i, t) && c in chunks && !chunks[c].used && c in out
    requires chunks[c].size == s > SMALLBIN_MAX_SIZE && LargeIndex(s) == i
    ensures LargeOk(chunks, out - {c}, i, TreeWith(t, s, c))
  {
    var out', t' := out - {c}, TreeWith(t, s, c);
    assert !InLarge(chunks, out, i, s, c) && !InTree(t, s, c);
    AppendIs(if s in t then t[s] else [], c);
    forall z: nat, x ensures InTree(t', z, x) <==> InLarge(chunks, out', i, z, x) {
      assert InTree(t, z, x) <==> InLarge(chunks, out, i, z, x);
      assert x != c ==> (InLarge(chunks, out, i, z, x) <==> InLarge(chunks, out', i, z, x));
    }
  }

  lemma TreeWithoutOk(chunks: Chunks, out: set<Addr>, i: nat, t: Tree, s: nat, c: Addr)
    requires LargeOk(chunks, out, i, t) && InLarge(chunks, out, i, s, c)
    ensures InTree(t, s, c) && LargeOk(chunks, out + {c}, i, TreeWithout(t, s, c))
  {
    assert InTree(t, s, c);
    var out', t' := out + {c}, TreeWithout(t, s, c);
    WithoutIs(t[s], c);
    forall z: nat, x ensures InTree(t', z, x) <==> InLarge(chunks, out', i, z, x) {
      assert InTree(t, z, x) <==> InLarge(chunks, out, i, z, x);
      assert x != c ==> (InLarge(chunks, out, i, z, x) <==> InLarge(chunks, out', i, z, x));
    }
  }

  lemma LargeAdded(chunks: Chunks, out: set<Addr>, c: Addr, sbins: seq<List>, lbins: seq<Tree>, sbinmap: set<nat>,
    lbinmap: set<nat>, i: nat, t: Tree)
    requires Binned(chunks, out, sbins, lbins, sbinmap, lbinmap) && c in chunks && !chunks[c].used && c in out
    requires chunks[c].size > SMALLBIN_MAX_SIZE && i == LargeIndex(chunks[c].size) < BINS
    requires t == TreeWith(lbins[i], chunks[c].size, c)
    ensures Binned(chunks, out - {c}, sbins, lbins[i := t], sbinmap, lbinmap + {i})
  {
    var out', lbins' := out - {c}, lbins[i := t];
    forall j | 0 <= j < BINS ensures LargeOk(chunks, out', j, lbins'[j]) {
      if j == i {
        TreeWithOk(chunks, out, i, lbins[i], chunks[c].size, c);
      } else {
        OthersLarge(chunks, out, out', c, j, lbins[j]);
      }
    }
    forall j | 0 <= j < BINS ensures SmallOk(chunks, out', j, sbins[j]) {
      OthersSmall(chunks, out, out', c, j, sbins[j]);
    }
    assert chunks[c].size in t;
  }

  lemma LargeRemoved(chunks: Chunks, out: set<Addr>, c: Addr, sbins: seq<List>, lbins: seq<Tree>, sbinmap: set<nat>,
    lbinmap: set<nat>, i: nat)
    requires Binned(chunks, out, sbins, lbins, sbinmap, lbinmap) && IsFree(chunks, out, c)
    requires chunks[c].size > SMALLBIN_MAX_SIZE && i == LargeIndex(chunks[c].size) < BINS
    ensures chunks[c].size in lbins[i]
    ensures var t := TreeWithout(lbins[i], chunks[c].size, c);
      Binned(chunks, out + {c}, sbins, lbins[i := t], sbinmap, if t == map[] then lbinmap - {i} else lbinmap)
  {
    assert LargeOk(chunks, out, i, lbins[i]);
    assert InLarge(chunks, out, i, chunks[c].size, c);
    TreeWithoutOk(chunks, out, i, lbins[i], chunks[c].size, c);
    var t := TreeWithout(lbins[i], chunks[c].size, c);
    var out', lbins' := out + {c}, lbins[i := t];
    forall j | 0 <= j < BINS && j != i ensures LargeOk(chunks, out', j, lbins'[j]) {
      OthersLarge(chunks, out, out', c, j, lbins[j]);
    }
    forall j | 0 <= j < BINS ensures SmallOk(chunks, out', j, sbins[j]) {
      OthersSmall(chunks, out, out', c, j, sbins[j]);
    }
  }
}
