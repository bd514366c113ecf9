/** The allocator of libphoenix/stdlib/malloc_dl.c, each call as the step its mutex makes it. */
module Malloc {
  import opened MallocSize
  import opened MallocArena
  import opened MallocBins
  import opened MallocSteps

  /** Boundary tags and neighbours: all in order but for the named chunks. */
  ghost predicate Tagged(heaps: Heaps, chunks: Chunks, back: map<Addr, Addr>, foot: map<Addr, nat>,
                         tiny: set<Addr>, lax: set<Addr>, bare: set<Addr>, ex: set<Addr>) {
    && Tiles(heaps, chunks, back) && Roomy(chunks, tiny) && Flagged(chunks, lax)
    && Footed(chunks, foot, bare) && Merged(chunks, ex)
  }

  /** malloc_chunkIsLast. */
  predicate IsLast(heaps: Heaps, chunks: Chunks, c: Addr)
    requires c in chunks && chunks[c].heap in heaps
  {
    c + chunks[c].size + CHUNK_MIN_SIZE > chunks[c].heap + heaps[chunks[c].heap].size
  }

  lemma LastIs(heaps: Heaps, chunks: Chunks, back: map<Addr, Addr>, tiny: set<Addr>, c: Addr)
    requires Tiles(heaps, chunks, back) && Roomy(chunks, tiny) && c in chunks && Past(chunks, c) !in tiny
    ensures chunks[c].heap in heaps
    ensures IsLast(heaps, chunks, c) <==> Past(chunks, c) == HeapEnd(heaps, chunks[c].heap)
    ensures IsLast(heaps, chunks, c) <==> !Follows(chunks, c, Past(chunks, c))
  {
    assert ChunkOk(heaps, chunks, back, c);
    var n := Past(chunks, c);
    if n in chunks {
      assert ChunkOk(heaps, chunks, back, n);
      var g, h := chunks[c].heap, chunks[n].heap;
      assert HeapBefore(heaps, g, h) && HeapBefore(heaps, h, g);
    }
  }

  /** A free chunk with no free neighbour has CHUNK_PUSED set. */
  lemma PrevUsed(heaps: Heaps, chunks: Chunks, back: map<Addr, Addr>, c: Addr)
    requires Tiles(heaps, chunks, back) && Flagged(chunks, {}) && Merged(chunks, {}) && c in chunks && !chunks[c].used
    ensures chunks[c].prevUsed
  {
    assert ChunkOk(heaps, chunks, back, c);
    if c == chunks[c].heap + HEAP_HEADER {
      assert HeapOk(heaps, chunks, chunks[c].heap);
    } else {
      assert Follows(chunks, back[c], c);
    }
  }

  lemma CutTagged(heaps: Heaps, chunks: Chunks, back: map<Addr, Addr>, foot: map<Addr, nat>, c: Addr, n: nat,
                  chunks': Chunks, back': map<Addr, Addr>, foot': map<Addr, nat>)
    requires Tagged(heaps, chunks, back, foot, {}, {}, {}, {}) && c in chunks && 0 < n
    requires n + CHUNK_MIN_SIZE <= chunks[c].size && n % 8 == 0
    requires chunks' == Cut(chunks, c, n, chunks[c].used, chunks[c].prevUsed, chunks[c].used)
    requires back' == CutBack(chunks, back, c, n) && foot' == foot[Past(chunks, c) := chunks[c].size - n]
    ensures c + n !in chunks && chunks[c].heap in heaps
    ensures Tagged(heaps, chunks', back', foot', if n < CHUNK_MIN_SIZE then {c} else {},
      if chunks[c].used then {c + n} else {}, {c}, if chunks[c].used then {c + n} else {c})
    ensures FreeIn(heaps, chunks', chunks[c].heap)
      == FreeIn(heaps, chunks, chunks[c].heap) + if chunks[c].used then chunks[c].size - n else 0
    ensures forall g :: g in heaps && g != chunks[c].heap ==> FreeIn(heaps, chunks', g) == FreeIn(heaps, chunks, g)
  {
    var used := chunks[c].used;
    assert ChunkOk(heaps, chunks, back, c);
    if c == chunks[c].heap + HEAP_HEADER { assert HeapOk(heaps, chunks, chunks[c].heap); }
    CutTiles(heaps, chunks, back, c, n, chunks', back');
    CutFlags(heaps, chunks, back, c, n, used, if used then {c + n} else {}, chunks');
    CutMerged(heaps, chunks, back, c, n, used, chunks');
    CutFeet(heaps, chunks, back, c, n, used, foot, foot', chunks');
    CutSum(heaps, chunks, back, c, n, used, chunks');
  }

  /** A heap with its count changed. */
  ghost predicate Recount(heaps: Heaps, heaps': Heaps, h: Addr, freesz: nat) {
    h in heaps && heaps' == heaps[h := Heap(heaps[h].size, freesz)]
  }

  lemma RecountTiles(heaps: Heaps, chunks: Chunks, back: map<Addr, Addr>, heaps': Heaps, h: Addr, freesz: nat)
    requires Tiles(heaps, chunks, back) && Recount(heaps, heaps', h, freesz)
    ensures Tiles(heaps', chunks, back)
  {
    forall c | c in chunks && c == chunks[c].heap + HEAP_HEADER ensures chunks[c].prevUsed {
      assert ChunkOk(heaps, chunks, back, c) && HeapOk(heaps, chunks, chunks[c].heap);
    }
    ShapeTiles(heaps, chunks, back, heaps', chunks);
  }

  /** A chunk is marked used or free, and its heap counts it. */
  lemma MarkedTagged(heaps: Heaps, chunks: Chunks, back: map<Addr, Addr>, foot: map<Addr, nat>, c: Addr, used: bool,
    tiny: set<Addr>, bare: set<Addr>, ex: set<Addr>, heaps': Heaps, chunks': Chunks, foot': map<Addr, nat>)
    requires Tagged(heaps, chunks, back, foot, tiny, {}, bare, ex) && c in chunks && chunks[c].used != used
    requires Summed(heaps, chunks)
    requires chunks' == Marked(chunks, c, used)
    requires foot' == if used then foot else foot[Past(chunks, c) := chunks[c].size]
    requires chunks[c].heap in heaps
    requires var h, n := chunks[c].heap, chunks[c].size;
      if used then heaps[h].freesz >= n && Recount(heaps, heaps', h, heaps[h].freesz - n)
      else Recount(heaps, heaps', h, heaps[h].freesz + n)
    ensures Tagged(heaps', chunks', back, foot', tiny, {}, bare - {c}, if used then ex - {c} else ex + {c})
    ensures Summed(heaps', chunks')
  {
    MarkedTiles(heaps, chunks, back, c, used);
    MarkedFlags(heaps, chunks, back, c, used);
    MarkedMerged(heaps, chunks, back, c, used, ex);
    MarkedFeet(heaps, chunks, back, c, used, foot, foot', bare);
    RecountTiles(heaps, chunks', back, heaps', chunks[c].heap, heaps'[chunks[c].heap].freesz);
    MarkedCount(heaps, chunks, back, c, used, heaps', chunks');
  }

  lemma MarkedCount(heaps: Heaps, chunks: Chunks, back: map<Addr, Addr>, c: Addr, used: bool, heaps': Heaps,
    chunks': Chunks)
    requires Tiles(heaps, chunks, back) && c in chunks && chunks[c].used != used && Summed(heaps, chunks)
    requires chunks' == Marked(chunks, c, used) && chunks[c].heap in heaps
    requires var h, n := chunks[c].heap, chunks[c].size;
      if used then heaps[h].freesz >= n && Recount(heaps, heaps', h, heaps[h].freesz - n)
      else Recount(heaps, heaps', h, heaps[h].freesz + n)
    ensures Summed(heaps', chunks')
  {
    MarkedSum(heaps, chunks, back, c, used);
    forall g | g in heaps' ensures heaps'[g].freesz == FreeIn(heaps', chunks', g) {
      assert heaps[g].freesz == FreeIn(heaps, chunks, g);
      assert FreeIn(heaps', chunks', g) == FreeIn(heaps, chunks', g);
    }
  }

  /** The count of a heap covers each of its free chunks. */
  lemma CountCovers(heaps: Heaps, chunks: Chunks, back: map<Addr, Addr>, c: Addr)
    requires Tiles(heaps, chunks, back) && Summed(heaps, chunks) && c in chunks && !chunks[c].used
    ensures chunks[c].heap in heaps && heaps[chunks[c].heap].freesz >= chunks[c].size
  {
    assert ChunkOk(heaps, chunks, back, c);
    assert heaps[chunks[c].heap].freesz == FreeIn(heaps, chunks, chunks[c].heap);
    MarkedSum(heaps, chunks, back, c, true);
  }

  lemma LiveCut(chunks: Chunks, c: Addr, n: nat, prevUsed: bool, flag: bool)
    requires c in chunks && 0 < n < chunks[c].size && c + n !in chunks
    ensures Live(Cut(chunks, c, n, chunks[c].used, prevUsed, flag))
      == if chunks[c].used then Live(chunks)[c := n] else Live(chunks)
  {
  }

  lemma LiveMarked(chunks: Chunks, c: Addr, used: bool)
    requires c in chunks
    ensures Live(Marked(chunks, c, used)) == if used then Live(chunks)[c := chunks[c].size] else Live(chunks) - {c}
  {
  }

  lemma FuseTagged(heaps: Heaps, chunks: Chunks, back: map<Addr, Addr>, foot: map<Addr, nat>, c: Addr, d: Addr,
    x: Addr, lax: set<Addr>,
                   chunks': Chunks, back': map<Addr, Addr>)
    requires Tagged(heaps, chunks, back, foot, {}, lax, {x}, {x}) && Follows(chunks, c, d) && x in {c, d} && d !in lax
    requires chunks[c].used == chunks[d].used && chunks' == Fuse(chunks, c, d) && back' == FuseBack(chunks, back, c, d)
    requires Summed(heaps, chunks)
    ensures Tagged(heaps, chunks', back', foot, {}, lax, {c}, {c}) && Summed(heaps, chunks')
  {
    FuseTiles(heaps, chunks, back, c, d, chunks', back');
    FuseFlags(heaps, chunks, back, c, d, lax, chunks');
    FuseMerged(heaps, chunks, back, c, d, chunks');
    FuseFeet(heaps, chunks, back, c, d, foot, chunks');
    FuseSum(heaps, chunks, back, c, d, chunks');
  }

  lemma LiveFuse(chunks: Chunks, c: Addr, d: Addr)
    requires c in chunks && d in chunks && c != d && !chunks[c].used && !chunks[d].used
    ensures Live(Fuse(chunks, c, d)) == Live(chunks)
  {
  }

  /** The chunk before one whose CHUNK_PUSED is clear, found by the word before its header. */
  lemma PrevIs(heaps: Heaps, chunks: Chunks, back: map<Addr, Addr>, foot: map<Addr, nat>, lax: set<Addr>, c: Addr)
    requires Tagged(heaps, chunks, back, foot, {}, lax, {c}, {c}) && c in chunks && !chunks[c].prevUsed && lax <= {c}
    requires c != chunks[c].heap + HEAP_HEADER
    ensures c in foot && foot[c] < c && c - foot[c] in chunks && Follows(chunks, c - foot[c], c)
    ensures !chunks[c - foot[c]].used
  {
    assert ChunkOk(heaps, chunks, back, c);
    var p := back[c];
    assert ChunkOk(heaps, chunks, back, p);
    assert Follows(chunks, p, c);
    assert FootOk(chunks, foot, p);
  }

  /** With a used chunk, or none, on either side no free neighbours are left. */
  lemma JoinedMerged(heaps: Heaps, chunks: Chunks, back: map<Addr, Addr>, lax: set<Addr>, c: Addr)
    requires Tiles(heaps, chunks, back) && Flagged(chunks, lax) && Merged(chunks, {c}) && c in chunks && lax <= {c}
    requires c == chunks[c].heap + HEAP_HEADER || chunks[c].prevUsed
    requires Follows(chunks, c, Past(chunks, c)) ==> chunks[Past(chunks, c)].used
    ensures Merged(chunks, {})
  {
    forall x, y | Follows(chunks, x, y) ensures chunks[x].used || chunks[y].used {
      if y == c {
        assert ChunkOk(heaps, chunks, back, c) && ChunkOk(heaps, chunks, back, x);
      }
    }
  }

  lemma FootSet(heaps: Heaps, chunks: Chunks, back: map<Addr, Addr>, foot: map<Addr, nat>, c: Addr, foot': map<Addr,
    nat>)
    requires Tiles(heaps, chunks, back) && Footed(chunks, foot, {c}) && c in chunks
    requires foot' == foot[Past(chunks, c) := chunks[c].size]
    ensures Footed(chunks, foot', {})
  {
    assert ChunkOk(heaps, chunks, back, c);
    forall d | d in chunks ensures FootOk(chunks, foot', d) {
      if d != c {
        assert FootOk(chunks, foot, d) && ChunkOk(heaps, chunks, back, d);
        assert Before(chunks, c, d) && Before(chunks, d, c);
      }
    }
  }

  lemma NewHeapTagged(heaps: Heaps, chunks: Chunks, back: map<Addr, Addr>, foot: map<Addr, nat>, h: Addr, size: nat,
                      heaps': Heaps, chunks': Chunks, foot': map<Addr, nat>)
    requires Tagged(heaps, chunks, back, foot, {}, {}, {}, {}) && Summed(heaps, chunks)
    requires Unused(heaps, h, size) && size >= PAGE_SIZE && size % 8 == 0
    requires heaps' == heaps[h := Heap(size, size - HEAP_HEADER)] && foot' == foot[h + size := size - HEAP_HEADER]
    requires chunks' == chunks[h + HEAP_HEADER := Chunk(size - HEAP_HEADER, false, true, h)]
    ensures h !in heaps && h + HEAP_HEADER !in chunks && Live(chunks') == Live(chunks)
    ensures Tagged(heaps', chunks', back, foot', {}, {}, {}, {}) && Summed(heaps', chunks')
  {
    NewHeapTiles(heaps, chunks, back, h, size, size - HEAP_HEADER, heaps', chunks');
    NewHeapTags(heaps, chunks, back, h, size, foot, chunks', foot');
    NewHeapSum(heaps, chunks, back, h, size, heaps', chunks');
  }

  lemma DropHeapTagged(heaps: Heaps, chunks: Chunks, back: map<Addr, Addr>, foot: map<Addr, nat>, h: Addr,
    heaps': Heaps, chunks': Chunks)
    requires Tagged(heaps, chunks, back, foot, {}, {}, {}, {}) && Summed(heaps, chunks) && h in heaps
    requires h + HEAP_HEADER in chunks && !chunks[h + HEAP_HEADER].used
    requires Past(chunks, h + HEAP_HEADER) == HeapEnd(heaps, h)
    requires heaps' == heaps - {h} && chunks' == chunks - {h + HEAP_HEADER}
    ensures Tagged(heaps', chunks', back, foot, {}, {}, {}, {}) && Summed(heaps', chunks')
    ensures Live(chunks') == Live(chunks)
  {
    DropHeapTiles(heaps, chunks, back, h, heaps', chunks');
    DropHeapTags(heaps, chunks, back, h, foot, chunks');
    DropHeapSum(heaps, chunks, back, h, heaps', chunks');
  }

  // ----- resizing in place -----

  /** The tags after a used chunk has given up its end and the count has it. */
  lemma ShrunkTagged(heaps: Heaps, chunks: Chunks, back: map<Addr, Addr>, foot: map<Addr, nat>, c: Addr, n: nat,
                     heaps': Heaps, chunks': Chunks, back': map<Addr, Addr>, foot': map<Addr, nat>)
    requires Tagged(heaps, chunks, back, foot, {}, {}, {}, {}) && Summed(heaps, chunks) && c in chunks && chunks[c].used
    requires CHUNK_MIN_SIZE <= n && n + CHUNK_MIN_SIZE <= chunks[c].size && n % 8 == 0
    requires chunks' == Cut(chunks, c, n, true, chunks[c].prevUsed, true)
    requires back' == CutBack(chunks, back, c, n) && foot' == foot[Past(chunks, c) := chunks[c].size - n]
    requires chunks[c].heap in heaps
    requires Recount(heaps, heaps', chunks[c].heap, heaps[chunks[c].heap].freesz + chunks[c].size - n)
    ensures c + n !in chunks && Tagged(heaps', chunks', back', foot', {}, {c + n}, {}, {c + n})
    ensures Summed(heaps', chunks')
  {
    CutTagged(heaps, chunks, back, foot, c, n, chunks', back', foot');
    RecountTiles(heaps, chunks', back', heaps', chunks[c].heap, heaps'[chunks[c].heap].freesz);
    forall d | d in chunks' ensures FootOk(chunks', foot', d) {
      assert d != c ==> FootOk(chunks', foot', d);
    }
    forall g | g in heaps' ensures heaps'[g].freesz == FreeIn(heaps', chunks', g) {
      assert heaps[g].freesz == FreeIn(heaps, chunks, g);
      assert FreeIn(heaps', chunks', g) == FreeIn(heaps, chunks', g);
    }
  }

  /** The bins do not see a used chunk cut, its free end being in none. */
  lemma CutBins(chunks: Chunks, c: Addr, n: nat, prev: bool, sbins: seq<List>, lbins: seq<Tree>, sbinmap: set<nat>,
    lbinmap: set<nat>)
    requires Binned(chunks, {}, sbins, lbins, sbinmap, lbinmap) && c in chunks && chunks[c].used
    requires n < chunks[c].size && 0 < n && c + n !in chunks
    ensures Binned(Cut(chunks, c, n, true, prev, true), {c + n}, sbins, lbins, sbinmap, lbinmap)
  {
    BinsKeep(chunks, {}, Cut(chunks, c, n, true, prev, true), {c + n}, sbins, lbins, sbinmap, lbinmap);
  }

  /** The chunk behind a free one gets its flag. */
  lemma FlagSet(heaps: Heaps, chunks: Chunks, back: map<Addr, Addr>, foot: map<Addr, nat>, c: Addr, chunks': Chunks)
    requires Tagged(heaps, chunks, back, foot, {}, {c}, {}, {}) && Summed(heaps, chunks) && c in chunks
    requires !chunks[c].used
    requires chunks' == Marked(chunks, c, false)
    ensures Tagged(heaps, chunks', back, foot, {}, {}, {}, {}) && Summed(heaps, chunks')
    ensures Live(chunks') == Live(chunks)
  {
    MarkedTiles(heaps, chunks, back, c, false);
    assert ChunkOk(heaps, chunks, back, c);
    forall x, y | Follows(chunks', x, y)
      ensures chunks'[y].prevUsed == chunks'[x].used && (chunks'[x].used || chunks'[y].used)
    {
      FollowsShape(chunks, chunks', x, y);
      assert ChunkOk(heaps, chunks, back, x);
      if y == Past(chunks, c) && Follows(chunks, c, y) { FollowsOnce(heaps, chunks, back, x, c, y); }
    }
    forall d | d in chunks' ensures FootOk(chunks', foot, d) {
      assert FootOk(chunks, foot, d);
    }
    forall h | h in heaps ensures heaps[h].freesz == FreeIn(heaps, chunks', h) {
      assert heaps[h].freesz == FreeIn(heaps, chunks, h);
      forall x | h + HEAP_HEADER <= x < HeapEnd(heaps, h) ensures AgreeAt(chunks, chunks', x) {}
      assert HeapOk(heaps, chunks, h);
      FreeSame(chunks, chunks', h + HEAP_HEADER, HeapEnd(heaps, h));
    }
  }

  /** Two used neighbours become one chunk. */
  lemma GrownTagged(heaps: Heaps, chunks: Chunks, back: map<Addr, Addr>, foot: map<Addr, nat>, c: Addr, d: Addr,
    tiny: set<Addr>,
                    chunks': Chunks, back': map<Addr, Addr>)
    requires Tagged(heaps, chunks, back, foot, tiny, {}, {}, {}) && tiny <= {d} && Follows(chunks, c, d)
    requires chunks[c].used && chunks[d].used
    requires Summed(heaps, chunks) && chunks' == Fuse(chunks, c, d) && back' == FuseBack(chunks, back, c, d)
    ensures Tagged(heaps, chunks', back', foot, {}, {}, {}, {}) && Summed(heaps, chunks')
    ensures c != d && Live(chunks') == Live(chunks)[c := chunks[c].size + chunks[d].size] - {d}
  {
    assert ChunkOk(heaps, chunks, back, c);
    FuseTiles(heaps, chunks, back, c, d, chunks', back');
    FuseFlags(heaps, chunks, back, c, d, {}, chunks');
    FuseMerged(heaps, chunks, back, c, d, chunks');
    FuseFeet(heaps, chunks, back, c, d, foot, chunks');
    FuseSum(heaps, chunks, back, c, d, chunks');
    forall e | e in chunks' ensures FootOk(chunks', foot, e) {
      assert e != c ==> FootOk(chunks', foot, e);
    }
  }

  // ----- where a request is met -----

  /** No free chunk has `size` bytes. */
  ghost predicate NoneFits(chunks: Chunks, size: nat) {
    forall c :: c in chunks && !chunks[c].used ==> chunks[c].size < size
  }

  /** What the OS answers to a request for `n` bytes: nothing, or a region that is not in use. */
  ghost predicate Maps(heaps: Heaps, mm: nat -> nat) {
    forall n :: mm(n) == 0 || Unused(heaps, mm(n), n)
  }

  lemma HeapSizeFits(size: nat, heapSize: nat)
    requires size < SIZE_LIMIT && heapSize == CeilToPage(HEAP_HEADER + size) && heapSize >= size
    ensures heapSize >= HEAP_HEADER + size && heapSize % 8 == 0 && heapSize >= PAGE_SIZE
    ensures (heapSize - HEAP_HEADER) / 8 * 8 == heapSize - HEAP_HEADER
  {
  }

  lemma TreeGrows(t: SizeTree, m: nat)
    requires Ordered(t) && forall x :: x in Sizes(t) ==> x < m
    ensures Ordered(Node(t, m, Leaf)) && Sizes(Node(t, m, Leaf)) == Sizes(t) + {m}
  {
    assert Ordered(Leaf) && Sizes(Leaf) == {};
  }

  /** Some search tree has exactly these sizes. */
  lemma {:induction false} TreeOf(s: set<nat>) returns (t: SizeTree)
    ensures Ordered(t) && Sizes(t) == s
    decreases |s|
  {
    if s == {} {
      t := Leaf;
    } else {
      var m := Greatest(s);
      var l := TreeOf(s - {m});
      TreeGrows(l, m);
      t := Node(l, m, Leaf);
    }
  }

  lemma {:induction false} Greatest(s: set<nat>) returns (m: nat)
    requires s != {}
    ensures m in s && forall x :: x in s ==> x <= m
    decreases |s|
  {
    m :| m in s;
    assert forall x :: x in s ==> x == m || x in s - {m};
    if s - {m} != {} {
      var k := Greatest(s - {m});
      if k > m { m := k; }
    }
  }

  /** Where no bin from that of `size` on has a chunk that fits, no free chunk fits. */
  lemma NoBinFits(chunks: Chunks, sbins: seq<List>, lbins: seq<Tree>, sbinmap: set<nat>, lbinmap: set<nat>, size: nat)
    requires Binned(chunks, {}, sbins, lbins, sbinmap, lbinmap)
    requires forall c :: c in chunks && !chunks[c].used && chunks[c].size <= SMALLBIN_MAX_SIZE ==> chunks[c].size < size
    requires forall i, s :: LargeIndex(size) <= i < BINS && s in lbins[i] ==> s < size
    ensures NoneFits(chunks, size)
  {
    forall c | c in chunks && !chunks[c].used ensures chunks[c].size < size {
      var s, i := chunks[c].size, LargeIndex(chunks[c].size);
      if s > SMALLBIN_MAX_SIZE {
        LargeIndexGrows(s, s);
        assert LargeOk(chunks, {}, i, lbins[i]);
        assert InLarge(chunks, {}, i, s, c) <==> InTree(lbins[i], s, c);
        if size <= s { LargeIndexGrows(size, s); }
      }
    }
  }

  /** With no bit set from that of `size` on, no small free chunk fits. */
  lemma NoSmallFits(chunks: Chunks, sbins: seq<List>, lbins: seq<Tree>, sbinmap: set<nat>, lbinmap: set<nat>,
    size: nat, c: Addr)
    requires Binned(chunks, {}, sbins, lbins, sbinmap, lbinmap) && forall i :: i in sbinmap ==> i < SmallIndex(size)
    requires c in chunks && !chunks[c].used && chunks[c].size <= SMALLBIN_MAX_SIZE
    ensures chunks[c].size < size
  {
    var i := SmallIndex(chunks[c].size);
    assert SmallOk(chunks, {}, i, sbins[i]);
    assert InSmall(chunks, {}, i, c);
    assert i in sbinmap;
  }

  lemma NoLarge(chunks: Chunks, sbins: seq<List>, lbins: seq<Tree>, sbinmap: set<nat>, lbinmap: set<nat>, c: Addr)
    requires Binned(chunks, {}, sbins, lbins, sbinmap, lbinmap) && lbinmap == {}
    requires c in chunks && !chunks[c].used
    ensures chunks[c].size <= SMALLBIN_MAX_SIZE
  {
    var s, i := chunks[c].size, LargeIndex(chunks[c].size);
    LargeIndexGrows(s, s);
    assert i !in lbinmap;
    assert lbins[i] == map[];
    assert LargeOk(chunks, {}, i, lbins[i]);
    assert InLarge(chunks, {}, i, s, c) <==> InTree(lbins[i], s, c);
  }

  /** __builtin_ctz of a bitmap. */
  method Lowest(bits: set<nat>) returns (m: nat)
    requires bits != {} && forall i :: i in bits ==> i < BINS
    ensures m in bits && forall i :: i in bits ==> m <= i
  {
    m := 0;
    while m !in bits
      invariant forall i :: i in bits ==> m <= i
      decreases BINS - m
    {
      m := m + 1;
    }
  }

  /** A bit of the bitmap of the large bins names a bin with a chunk. */
  lemma SomeLarge(chunks: Chunks, sbins: seq<List>, lbins: seq<Tree>, sbinmap: set<nat>, lbinmap: set<nat>)
    requires Binned(chunks, {}, sbins, lbins, sbinmap, lbinmap) && lbinmap != {}
    ensures exists c :: c in chunks && !chunks[c].used && chunks[c].size > SMALLBIN_MAX_SIZE
  {
    var i :| i in lbinmap;
    var s :| s in lbins[i];
    assert LargeOk(chunks, {}, i, lbins[i]);
    assert InTree(lbins[i], s, lbins[i][s][0]);
  }

  /** A chunk of `size` bytes is not to be had: nothing free fits, and the region of the heap for it
      is refused. */
  ghost predicate Lacking(chunks: Chunks, size: nat, mm: nat -> nat) {
    NoneFits(chunks, size) && NoHeap(mm, Want(size))
  }

  /** A heap is added only when nothing free fits, and it is the region asked for. */
  ghost predicate Mapped(heaps: Heaps, chunks: Chunks, heaps': Heaps, size: nat, mm: nat -> nat) {
    && SameSizes(heaps, heaps')
    && forall h :: h in heaps' && h !in heaps ==>
      NoneFits(chunks, size) && h == mm(Region(size)) && heaps'[h].size == Region(size)
  }

  /** The chunk behind `c` is free. */
  ghost predicate FreeBehind(chunks: Chunks, c: Addr)
    requires c in chunks
  {
    Follows(chunks, c, Past(chunks, c)) && !chunks[Past(chunks, c)].used
  }

  /** No more than need be is taken for `size` bytes: what is left over would not make a chunk, and
      there is some only where nothing free is behind it. */
  ghost predicate Snug(chunks: Chunks, c: Addr, size: nat)
    requires c in chunks
  {
    && (size >= CHUNK_OVERHEAD ==> chunks[c].size < size + CHUNK_MIN_SIZE)
    && (chunks[c].size == size || !FreeBehind(chunks, c))
  }

  /** The answer to a request for a chunk of `size` bytes: 0, and nothing has changed, exactly if it
      is not to be had; or a block that no one had, as big as that and no bigger than need be. */
  ghost predicate Granted(heaps: Heaps, chunks: Chunks, heaps': Heaps, chunks': Chunks, size: nat, ptr: Addr,
    mm: nat -> nat)
  {
    && (ptr == 0 <==> Lacking(chunks, size, mm))
    && (ptr == 0 ==> heaps' == heaps && chunks' == chunks)
    && (ptr != 0 ==>
          && ptr > CHUNK_OVERHEAD && ptr - CHUNK_OVERHEAD in chunks' && ptr - CHUNK_OVERHEAD !in Live(chunks)
          && chunks'[ptr - CHUNK_OVERHEAD].size >= size && Snug(chunks', ptr - CHUNK_OVERHEAD, size)
          && Live(chunks') == Live(chunks)[ptr - CHUNK_OVERHEAD := chunks'[ptr - CHUNK_OVERHEAD].size])
    && heaps.Keys <= heaps'.Keys && Mapped(heaps, chunks, heaps', size, mm)
    && forall h :: h in heaps' && h !in heaps ==> HoldsLive(heaps', Live(chunks'), h)
  }

  /** A block in a free chunk. */
  lemma GrantedFound(heaps: Heaps, chunks: Chunks, heaps': Heaps, chunks': Chunks, c: Addr, size: nat, mm: nat -> nat)
    requires 0 < c && c in chunks && !chunks[c].used && chunks[c].size >= size
    requires heaps'.Keys == heaps.Keys && SameSizes(heaps, heaps')
    requires c in chunks' && chunks'[c].size >= size && Live(chunks') == Live(chunks)[c := chunks'[c].size]
    requires Snug(chunks', c, size)
    ensures Granted(heaps, chunks, heaps', chunks', size, c + CHUNK_OVERHEAD, mm)
  {
  }

  /** A block at the beginning of a new heap. */
  lemma GrantedNew(heaps: Heaps, chunks: Chunks, heaps1: Heaps, heaps': Heaps, chunks': Chunks, h: Addr, size: nat,
    mm: nat -> nat)
    requires NoneFits(chunks, size) && !NoHeap(mm, Want(size)) && h == mm(Region(size)) && h !in heaps
    requires heaps1.Keys == heaps.Keys + {h} && SameSizes(heaps, heaps1) && heaps1[h].size == Region(size)
    requires heaps'.Keys == heaps1.Keys && SameSizes(heaps1, heaps') && h + HEAP_HEADER < HeapEnd(heaps1, h)
    requires h + HEAP_HEADER in chunks' && h + HEAP_HEADER !in Live(chunks) && chunks'[h + HEAP_HEADER].size >= size
    requires Live(chunks') == Live(chunks)[h + HEAP_HEADER := chunks'[h + HEAP_HEADER].size]
    requires Snug(chunks', h + HEAP_HEADER, size)
    ensures Granted(heaps, chunks, heaps', chunks', size, h + HEAP_HEADER + CHUNK_OVERHEAD, mm)
  {
    FreshHolds(heaps, heaps1, heaps', h, Live(chunks'));
  }

  /** Heaps given back after one was added. */
  lemma MappedLess(heaps: Heaps, chunks: Chunks, heaps1: Heaps, heaps': Heaps, size: nat, mm: nat -> nat)
    requires heaps.Keys <= heaps1.Keys && Mapped(heaps, chunks, heaps1, size, mm)
    requires heaps'.Keys <= heaps1.Keys && SameSizes(heaps1, heaps')
    ensures Mapped(heaps, chunks, heaps', size, mm)
  {
    forall h | h in heaps' ensures h in heaps1 && heaps'[h].size == heaps1[h].size {
    }
  }

  lemma LiveGrown(live: map<Addr, nat>, c: Addr, d: Addr, s: nat, n: nat)
    requires d !in live && c != d
    ensures live[d := s][c := n] - {d} == live[c := n]
  {
  }

  /** Chunks that touch are in one heap. */
  lemma Neighbours(heaps: Heaps, chunks: Chunks, back: map<Addr, Addr>, c: Addr, d: Addr)
    requires Tiles(heaps, chunks, back) && c in chunks && d in chunks && d == Past(chunks, c)
    ensures c != d && Follows(chunks, c, d)
  {
    assert ChunkOk(heaps, chunks, back, c) && ChunkOk(heaps, chunks, back, d);
    var g, h := chunks[c].heap, chunks[d].heap;
    assert HeapBefore(heaps, g, h) && HeapBefore(heaps, h, g);
  }

  /** A block can be made `n` bytes where it is: it has them, or the chunk behind it is free and has
      those that are missing. */
  ghost predicate Stays(chunks: Chunks, c: Addr, n: nat)
    requires c in chunks
  {
    var next := Past(chunks, c);
    chunks[c].size >= n || (Follows(chunks, c, next) && !chunks[next].used && chunks[c].size + chunks[next].size >= n)
  }

  /** A block for `n` bytes with a header of its own is not to be had. */
  ghost predicate Stuck(chunks: Chunks, n: nat, mm: nat -> nat) {
    n + CHUNK_OVERHEAD >= SIZE_LIMIT || Lacking(chunks, n + CHUNK_OVERHEAD, mm)
  }

  /** A new block with room for `n` bytes. */
  ghost predicate Added(live: map<Addr, nat>, live': map<Addr, nat>, n: nat, p: Addr) {
    && p > CHUNK_OVERHEAD && p - CHUNK_OVERHEAD !in live && p - CHUNK_OVERHEAD in live'
    && n + CHUNK_OVERHEAD <= live'[p - CHUNK_OVERHEAD] < n + CHUNK_OVERHEAD + CHUNK_MIN_SIZE
    && live' == live[p - CHUNK_OVERHEAD := live'[p - CHUNK_OVERHEAD]]
  }

  /** A new block with room for `n` bytes in place of an old one. */
  ghost predicate MovedTo(live: map<Addr, nat>, live': map<Addr, nat>, c: Addr, n: nat, p: Addr) {
    && p > CHUNK_OVERHEAD && p - CHUNK_OVERHEAD !in live && p - CHUNK_OVERHEAD in live'
    && n + CHUNK_OVERHEAD <= live'[p - CHUNK_OVERHEAD] < n + CHUNK_OVERHEAD + CHUNK_MIN_SIZE
    && live' == live[p - CHUNK_OVERHEAD := live'[p - CHUNK_OVERHEAD]] - {c}
  }

  lemma MovedIs(live: map<Addr, nat>, live1: map<Addr, nat>, live': map<Addr, nat>, c: Addr, n: nat, p: Addr)
    requires c in live && live' == live1 - {c}
    ensures Added(live, live1, n, p) ==> MovedTo(live, live', c, n, p)
  {
  }

  /** A block that stays has no more than need be; what is left over is nothing, or what the block had
      before, or has nothing free behind it. */
  ghost predicate Trimmed(chunks: Chunks, chunks': Chunks, c: Addr, n: nat)
    requires c in chunks && c in chunks'
  {
    && (n >= CHUNK_OVERHEAD ==> chunks'[c].size < n + CHUNK_MIN_SIZE)
    && (chunks'[c].size == n || chunks'[c].size == chunks[c].size || !FreeBehind(chunks', c))
  }

  /** The answer to a request to make a live block `n` bytes: the block itself, with `n` bytes and no
      more than need be, exactly if it can stay; 0, and nothing has changed, exactly if it can neither stay nor
      move; and otherwise a new one with more, in place of it. */
  ghost predicate Resized(heaps: Heaps, chunks: Chunks, heaps': Heaps, chunks': Chunks, ptr: Addr, n: nat, p: Addr,
    mm: nat -> nat)
    requires ptr > CHUNK_OVERHEAD && ptr - CHUNK_OVERHEAD in chunks
  {
    var c, live, live' := ptr - CHUNK_OVERHEAD, Live(chunks), Live(chunks');
    && (p == ptr <==> Stays(chunks, c, n))
    && (p == 0 <==> !Stays(chunks, c, n) && Stuck(chunks, n, mm))
    && (p == ptr ==> c in live' && live'[c] >= n && live' == live[c := live'[c]] && Trimmed(chunks, chunks', c, n))
    && (p == 0 ==> heaps' == heaps && chunks' == chunks)
    && (p != ptr && p != 0 ==> MovedTo(live, live', c, n, p))
    && Mapped(heaps, chunks, heaps', n + CHUNK_OVERHEAD, mm)
  }

  class Allocator {
    var heaps: Heaps
    var chunks: Chunks
    /** The last word before each address where a chunk ends. */
    var foot: map<Addr, nat>
    var sbins: seq<List>
    var lbins: seq<Tree>
    var sbinmap: set<nat>
    var lbinmap: set<nat>
    /** The chunk before each chunk. */
    ghost var back: map<Addr, Addr>

    ghost predicate Bins(out: set<Addr>)
      reads this
    {
      Binned(chunks, out, sbins, lbins, sbinmap, lbinmap)
    }

    ghost predicate Tags(tiny: set<Addr>, lax: set<Addr>, bare: set<Addr>, ex: set<Addr>)
      reads this
    {
      Tagged(heaps, chunks, back, foot, tiny, lax, bare, ex)
    }

    /** What every call keeps. */
    ghost predicate Valid()
      reads this
    {
      Tags({}, {}, {}, {}) && Bins({}) && Summed(heaps, chunks)
    }

    /** _malloc_init. */
    constructor ()
      ensures Valid() && heaps == map[] && chunks == map[] && back == map[] && foot == map[]
    {
      heaps, chunks, foot, back := map[], map[], map[], map[];
      sbins := seq(BINS, _ => []);
      lbins := seq(BINS, _ => map[]);
      sbinmap, lbinmap := {}, {};
    }

    method ChunkAdd(c: Addr, ghost out: set<Addr>)
      requires Bins(out) && c in chunks && !chunks[c].used && c in out
      modifies `sbins, `lbins, `sbinmap, `lbinmap
      ensures Bins(out - {c})
    {
      var size := chunks[c].size;
      if size <= SMALLBIN_MAX_SIZE {
        var i := SmallIndex(size);
        SmallAdded(chunks, out, c, sbins, lbins, sbinmap, lbinmap, i);
        sbins := sbins[i := sbins[i] + [c]];
        sbinmap := sbinmap + {i};
      } else {
        var i := LargeIndex(size);
        LargeIndexGrows(size, size);
        LargeAdded(chunks, out, c, sbins, lbins, sbinmap, lbinmap, i, TreeWith(lbins[i], size, c));
        lbins := lbins[i := TreeWith(lbins[i], size, c)];
        lbinmap := lbinmap + {i};
      }
    }

    method ChunkRemove(c: Addr, ghost out: set<Addr>)
      requires Bins(out) && IsFree(chunks, out, c)
      modifies `sbins, `lbins, `sbinmap, `lbinmap
      ensures Bins(out + {c})
    {
      var size := chunks[c].size;
      if size <= SMALLBIN_MAX_SIZE {
        var i := SmallIndex(size);
        var l := Without(sbins[i], c);
        SmallRemoved(chunks, out, c, sbins, lbins, sbinmap, lbinmap, i, l);
        sbins := sbins[i := l];
        if sbins[i] == [] {
          sbinmap := sbinmap - {i};
        }
      } else {
        var i := LargeIndex(size);
        LargeIndexGrows(size, size);
        LargeRemoved(chunks, out, c, sbins, lbins, sbinmap, lbinmap, i);
        var t := TreeWithout(lbins[i], size, c);
        lbins := lbins[i := t];
        if t == map[] {
          lbinmap := lbinmap - {i};
        }
      }
    }

    predicate CanSplit(c: Addr, size: nat)
      requires c in chunks
      reads this
    {
      size >= CHUNK_OVERHEAD && chunks[c].size >= size + CHUNK_MIN_SIZE
    }

    /** A free chunk is cut in two; the first part stays out of the bins. */
    method ChunkSplit(c: Addr, size: nat)
      requires Tags({}, {}, {}, {}) && Bins({}) && c in chunks && !chunks[c].used && CanSplit(c, size) && size % 8 == 0
      modifies `chunks, `foot, `back, `sbins, `lbins, `sbinmap, `lbinmap
      ensures c + size !in old(chunks) && chunks == Cut(old(chunks), c, size, false, true, false)
      ensures Tags(if size < CHUNK_MIN_SIZE then {c} else {}, {}, {c}, {c}) && Bins({c})
      ensures forall h :: h in heaps ==> FreeIn(heaps, chunks, h) == FreeIn(heaps, old(chunks), h)
    {
      ghost var was, wasBack, wasFoot := chunks, back, foot;
      var k := chunks[c];
      PrevUsed(heaps, chunks, back, c);
      ChunkRemove(c, {});
      var sibling := c + size;
      chunks := chunks[sibling := Chunk(k.size - size, false, false, k.heap)];
      foot := foot[c + k.size := k.size - size];
      chunks := chunks[c := Chunk(size, false, true, k.heap)];
      back := CutBack(was, back, c, size);
      assert chunks == Cut(was, c, size, false, true, false);
      CutTagged(heaps, was, wasBack, wasFoot, c, size, chunks, back, foot);
      assert {} + {c} == {c} && {c, sibling} - {sibling} == {c};
      BinsKeep(was, {c}, chunks, {c, sibling}, sbins, lbins, sbinmap, lbinmap);
      ChunkAdd(sibling, {c, sibling});
    }

    /** A free chunk is taken for `size` bytes, whole or its beginning. */
    method AllocFrom(c: Addr, size: nat) returns (ptr: Addr)
      requires Bins({}) && Summed(heaps, chunks) && c in chunks && !chunks[c].used && size % 8 == 0
      requires size <= chunks[c].size
      requires Tags({}, {}, {}, {}) || (Tags({}, {}, {}, {c}) && chunks[c].size == size)
      modifies `heaps, `chunks, `foot, `back, `sbins, `lbins, `sbinmap, `lbinmap
      ensures c > 0 && ptr == c + CHUNK_OVERHEAD && heaps.Keys == old(heaps.Keys)
      ensures Tags(if old(CanSplit(c, size)) && size < CHUNK_MIN_SIZE then {c} else {}, {}, {}, {}) && Bins({})
      ensures Summed(heaps, chunks)
      ensures c in chunks && chunks[c].size == if old(CanSplit(c, size)) then size else old(chunks[c].size)
      ensures Snug(chunks, c, size)
      ensures Live(chunks) == old(Live(chunks))[c := chunks[c].size]
      ensures SameSizes(old(heaps), heaps)
    {
      ghost var tiny := if CanSplit(c, size) && size < CHUNK_MIN_SIZE then {c} else {};
      assert ChunkOk(heaps, chunks, back, c);
      if CanSplit(c, size) {
        ghost var was := chunks;
        ChunkSplit(c, size);
        LiveCut(was, c, size, true, false);
      } else {
        ChunkRemove(c, {});
        assert {} + {c} == {c};
      }
      ghost var before := chunks;
      Take(c, tiny);
      if chunks[c].size != size { assert Follows(before, c, Past(before, c)) ==> before[Past(before, c)].used; }
      ptr := c + CHUNK_OVERHEAD;
    }

    /** The chunk is counted and marked as used. */
    method Take(c: Addr, ghost tiny: set<Addr>)
      requires Bins({c}) && Summed(heaps, chunks) && c in chunks && !chunks[c].used && tiny <= {c}
      requires Tags(tiny, {}, {c}, {c}) || Tags(tiny, {}, {}, {c}) || Tags(tiny, {}, {}, {})
      modifies `heaps, `chunks
      ensures heaps.Keys == old(heaps.Keys) && Tags(tiny, {}, {}, {}) && Bins({}) && Summed(heaps, chunks)
      ensures c in chunks && chunks[c].size == old(chunks[c].size)
      ensures FreeBehind(chunks, c) ==> old(FreeBehind(chunks, c))
      ensures Live(chunks) == old(Live(chunks))[c := chunks[c].size]
      ensures SameSizes(old(heaps), heaps)
    {
      ghost var was, wasHeaps := chunks, heaps;
      var k := chunks[c];
      assert Tags(tiny, {}, {c}, {c});
      assert ChunkOk(heaps, chunks, back, c);
      CountCovers(heaps, chunks, back, c);
      LastIs(heaps, chunks, back, tiny, c);
      heaps := heaps[k.heap := Heap(heaps[k.heap].size, heaps[k.heap].freesz - k.size)];
      chunks := chunks[c := Chunk(k.size, true, k.prevUsed, k.heap)];
      if !IsLast(heaps, chunks, c) {
        var n := c + k.size;
        chunks := chunks[n := Chunk(chunks[n].size, chunks[n].used, true, chunks[n].heap)];
      }
      assert chunks == Marked(was, c, true);
      MarkedTagged(wasHeaps, was, back, foot, c, true, tiny, {c}, {c}, heaps, chunks, foot);
      assert {c} - {c} == {};
      LiveMarked(was, c, true);
      BinsKeep(was, {c}, chunks, {}, sbins, lbins, sbinmap, lbinmap);
    }

    /** Two free neighbours become one chunk. */
    method JoinPair(c: Addr, d: Addr, ghost x: Addr, ghost lax: set<Addr>)
      requires Tags({}, lax, {x}, {x}) && x in {c, d} && d !in lax && Follows(chunks, c, d) && c != d
      requires Bins({}) && Summed(heaps, chunks) && !chunks[c].used && !chunks[d].used
      modifies `chunks, `back, `sbins, `lbins, `sbinmap, `lbinmap
      ensures chunks == Fuse(old(chunks), c, d) && back == FuseBack(old(chunks), old(back), c, d)
      ensures Tags({}, lax, {c}, {c}) && Bins({}) && Summed(heaps, chunks) && Live(chunks) == old(Live(chunks))
    {
      ghost var was, wasBack := chunks, back;
      ChunkRemove(c, {});
      assert {} + {c} == {c};
      ChunkRemove(d, {c});
      assert {c} + {d} == {c, d} && {c, d} - {d} == {c} && {c} - {c} == {};
      var k := chunks[c];
      chunks := (chunks - {d})[c := Chunk(k.size + chunks[d].size, k.used, k.prevUsed, k.heap)];
      back := FuseBack(was, back, c, d);
      FuseTagged(heaps, was, wasBack, foot, c, d, x, lax, chunks, back);
      LiveFuse(was, c, d);
      BinsKeep(was, {c, d}, chunks, {c}, sbins, lbins, sbinmap, lbinmap);
      ChunkAdd(c, {c});
    }

    /** A free chunk is joined with its free neighbours. */
    method ChunkJoin(c: Addr, ghost lax: set<Addr>) returns (it: Addr)
      requires Tags({}, lax, {}, {c}) && Bins({}) && Summed(heaps, chunks) && c in chunks && !chunks[c].used
      requires lax == {} || (lax == {c} && chunks[c].prevUsed)
      modifies `chunks, `foot, `back, `sbins, `lbins, `sbinmap, `lbinmap
      ensures it in chunks && !chunks[it].used && (lax == {c} ==> it == c)
      ensures Tags({}, lax, {}, {}) && Bins({}) && Summed(heaps, chunks) && Live(chunks) == old(Live(chunks))
    {
      it := JoinBefore(c, lax);
      JoinAfter(it, lax);
      ghost var wasFoot := foot;
      foot := foot[it + chunks[it].size := chunks[it].size];
      FootSet(heaps, chunks, back, wasFoot, it, foot);
    }

    method JoinBefore(c: Addr, ghost lax: set<Addr>) returns (it: Addr)
      requires Tags({}, lax, {}, {c}) && Bins({}) && Summed(heaps, chunks) && c in chunks && !chunks[c].used
      requires lax == {} || (lax == {c} && chunks[c].prevUsed)
      modifies `chunks, `back, `sbins, `lbins, `sbinmap, `lbinmap
      ensures it in chunks && !chunks[it].used && (lax == {c} ==> it == c)
      ensures it == chunks[it].heap + HEAP_HEADER || chunks[it].prevUsed
      ensures Tags({}, lax, {it}, {it}) && Bins({}) && Summed(heaps, chunks) && Live(chunks) == old(Live(chunks))
    {
      it := c;
      while it != chunks[it].heap + HEAP_HEADER && !chunks[it].prevUsed
        invariant it in chunks && !chunks[it].used && (lax == {c} ==> it == c && chunks[c].prevUsed)
        invariant Tags({}, lax, {it}, {it}) && Bins({}) && Summed(heaps, chunks) && Live(chunks) == old(Live(chunks))
        decreases it
      {
        PrevIs(heaps, chunks, back, foot, lax, it);
        var sibling := it - foot[it];
        assert ChunkOk(heaps, chunks, back, sibling);
        JoinPair(sibling, it, it, lax);
        it := sibling;
      }
    }

    method JoinAfter(c: Addr, ghost lax: set<Addr>)
      requires Tags({}, lax, {c}, {c}) && Bins({}) && Summed(heaps, chunks) && c in chunks && !chunks[c].used
      requires lax <= {c}
      requires c == chunks[c].heap + HEAP_HEADER || chunks[c].prevUsed
      modifies `chunks, `back, `sbins, `lbins, `sbinmap, `lbinmap
      ensures c in chunks && !chunks[c].used
      ensures Tags({}, lax, {c}, {}) && Bins({}) && Summed(heaps, chunks) && Live(chunks) == old(Live(chunks))
    {
      LastIs(heaps, chunks, back, {}, c);
      while !IsLast(heaps, chunks, c) && !chunks[c + chunks[c].size].used
        invariant c in chunks && !chunks[c].used && (c == chunks[c].heap + HEAP_HEADER || chunks[c].prevUsed)
        invariant chunks[c].heap in heaps && (IsLast(heaps, chunks, c) <==> !Follows(chunks, c, Past(chunks, c)))
        invariant Past(chunks, c) <= HeapEnd(heaps, chunks[c].heap) && chunks[c].heap == old(chunks[c].heap)
        invariant Tags({}, lax, {c}, {c}) && Bins({}) && Summed(heaps, chunks) && Live(chunks) == old(Live(chunks))
        decreases HeapEnd(heaps, chunks[c].heap) - Past(chunks, c)
      {
        var sibling := c + chunks[c].size;
        assert ChunkOk(heaps, chunks, back, c) && ChunkOk(heaps, chunks, back, sibling);
        JoinPair(c, sibling, c, lax);
        LastIs(heaps, chunks, back, {}, c);
      }
      JoinedMerged(heaps, chunks, back, lax, c);
    }

    /** A new heap of one free chunk for at least `size` bytes; 0 if there is none. */
    method HeapAlloc(size: nat, mm: nat -> nat) returns (h: Addr)
      requires Valid() && size < SIZE_LIMIT && Maps(heaps, mm)
      modifies this
      ensures Valid() && Live(chunks) == old(Live(chunks))
      ensures h == 0 <==> NoHeap(mm, size)
      ensures h == 0 ==> heaps == old(heaps) && chunks == old(chunks)
      ensures h != 0 ==> h !in old(heaps) && heaps.Keys == old(heaps.Keys) + {h} && h + HEAP_HEADER !in old(chunks)
      ensures h != 0 ==>
        h + HEAP_HEADER in chunks && !chunks[h + HEAP_HEADER].used && chunks[h + HEAP_HEADER].size >= size
      ensures h != 0 ==> var n := CeilToPage(HEAP_HEADER + size); h == mm(n) && heaps[h].size == n
      ensures SameSizes(old(heaps), heaps)
      ensures h != 0 ==> h + HEAP_HEADER < HeapEnd(heaps, h)
    {
      var heapSize := CeilToPage(HEAP_HEADER + size);
      if heapSize < size {
        return 0;
      }
      h := mm(heapSize);
      if h == 0 {
        return;
      }
      HeapSizeFits(size, heapSize);
      PlaceHeap(h, heapSize);
    }

    /** A mapped region becomes a heap of one free chunk. */
    method PlaceHeap(h: Addr, heapSize: nat)
      requires Valid() && Unused(heaps, h, heapSize) && heapSize >= PAGE_SIZE && heapSize % 8 == 0
      requires (heapSize - HEAP_HEADER) / 8 * 8 == heapSize - HEAP_HEADER
      modifies this
      ensures Valid() && Live(chunks) == old(Live(chunks))
      ensures h !in old(heaps) && heaps.Keys == old(heaps.Keys) + {h} && h + HEAP_HEADER !in old(chunks)
      ensures h + HEAP_HEADER in chunks && !chunks[h + HEAP_HEADER].used
      ensures chunks[h + HEAP_HEADER].size == heapSize - HEAP_HEADER
      ensures SameSizes(old(heaps), heaps) && heaps[h].size == heapSize
      ensures h + HEAP_HEADER < HeapEnd(heaps, h)
    {
      ghost var was, wasHeaps, wasFoot := chunks, heaps, foot;
      var c := h + HEAP_HEADER;
      heaps := heaps[h := Heap(heapSize, heapSize - HEAP_HEADER)];
      chunks := chunks[c := Chunk((heapSize - HEAP_HEADER) / 8 * 8, false, true, h)];
      foot := foot[h + heapSize := heapSize - HEAP_HEADER];
      NewHeapTagged(wasHeaps, was, back, wasFoot, h, heapSize, heaps, chunks, foot);
      BinsKeep(was, {}, chunks, {c}, sbins, lbins, sbinmap, lbinmap);
      assert {c} - {c} == {};
      ChunkAdd(c, {c});
    }

    /** The search of one large bin, whatever shape balancing has given its tree. */
    method SearchBin(idx: nat, size: nat) returns (found: bool, c: Addr)
      requires Bins({}) && idx < BINS
      ensures found ==> c in chunks && !chunks[c].used && chunks[c].size >= size
      ensures !found ==> forall s :: s in lbins[idx] ==> s < size
    {
      ghost var t := TreeOf(lbins[idx].Keys);
      var root: SizeTree :| Ordered(root) && Sizes(root) == lbins[idx].Keys;
      var s;
      c := 0;
      found, s := FindFit(root, size);
      if found {
        c := lbins[idx][s][0];
        assert LargeOk(chunks, {}, idx, lbins[idx]);
        assert InTree(lbins[idx], s, c);
      } else {
        forall k | k in lbins[idx] ensures k < size { assert k in Sizes(root); }
      }
    }

    /** The search of the large bins from that of `size` on. */
    method FindLarge(size: nat) returns (found: bool, c: Addr)
      requires Bins({})
      requires forall c ::
        c in chunks && !chunks[c].used && chunks[c].size <= SMALLBIN_MAX_SIZE ==> chunks[c].size < size
      ensures found ==> c in chunks && !chunks[c].used && chunks[c].size >= size
      ensures !found ==> NoneFits(chunks, size)
    {
      LargeIndexGrows(size, size);
      var idx := LargeIndex(size);
      var binmap := set i | i in lbinmap && i >= idx;
      found, c := false, 0;
      while idx < BINS && binmap != {}
        invariant LargeIndex(size) <= idx <= BINS && binmap == (set i | i in lbinmap && i >= idx)
        invariant forall i, s :: LargeIndex(size) <= i < idx && s in lbins[i] ==> s < size
        decreases BINS - idx
      {
        found, c := SearchBin(idx, size);
        if found {
          return;
        }
        binmap := binmap - {idx};
        idx := idx + 1;
      }
      forall i | idx <= i < BINS ensures lbins[i] == map[] {
        assert i !in binmap;
        assert i !in lbinmap;
      }
      NoBinFits(chunks, sbins, lbins, sbinmap, lbinmap, size);
    }

    /** A new heap for the largest size of the bin of `size`. */
    method HeapLarge(size: nat, mm: nat -> nat) returns (h: Addr)
      requires Valid() && SMALLBIN_MAX_SIZE < size < SIZE_LIMIT && Maps(heaps, mm)
      modifies this
      ensures Valid() && Live(chunks) == old(Live(chunks))
      ensures h == 0 <==> NoHeap(mm, Want(size))
      ensures h == 0 ==> heaps == old(heaps) && chunks == old(chunks)
      ensures h != 0 ==> h !in old(heaps) && heaps.Keys == old(heaps.Keys) + {h} && h + HEAP_HEADER !in old(chunks)
      ensures h != 0 ==>
        h + HEAP_HEADER in chunks && !chunks[h + HEAP_HEADER].used && chunks[h + HEAP_HEADER].size >= size
      ensures h != 0 ==> h == mm(Region(size)) && heaps[h].size == Region(size)
      ensures SameSizes(old(heaps), heaps)
      ensures h != 0 ==> h + HEAP_HEADER < HeapEnd(heaps, h)
    {
      LargeIndexGrows(size, size);
      LookupFits(LargeIndex(size));
      var want := Max(Lookup(LargeIndex(size)), size);
      h := HeapAlloc(want, mm);
    }

    /** A new heap for a small size. */
    method HeapSmall(size: nat, mm: nat -> nat) returns (h: Addr)
      requires Valid() && size <= SMALLBIN_MAX_SIZE && Maps(heaps, mm)
      modifies this
      ensures Valid() && Live(chunks) == old(Live(chunks))
      ensures h == 0 <==> NoHeap(mm, Want(size))
      ensures h == 0 ==> heaps == old(heaps) && chunks == old(chunks)
      ensures h != 0 ==> h !in old(heaps) && heaps.Keys == old(heaps.Keys) + {h} && h + HEAP_HEADER !in old(chunks)
      ensures h != 0 ==>
        h + HEAP_HEADER in chunks && !chunks[h + HEAP_HEADER].used && chunks[h + HEAP_HEADER].size >= size
      ensures h != 0 ==> h == mm(Region(size)) && heaps[h].size == Region(size)
      ensures SameSizes(old(heaps), heaps)
      ensures h != 0 ==> h + HEAP_HEADER < HeapEnd(heaps, h)
    {
      h := HeapAlloc(size, mm);
    }

    method AllocLarge(size: nat, mm: nat -> nat) returns (ptr: Addr)
      requires Valid() && size < SIZE_LIMIT && size % 8 == 0 && (size == 0 || size >= CHUNK_MIN_SIZE) && Maps(heaps, mm)
      requires forall c ::
        c in chunks && !chunks[c].used && chunks[c].size <= SMALLBIN_MAX_SIZE ==> chunks[c].size < size
      requires size > SMALLBIN_MAX_SIZE || !NoneFits(chunks, size)
      modifies this
      ensures Valid() && Granted(old(heaps), old(chunks), heaps, chunks, size, ptr, mm)
    {
      var found, c := FindLarge(size);
      if found {
        ptr := AllocFrom(c, size);
        GrantedFound(old(heaps), old(chunks), heaps, chunks, c, size, mm);
      } else {
        ptr := AllocNew(size, mm);
      }
    }

    /** A large chunk from a new heap, nothing free being big enough. */
    method AllocNew(size: nat, mm: nat -> nat) returns (ptr: Addr)
      requires Valid() && SMALLBIN_MAX_SIZE < size < SIZE_LIMIT && size % 8 == 0 && Maps(heaps, mm)
      requires NoneFits(chunks, size)
      modifies this
      ensures Valid() && Granted(old(heaps), old(chunks), heaps, chunks, size, ptr, mm)
    {
      var h := HeapLarge(size, mm);
      if h == 0 {
        return 0;
      }
      ghost var heaps1 := heaps;
      ptr := AllocFrom(h + HEAP_HEADER, size);
      GrantedNew(old(heaps), old(chunks), heaps1, heaps, chunks, h, size, mm);
    }

    /** The one chunk of a new heap is cut in two free ones. */
    method SplitFresh(c: Addr, size: nat)
      requires Valid() && c in chunks && !chunks[c].used && CanSplit(c, size) && size % 8 == 0 && size >= CHUNK_MIN_SIZE
      modifies `chunks, `foot, `back, `sbins, `lbins, `sbinmap, `lbinmap
      ensures Tags({}, {}, {}, {c}) && Bins({}) && Summed(heaps, chunks) && Live(chunks) == old(Live(chunks))
      ensures c in chunks && !chunks[c].used && chunks[c].size == size
    {
      ghost var was := chunks;
      ChunkSplit(c, size);
      LiveCut(was, c, size, true, false);
      ghost var wasFoot := foot;
      foot := foot[c + size := size];
      FootSet(heaps, chunks, back, wasFoot, c, foot);
      assert {c} - {c} == {};
      ChunkAdd(c, {c});
    }

    method AllocSmall(size: nat, mm: nat -> nat) returns (ptr: Addr)
      requires Valid() && size <= SMALLBIN_MAX_SIZE && size % 8 == 0 && (size == 0 || size >= CHUNK_MIN_SIZE)
      requires Maps(heaps, mm)
      modifies this
      ensures Valid() && Granted(old(heaps), old(chunks), heaps, chunks, size, ptr, mm)
    {
      var idx := SmallIndex(size);
      assert 8 * idx == size;
      var found, c := PickSmall(size);
      if found {
        assert ChunkOk(heaps, chunks, back, c);
        ptr := AllocFrom(c, 8 * idx);
        GrantedFound(old(heaps), old(chunks), heaps, chunks, c, size, mm);
      } else if lbinmap != {} {
        SomeLarge(chunks, sbins, lbins, sbinmap, lbinmap);
        ptr := AllocLarge(size, mm);
      } else {
        forall c | c in chunks && !chunks[c].used ensures chunks[c].size < size {
          NoLarge(chunks, sbins, lbins, sbinmap, lbinmap, c);
        }
        ptr := AllocFresh(8 * idx, mm);
      }
    }

    /** The pick of a small bin by its bit: of the free chunks that fit, one of the smallest size. */
    method PickSmall(size: nat) returns (found: bool, c: Addr)
      requires Valid() && size <= SMALLBIN_MAX_SIZE && size % 8 == 0
      ensures found ==> c in chunks && !chunks[c].used && size <= chunks[c].size <= SMALLBIN_MAX_SIZE
      ensures found ==>
        forall d :: d in chunks && !chunks[d].used && size <= chunks[d].size ==> chunks[c].size <= chunks[d].size
      ensures !found ==>
        forall d :: d in chunks && !chunks[d].used && chunks[d].size <= SMALLBIN_MAX_SIZE ==> chunks[d].size < size
    {
      var binmap := set i | i in sbinmap && i >= SmallIndex(size);
      found, c := binmap != {}, 0;
      if found {
        var idx := Lowest(binmap);
        c := sbins[idx][0];
        assert SmallOk(chunks, {}, idx, sbins[idx]);
        assert InSmall(chunks, {}, idx, c);
        assert ChunkOk(heaps, chunks, back, c);
        forall d | d in chunks && !chunks[d].used && size <= chunks[d].size
          ensures chunks[c].size <= chunks[d].size
        {
          assert ChunkOk(heaps, chunks, back, d);
          if chunks[d].size <= SMALLBIN_MAX_SIZE {
            var i := SmallIndex(chunks[d].size);
            assert SmallOk(chunks, {}, i, sbins[i]);
            assert InSmall(chunks, {}, i, d);
            assert i in binmap;
          }
        }
      } else {
        forall d | d in chunks && !chunks[d].used && chunks[d].size <= SMALLBIN_MAX_SIZE
          ensures chunks[d].size < size
        {
          assert forall i :: i in sbinmap ==> i !in binmap;
          NoSmallFits(chunks, sbins, lbins, sbinmap, lbinmap, size, d);
        }
      }
    }

    /** A small chunk from a new heap, nothing free being big enough. */
    method AllocFresh(size: nat, mm: nat -> nat) returns (ptr: Addr)
      requires Valid() && size <= SMALLBIN_MAX_SIZE && size % 8 == 0 && (size == 0 || size >= CHUNK_MIN_SIZE)
      requires Maps(heaps, mm) && NoneFits(chunks, size)
      modifies this
      ensures Valid() && Granted(old(heaps), old(chunks), heaps, chunks, size, ptr, mm)
    {
      var h := HeapSmall(size, mm);
      if h == 0 {
        return 0;
      }
      var c := h + HEAP_HEADER;
      if CanSplit(c, size) {
        SplitFresh(c, size);
      }
      ghost var heaps1 := heaps;
      ptr := AllocFrom(c, size);
      GrantedNew(old(heaps), old(chunks), heaps1, heaps, chunks, h, size, mm);
    }

    /** malloc; the answer is 0 for a request of nothing, for one whose header would wrap around,
        and when the OS has no heap for one that nothing free fits. */
    method Alloc(size: nat, mm: nat -> nat) returns (ptr: Addr)
      requires Valid() && size < SIZE_LIMIT && Maps(heaps, mm)
      modifies this
      ensures Valid()
      ensures size == 0 || size + CHUNK_OVERHEAD >= SIZE_LIMIT ==>
        ptr == 0 && heaps == old(heaps) && chunks == old(chunks)
      ensures 0 < size && size + CHUNK_OVERHEAD < SIZE_LIMIT ==>
        Granted(old(heaps), old(chunks), heaps, chunks, ChunkFor(size), ptr, mm)
      ensures old(Needed(heaps, Live(chunks))) ==> Needed(heaps, Live(chunks))
    {
      if size == 0 {
        return 0;
      }
      if (size + CHUNK_OVERHEAD) % SIZE_LIMIT < size {
        return 0;
      }
      ChunkForFits(size);
      var n := ChunkFor(size);
      if n <= SMALLBIN_MAX_SIZE {
        ptr := AllocSmall(n, mm);
      } else {
        ptr := AllocLarge(n, mm);
      }
      if old(Needed(heaps, Live(chunks))) { NeededMore(old(heaps), old(Live(chunks)), heaps, Live(chunks)); }
    }

    /** A used chunk is marked free, put in its bin and counted. */
    method Release(c: Addr)
      requires Valid() && c in chunks && chunks[c].used
      modifies `heaps, `chunks, `foot, `sbins, `lbins, `sbinmap, `lbinmap
      ensures Tags({}, {}, {}, {c}) && Bins({}) && Summed(heaps, chunks) && heaps.Keys == old(heaps.Keys)
      ensures c in chunks && !chunks[c].used && chunks[c].heap == old(chunks[c].heap)
      ensures Live(chunks) == old(Live(chunks)) - {c}
      ensures SameSizes(old(heaps), heaps)
    {
      ghost var was, wasHeaps, wasFoot := chunks, heaps, foot;
      var k := chunks[c];
      assert ChunkOk(heaps, chunks, back, c);
      LastIs(heaps, chunks, back, {}, c);
      chunks := chunks[c := Chunk(k.size, false, k.prevUsed, k.heap)];
      foot := foot[c + k.size := k.size];
      if !IsLast(heaps, chunks, c) {
        var n := c + k.size;
        chunks := chunks[n := Chunk(chunks[n].size, chunks[n].used, false, chunks[n].heap)];
      }
      heaps := heaps[k.heap := Heap(heaps[k.heap].size, heaps[k.heap].freesz + k.size)];
      assert chunks == Marked(was, c, false);
      MarkedTagged(wasHeaps, was, back, wasFoot, c, false, {}, {}, {}, heaps, chunks, foot);
      LiveMarked(was, c, false);
      BinsKeep(was, {}, chunks, {c}, sbins, lbins, sbinmap, lbinmap);
      assert {c} - {c} == {} && {} + {c} == {c};
      ChunkAdd(c, {c});
    }

    /** free; false stands for the exit on a block that is free already. */
    method Free(ptr: Addr) returns (ok: bool)
      requires Valid() && (ptr == 0 || (ptr > CHUNK_OVERHEAD && ptr - CHUNK_OVERHEAD in chunks))
      modifies this
      ensures Valid()
      ensures ok <==> ptr == 0 || ptr - CHUNK_OVERHEAD in old(Live(chunks))
      ensures Live(chunks) == if ptr == 0 then old(Live(chunks)) else old(Live(chunks)) - {ptr - CHUNK_OVERHEAD}
      ensures heaps.Keys <= old(heaps.Keys) && SameSizes(old(heaps), heaps)
      ensures old(Needed(heaps, Live(chunks))) ==> Needed(heaps, Live(chunks))
    {
      if ptr == 0 {
        return true;
      }
      var c := ptr - CHUNK_OVERHEAD;
      if !chunks[c].used {
        return false;
      }
      ok := true;
      var h := chunks[c].heap;
      assert ChunkOk(heaps, chunks, back, c);
      Release(c);
      var it := ChunkJoin(c, {});
      if heaps[h].freesz == heaps[h].size - HEAP_HEADER {
        Unmap(h);
      } else {
        assert heaps[h].freesz == FreeIn(heaps, chunks, h);
        NotAllFree(heaps, chunks, back, h);
      }
      if old(Needed(heaps, Live(chunks))) {
        NeededLess(old(heaps), old(chunks), old(back), c, heaps, Live(chunks));
      }
    }

    /** A heap that is all free is given back. */
    method Unmap(h: Addr)
      requires Valid() && h in heaps && heaps[h].freesz == heaps[h].size - HEAP_HEADER
      modifies this
      ensures Valid() && Live(chunks) == old(Live(chunks)) && heaps == old(heaps) - {h}
    {
      ghost var was, wasHeaps := chunks, heaps;
      assert heaps[h].freesz == FreeIn(heaps, chunks, h);
      AllFree(heaps, chunks, back, h);
      var c := h + HEAP_HEADER;
      ChunkRemove(c, {});
      assert {} + {c} == {c};
      chunks, heaps := chunks - {c}, heaps - {h};
      DropHeapTagged(wasHeaps, was, back, foot, h, heaps, chunks);
      BinsKeep(was, {c}, chunks, {}, sbins, lbins, sbinmap, lbinmap);
    }

    /** The end of a used chunk is given up. */
    method Shrink(c: Addr, size: nat)
      requires Valid() && c in chunks && chunks[c].used && CanSplit(c, size) && size % 8 == 0 && size >= CHUNK_MIN_SIZE
      modifies `heaps, `chunks, `foot, `back, `sbins, `lbins, `sbinmap, `lbinmap
      ensures Valid() && heaps.Keys == old(heaps.Keys) && Live(chunks) == old(Live(chunks))[c := size]
      ensures c in chunks && chunks[c].size == size
      ensures SameSizes(old(heaps), heaps)
      ensures old(Needed(heaps, Live(chunks))) ==> Needed(heaps, Live(chunks))
    {
      CutEnd(c, size);
      var it := ChunkJoin(c + size, {c + size});
      ClearNext(c + size);
      assert c in Live(chunks) && Live(chunks)[c] == size;
      if old(Needed(heaps, Live(chunks))) { NeededMore(old(heaps), old(Live(chunks)), heaps, Live(chunks)); }
    }

    /** A used chunk is cut; its end is free and in no bin. */
    method CutOff(c: Addr, size: nat)
      requires Valid() && c in chunks && chunks[c].used && CanSplit(c, size) && size % 8 == 0 && size >= CHUNK_MIN_SIZE
      modifies `heaps, `chunks, `foot, `back
      ensures Tags({}, {c + size}, {}, {c + size}) && Bins({c + size}) && Summed(heaps, chunks)
      ensures heaps.Keys == old(heaps.Keys)
      ensures c + size in chunks && !chunks[c + size].used && chunks[c + size].prevUsed
      ensures Live(chunks) == old(Live(chunks))[c := size]
      ensures SameSizes(old(heaps), heaps)
    {
      ghost var was, wasHeaps, wasBack, wasFoot := chunks, heaps, back, foot;
      var k := chunks[c];
      assert ChunkOk(heaps, chunks, back, c);
      var sibling := c + size;
      chunks := chunks[sibling := Chunk(k.size - size, false, true, k.heap)];
      foot := foot[c + k.size := k.size - size];
      heaps := heaps[k.heap := Heap(heaps[k.heap].size, heaps[k.heap].freesz + k.size - size)];
      chunks := chunks[c := Chunk(size, true, k.prevUsed, k.heap)];
      back := CutBack(was, back, c, size);
      assert chunks == Cut(was, c, size, true, k.prevUsed, true);
      ShrunkTagged(wasHeaps, was, wasBack, wasFoot, c, size, heaps, chunks, back, foot);
      LiveCut(was, c, size, k.prevUsed, true);
      CutBins(was, c, size, k.prevUsed, sbins, lbins, sbinmap, lbinmap);
    }

    /** A used chunk is cut, and its end is put into its bin. */
    method CutEnd(c: Addr, size: nat)
      requires Valid() && c in chunks && chunks[c].used && CanSplit(c, size) && size % 8 == 0 && size >= CHUNK_MIN_SIZE
      modifies `heaps, `chunks, `foot, `back, `sbins, `lbins, `sbinmap, `lbinmap
      ensures Tags({}, {c + size}, {}, {c + size}) && Bins({}) && Summed(heaps, chunks) && heaps.Keys == old(heaps.Keys)
      ensures c + size in chunks && !chunks[c + size].used && chunks[c + size].prevUsed
      ensures Live(chunks) == old(Live(chunks))[c := size]
      ensures SameSizes(old(heaps), heaps)
    {
      CutOff(c, size);
      ghost var hole := {c + size};
      assert hole - {c + size} == {};
      ChunkAdd(c + size, hole);
    }

    /** CHUNK_PUSED of the chunk behind a free one is cleared. */
    method ClearNext(c: Addr)
      requires Tags({}, {c}, {}, {}) && Bins({}) && Summed(heaps, chunks) && c in chunks && !chunks[c].used
      modifies `chunks
      ensures Valid() && Live(chunks) == old(Live(chunks))
    {
      ghost var was := chunks;
      assert ChunkOk(heaps, chunks, back, c);
      LastIs(heaps, chunks, back, {}, c);
      if !IsLast(heaps, chunks, c) {
        var n := c + chunks[c].size;
        chunks := chunks[n := Chunk(chunks[n].size, chunks[n].used, false, chunks[n].heap)];
      }
      assert chunks == Marked(was, c, false);
      FlagSet(heaps, was, back, foot, c, chunks);
      BinsKeep(was, {}, chunks, {}, sbins, lbins, sbinmap, lbinmap);
    }

    /** A used chunk takes `need` bytes or more of the free chunk behind it. */
    method Grow(c: Addr, need: nat)
      requires Valid() && c in chunks && chunks[c].used && need % 8 == 0 && need > 0
      requires Follows(chunks, c, Past(chunks, c)) && !chunks[Past(chunks, c)].used
      requires chunks[Past(chunks, c)].size >= need
      modifies `heaps, `chunks, `foot, `back, `sbins, `lbins, `sbinmap, `lbinmap
      ensures Valid() && heaps.Keys == old(heaps.Keys)
      ensures c in chunks && chunks[c].size >= old(chunks[c].size) + need
      ensures Snug(chunks, c, old(chunks[c].size) + need)
      ensures Live(chunks) == old(Live(chunks))[c := chunks[c].size]
      ensures SameSizes(old(heaps), heaps)
      ensures old(Needed(heaps, Live(chunks))) ==> Needed(heaps, Live(chunks))
    {
      var next := c + chunks[c].size;
      ghost var tiny := if CanSplit(next, need) && need < CHUNK_MIN_SIZE then {next} else {};
      ghost var live := Live(chunks);
      var p := AllocFrom(next, need);
      assert c in Live(chunks) && Live(chunks)[c] == live[c] && next in Live(chunks);
      ghost var taken := chunks[next].size;
      Swallow(c, next, tiny);
      LiveGrown(live, c, next, taken, chunks[c].size);
      if old(Needed(heaps, Live(chunks))) { NeededMore(old(heaps), old(Live(chunks)), heaps, Live(chunks)); }
    }

    /** Two used neighbours become one chunk. */
    method Swallow(c: Addr, next: Addr, ghost tiny: set<Addr>)
      requires Tags(tiny, {}, {}, {}) && tiny <= {next} && Bins({}) && Summed(heaps, chunks)
      requires c in chunks && chunks[c].used && next == Past(chunks, c) && next in chunks && chunks[next].used
      modifies `chunks, `back
      ensures Valid() && c != next && c in chunks && chunks[c].size == old(chunks[c].size) + old(chunks[next].size)
      ensures FreeBehind(chunks, c) ==> old(FreeBehind(chunks, next))
      ensures Live(chunks) == old(Live(chunks))[c := chunks[c].size] - {next}
    {
      ghost var was, wasBack := chunks, back;
      var k := chunks[c];
      Neighbours(heaps, chunks, back, c, next);
      chunks := (chunks - {next})[c := Chunk(k.size + chunks[next].size, k.used, k.prevUsed, k.heap)];
      back := FuseBack(was, back, c, next);
      GrownTagged(heaps, was, wasBack, foot, c, next, tiny, chunks, back);
      BinsKeep(was, {}, chunks, {}, sbins, lbins, sbinmap, lbinmap);
    }

    /** realloc of a live block to more than nothing. */
    method Resize(ptr: Addr, size: nat, mm: nat -> nat) returns (p: Addr)
      requires Valid() && ptr > CHUNK_OVERHEAD && ptr - CHUNK_OVERHEAD in Live(chunks) && 0 < size < SIZE_LIMIT
      requires Maps(heaps, mm)
      modifies this
      ensures Valid()
      ensures size + CHUNK_OVERHEAD >= SIZE_LIMIT ==> p == 0 && heaps == old(heaps) && chunks == old(chunks)
      ensures size + CHUNK_OVERHEAD < SIZE_LIMIT ==>
        Resized(old(heaps), old(chunks), heaps, chunks, ptr, ChunkFor(size), p, mm)
      ensures old(Needed(heaps, Live(chunks))) ==> Needed(heaps, Live(chunks))
    {
      if (size + CHUNK_OVERHEAD) % SIZE_LIMIT < size {
        return 0;
      }
      ChunkForFits(size);
      p := ResizeTo(ptr - CHUNK_OVERHEAD, ChunkFor(size), mm);
    }

    /** A live block is made `n` bytes. */
    method ResizeTo(c: Addr, n: nat, mm: nat -> nat) returns (p: Addr)
      requires Valid() && c > 0 && c in Live(chunks) && n < SIZE_LIMIT && n % 8 == 0 && Maps(heaps, mm)
      requires n == 0 || n >= CHUNK_MIN_SIZE
      modifies this
      ensures Valid() && Resized(old(heaps), old(chunks), heaps, chunks, c + CHUNK_OVERHEAD, n, p, mm)
      ensures old(Needed(heaps, Live(chunks))) ==> Needed(heaps, Live(chunks))
    {
      var chunksz := chunks[c].size;
      if n < chunksz && CanSplit(c, n) {
        Shrink(c, n);
        return c + CHUNK_OVERHEAD;
      }
      if n <= chunksz {
        assert Live(chunks)[c := chunksz] == Live(chunks);
        return c + CHUNK_OVERHEAD;
      }
      p := Enlarge(c, n, mm);
    }

    /** More bytes for a block: from the free chunk behind it, or in another place. */
    method Enlarge(c: Addr, n: nat, mm: nat -> nat) returns (p: Addr)
      requires Valid() && c > 0 && c in Live(chunks) && chunks[c].size < n < SIZE_LIMIT && n % 8 == 0 && Maps(heaps, mm)
      modifies this
      ensures Valid() && Resized(old(heaps), old(chunks), heaps, chunks, c + CHUNK_OVERHEAD, n, p, mm)
      ensures old(Needed(heaps, Live(chunks))) ==> Needed(heaps, Live(chunks))
    {
      var chunksz := chunks[c].size;
      assert ChunkOk(heaps, chunks, back, c);
      LastIs(heaps, chunks, back, {}, c);
      if !IsLast(heaps, chunks, c) && !chunks[c + chunksz].used && chunks[c + chunksz].size >= n - chunksz {
        Grow(c, n - chunksz);
        return c + CHUNK_OVERHEAD;
      }
      p := Move(c, n, mm);
    }

    /** malloc of a size that was rounded before. */
    method AllocMore(n: nat, mm: nat -> nat) returns (p: Addr)
      requires Valid() && CHUNK_MIN_SIZE <= n < SIZE_LIMIT && n % 8 == 0 && Maps(heaps, mm)
      modifies this
      ensures Valid()
      ensures p == 0 <==> Stuck(old(chunks), n, mm)
      ensures p == 0 ==> heaps == old(heaps) && chunks == old(chunks)
      ensures p != 0 ==> Added(old(Live(chunks)), Live(chunks), n, p)
      ensures old(heaps.Keys) <= heaps.Keys && Mapped(old(heaps), old(chunks), heaps, n + CHUNK_OVERHEAD, mm)
      ensures old(Needed(heaps, Live(chunks))) ==> Needed(heaps, Live(chunks))
    {
      if n + CHUNK_OVERHEAD < SIZE_LIMIT { ChunkForAgain(n); }
      p := Alloc(n, mm);
    }

    /** free of the block in a chunk. */
    method Discard(c: Addr)
      requires Valid() && c in Live(chunks)
      modifies this
      ensures Valid() && Live(chunks) == old(Live(chunks)) - {c}
      ensures heaps.Keys <= old(heaps.Keys) && SameSizes(old(heaps), heaps)
      ensures old(Needed(heaps, Live(chunks))) ==> Needed(heaps, Live(chunks))
    {
      assert ChunkOk(heaps, chunks, back, c);
      var _ := Free(c + CHUNK_OVERHEAD);
    }

    /** A bigger block, and the old one freed. */
    method Move(c: Addr, n: nat, mm: nat -> nat) returns (p: Addr)
      requires Valid() && c in Live(chunks) && CHUNK_MIN_SIZE <= n < SIZE_LIMIT && n % 8 == 0 && Maps(heaps, mm)
      modifies this
      ensures Valid()
      ensures p == 0 <==> Stuck(old(chunks), n, mm)
      ensures p == 0 ==> heaps == old(heaps) && chunks == old(chunks)
      ensures p != 0 ==> MovedTo(old(Live(chunks)), Live(chunks), c, n, p)
      ensures Mapped(old(heaps), old(chunks), heaps, n + CHUNK_OVERHEAD, mm)
      ensures old(Needed(heaps, Live(chunks))) ==> Needed(heaps, Live(chunks))
    {
      p := AllocMore(n, mm);
      if p != 0 { LetGo(c, n, p, mm, old(heaps), old(chunks)); }
    }

    /** The block that has another one in its place is freed. */
    method LetGo(c: Addr, ghost n: nat, ghost p: Addr, ghost mm: nat -> nat, ghost heaps0: Heaps, ghost chunks0: Chunks)
      requires Valid() && c in Live(chunks0) && Added(Live(chunks0), Live(chunks), n, p)
      requires heaps0.Keys <= heaps.Keys && Mapped(heaps0, chunks0, heaps, n + CHUNK_OVERHEAD, mm)
      modifies this
      ensures Valid() && MovedTo(Live(chunks0), Live(chunks), c, n, p)
      ensures Mapped(heaps0, chunks0, heaps, n + CHUNK_OVERHEAD, mm)
      ensures old(Needed(heaps, Live(chunks))) ==> Needed(heaps, Live(chunks))
    {
      ghost var live1, heaps1 := Live(chunks), heaps;
      Discard(c);
      MovedIs(Live(chunks0), live1, Live(chunks), c, n, p);
      MappedLess(heaps0, chunks0, heaps1, heaps, n + CHUNK_OVERHEAD, mm);
    }

    /** realloc. */
    method Realloc(ptr: Addr, size: nat, mm: nat -> nat) returns (p: Addr)
      requires Valid() && size < SIZE_LIMIT && Maps(heaps, mm)
      requires ptr == 0 || (ptr > CHUNK_OVERHEAD && ptr - CHUNK_OVERHEAD in Live(chunks))
      modifies this
      ensures Valid()
      ensures ptr == 0 && 0 < size && size + CHUNK_OVERHEAD < SIZE_LIMIT ==>
        Granted(old(heaps), old(chunks), heaps, chunks, ChunkFor(size), p, mm)
      ensures ptr != 0 && size == 0 ==> p == 0 && Live(chunks) == old(Live(chunks)) - {ptr - CHUNK_OVERHEAD}
      ensures ptr != 0 && size == 0 ==> heaps.Keys <= old(heaps.Keys) && SameSizes(old(heaps), heaps)
      ensures ptr != 0 && 0 < size && size + CHUNK_OVERHEAD < SIZE_LIMIT ==>
        Resized(old(heaps), old(chunks), heaps, chunks, ptr, ChunkFor(size), p, mm)
      ensures size + CHUNK_OVERHEAD >= SIZE_LIMIT || (ptr == 0 && size == 0) ==>
        p == 0 && heaps == old(heaps) && chunks == old(chunks)
      ensures old(Needed(heaps, Live(chunks))) ==> Needed(heaps, Live(chunks))
    {
      if ptr == 0 {
        p := Alloc(size, mm);
      } else if size == 0 {
        var ok := Free(ptr);
        p := 0;
      } else {
        p := Resize(ptr, size, mm);
      }
    }
  }
}
