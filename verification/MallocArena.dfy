/** The chunks of the heaps of malloc_dl.c and what boundary tags promise about them. */
module MallocArena {
  import opened MallocSize

  type Addr = nat

  /** A chunk header: the size without its flags, CHUNK_CUSED, CHUNK_PUSED, the heap. */
  datatype Chunk = Chunk(size: nat, used: bool, prevUsed: bool, heap: Addr)

  datatype Heap = Heap(size: nat, freesz: nat)

  type Chunks = map<Addr, Chunk>
  type Heaps = map<Addr, Heap>

  ghost function Past(chunks: Chunks, c: Addr): Addr
    requires c in chunks
  {
    c + chunks[c].size
  }

  ghost function HeapEnd(heaps: Heaps, h: Addr): Addr
    requires h in heaps
  {
    h + heaps[h].size
  }

  // ----- tiling -----

  /** A chunk lies in its heap, its neighbours begin and end where it ends and begins; `back`
      names the chunk before each chunk but the first of a heap. */
  ghost predicate ChunkOk(heaps: Heaps, chunks: Chunks, back: map<Addr, Addr>, c: Addr)
    requires c in chunks
  {
    var k := chunks[c];
    && k.heap in heaps && 0 < k.size && k.size % 8 == 0
    && k.heap + HEAP_HEADER <= c && Past(chunks, c) <= HeapEnd(heaps, k.heap)
    && (Past(chunks, c) < HeapEnd(heaps, k.heap) ==>
          Past(chunks, c) in chunks && chunks[Past(chunks, c)].heap == k.heap)
    && (c > k.heap + HEAP_HEADER ==>
          c in back && back[c] in chunks && Past(chunks, back[c]) == c && chunks[back[c]].heap == k.heap)
  }

  ghost predicate HeapOk(heaps: Heaps, chunks: Chunks, h: Addr)
    requires h in heaps
  {
    && h > 0 && heaps[h].size > HEAP_HEADER && h + HEAP_HEADER in chunks && chunks[h + HEAP_HEADER].heap == h
    && chunks[h + HEAP_HEADER].prevUsed
  }

  ghost predicate Before(chunks: Chunks, c: Addr, d: Addr) {
    c in chunks && d in chunks && c < d ==> Past(chunks, c) <= d
  }

  ghost predicate Apart(chunks: Chunks) {
    forall c, d {:trigger Before(chunks, c, d)} :: Before(chunks, c, d)
  }

  ghost predicate HeapBefore(heaps: Heaps, g: Addr, h: Addr) {
    g in heaps && h in heaps && g < h ==> HeapEnd(heaps, g) <= h
  }

  ghost predicate HeapsOk(heaps: Heaps, chunks: Chunks) {
    && (forall h {:trigger HeapOk(heaps, chunks, h)} :: h in heaps ==> HeapOk(heaps, chunks, h))
    && (forall g, h {:trigger HeapBefore(heaps, g, h)} :: HeapBefore(heaps, g, h))
  }

  /** Chunks tile each heap from its header to its end; no two of them overlap. */
  ghost predicate Tiles(heaps: Heaps, chunks: Chunks, back: map<Addr, Addr>) {
    && HeapsOk(heaps, chunks) && Apart(chunks)
    && forall c {:trigger ChunkOk(heaps, chunks, back, c)} :: c in chunks ==> ChunkOk(heaps, chunks, back, c)
  }

  /** Every chunk but those of `tiny` has room for the links of a free chunk. */
  ghost predicate Roomy(chunks: Chunks, tiny: set<Addr>) {
    forall c :: c in chunks && c !in tiny ==> chunks[c].size >= CHUNK_MIN_SIZE
  }

  /** `d` follows `c` in the same heap. */
  ghost predicate Follows(chunks: Chunks, c: Addr, d: Addr) {
    c in chunks && d in chunks && d == Past(chunks, c) && chunks[d].heap == chunks[c].heap
  }

  /** CHUNK_PUSED of a chunk is CHUNK_CUSED of the one before, if that is not in `lax`. */
  ghost predicate Flagged(chunks: Chunks, lax: set<Addr>) {
    forall c, d {:trigger Follows(chunks, c, d)} ::
      Follows(chunks, c, d) && c !in lax ==> chunks[d].prevUsed == chunks[c].used
  }

  /** No two free chunks follow each other, but for those of `ex`. */
  ghost predicate Merged(chunks: Chunks, ex: set<Addr>) {
    forall c, d {:trigger Follows(chunks, c, d)} ::
      Follows(chunks, c, d) && c !in ex && d !in ex ==> chunks[c].used || chunks[d].used
  }

  /** The last word of a free chunk holds its size. */
  ghost predicate FootOk(chunks: Chunks, foot: map<Addr, nat>, c: Addr)
    requires c in chunks
  {
    !chunks[c].used ==> Past(chunks, c) in foot && foot[Past(chunks, c)] == chunks[c].size
  }

  ghost predicate Footed(chunks: Chunks, foot: map<Addr, nat>, bare: set<Addr>) {
    forall c {:trigger FootOk(chunks, foot, c)} :: c in chunks && c !in bare ==> FootOk(chunks, foot, c)
  }

  /** The blocks that the program has, by the address of their chunk. */
  ghost function Live(chunks: Chunks): map<Addr, nat> {
    map c | c in chunks && chunks[c].used :: chunks[c].size
  }

  /** The bytes of live blocks never overlap. */
  lemma LiveApart(heaps: Heaps, chunks: Chunks, back: map<Addr, Addr>, c: Addr, d: Addr)
    requires Tiles(heaps, chunks, back) && c in Live(chunks) && d in Live(chunks) && c != d
    ensures c + Live(chunks)[c] <= d || d + Live(chunks)[d] <= c
  {
    assert Before(chunks, c, d) && Before(chunks, d, c);
  }

  /** Every byte of a heap behind its header lies in a chunk. */
  lemma {:induction false} Covered(heaps: Heaps, chunks: Chunks, back: map<Addr, Addr>, h: Addr, a: Addr, c: Addr)
    returns (d: Addr)
    requires Tiles(heaps, chunks, back) && h in heaps && c in chunks && chunks[c].heap == h
    requires c <= a < HeapEnd(heaps, h)
    ensures d in chunks && chunks[d].heap == h && d <= a < Past(chunks, d)
    decreases HeapEnd(heaps, h) - c
  {
    assert ChunkOk(heaps, chunks, back, c);
    if a < Past(chunks, c) {
      d := c;
    } else {
      d := Covered(heaps, chunks, back, h, a, Past(chunks, c));
    }
  }

  // ----- dividing a chunk -----

  /** Two chunks in place of one, the second with the given flag. */
  ghost function Cut(chunks: Chunks, c: Addr, n: nat, used: bool, prevUsed: bool, flag: bool): Chunks
    requires c in chunks && n < chunks[c].size
  {
    var k := chunks[c];
    chunks[c := Chunk(n, used, prevUsed, k.heap)][c + n := Chunk(k.size - n, false, flag, k.heap)]
  }

  ghost function CutBack(chunks: Chunks, back: map<Addr, Addr>, c: Addr, n: nat): map<Addr, Addr>
    requires c in chunks && n < chunks[c].size
  {
    back[c + n := c][Past(chunks, c) := c + n]
  }

  /** What a chunk of a tiled heap keeps when another chunk is cut. */
  lemma CutOthers(heaps: Heaps, chunks: Chunks, back: map<Addr, Addr>, c: Addr, n: nat, d: Addr, chunks': Chunks,
    back': map<Addr, Addr>)
    requires Tiles(heaps, chunks, back) && c in chunks && 0 < n < chunks[c].size && d in chunks && d != c
    requires exists used, prevUsed, flag :: chunks' == Cut(chunks, c, n, used, prevUsed, flag)
    requires back' == CutBack(chunks, back, c, n)
    ensures ChunkOk(heaps, chunks', back', d)
  {
    assert ChunkOk(heaps, chunks, back, c) && ChunkOk(heaps, chunks, back, d);
    assert Before(chunks, c, d) && Before(chunks, d, c);
    var g, h := chunks[c].heap, chunks[d].heap;
    assert HeapBefore(heaps, g, h) && HeapBefore(heaps, h, g);
    assert Before(chunks, c, c + n);
  }

  lemma CutBoth(heaps: Heaps, chunks: Chunks, back: map<Addr, Addr>, c: Addr, n: nat, chunks': Chunks,
    back': map<Addr, Addr>)
    requires Tiles(heaps, chunks, back) && c in chunks && 0 < n < chunks[c].size && n % 8 == 0
    requires exists used, prevUsed, flag :: chunks' == Cut(chunks, c, n, used, prevUsed, flag)
    requires back' == CutBack(chunks, back, c, n)
    ensures ChunkOk(heaps, chunks', back', c) && ChunkOk(heaps, chunks', back', c + n)
  {
    assert ChunkOk(heaps, chunks, back, c);
    if c > chunks[c].heap + HEAP_HEADER { assert ChunkOk(heaps, chunks, back, back[c]); }
  }

  lemma CutApart(heaps: Heaps, chunks: Chunks, back: map<Addr, Addr>, c: Addr, n: nat, chunks': Chunks)
    requires Tiles(heaps, chunks, back) && c in chunks && 0 < n < chunks[c].size
    requires exists used, prevUsed, flag :: chunks' == Cut(chunks, c, n, used, prevUsed, flag)
    ensures Apart(chunks') && c + n !in chunks
  {
    assert Before(chunks, c, c + n);
    forall d, e ensures Before(chunks', d, e) {
      assert Before(chunks, d, e) && Before(chunks, c, e) && Before(chunks, d, c) && Before(chunks, c, d);
    }
  }

  lemma CutTiles(heaps: Heaps, chunks: Chunks, back: map<Addr, Addr>, c: Addr, n: nat, chunks': Chunks,
    back': map<Addr, Addr>)
    requires Tiles(heaps, chunks, back) && c in chunks && 0 < n < chunks[c].size && n % 8 == 0
    requires exists used, prevUsed, flag :: chunks' == Cut(chunks, c, n, used, prevUsed, flag)
    requires c == chunks[c].heap + HEAP_HEADER ==> chunks'[c].prevUsed
    requires back' == CutBack(chunks, back, c, n)
    ensures c + n !in chunks && Tiles(heaps, chunks', back')
  {
    CutApart(heaps, chunks, back, c, n, chunks');
    forall d | d in chunks' ensures ChunkOk(heaps, chunks', back', d) {
      if d == c || d == c + n {
        CutBoth(heaps, chunks, back, c, n, chunks', back');
      } else {
        CutOthers(heaps, chunks, back, c, n, d, chunks', back');
      }
    }
    forall h | h in heaps ensures HeapOk(heaps, chunks', h) {
      assert HeapOk(heaps, chunks, h);
    }
  }

  // ----- changing flags -----

  /** The same chunks of the same sizes in the same heaps. */
  ghost predicate SameShape(chunks: Chunks, chunks': Chunks) {
    && chunks'.Keys == chunks.Keys
    && forall c :: c in chunks ==> chunks'[c].size == chunks[c].size && chunks'[c].heap == chunks[c].heap
  }

  lemma ShapeTiles(heaps: Heaps, chunks: Chunks, back: map<Addr, Addr>, heaps': Heaps, chunks': Chunks)
    requires Tiles(heaps, chunks, back) && SameShape(chunks, chunks')
    requires heaps'.Keys == heaps.Keys && forall h :: h in heaps ==> heaps'[h].size == heaps[h].size
    requires forall c :: c in chunks && c == chunks[c].heap + HEAP_HEADER ==> chunks'[c].prevUsed
    ensures Tiles(heaps', chunks', back)
  {
    forall c, d ensures Before(chunks', c, d) {
      assert Before(chunks, c, d);
    }
    forall c | c in chunks' ensures ChunkOk(heaps', chunks', back, c) {
      assert ChunkOk(heaps, chunks, back, c);
    }
    forall h | h in heaps' ensures HeapOk(heaps', chunks', h) {
      assert HeapOk(heaps, chunks, h);
    }
    forall g, h ensures HeapBefore(heaps', g, h) {
      assert HeapBefore(heaps, g, h);
    }
  }

  // ----- joining two chunks -----

  ghost function Fuse(chunks: Chunks, c: Addr, d: Addr): Chunks
    requires c in chunks && d in chunks
  {
    (chunks - {d})[c := Chunk(chunks[c].size + chunks[d].size, chunks[c].used, chunks[c].prevUsed, chunks[c].heap)]
  }

  ghost function FuseBack(chunks: Chunks, back: map<Addr, Addr>, c: Addr, d: Addr): map<Addr, Addr>
    requires d in chunks
  {
    back[Past(chunks, d) := c]
  }

  lemma FuseOthers(heaps: Heaps, chunks: Chunks, back: map<Addr, Addr>, c: Addr, d: Addr, e: Addr, chunks': Chunks,
    back': map<Addr, Addr>)
    requires Tiles(heaps, chunks, back) && Follows(chunks, c, d) && e in chunks && e != c && e != d
    requires chunks' == Fuse(chunks, c, d) && back' == FuseBack(chunks, back, c, d)
    ensures ChunkOk(heaps, chunks', back', e)
  {
    assert ChunkOk(heaps, chunks, back, c) && ChunkOk(heaps, chunks, back, d) && ChunkOk(heaps, chunks, back, e);
    assert Before(chunks, c, e) && Before(chunks, d, e) && Before(chunks, e, d);
    var g, h := chunks[c].heap, chunks[e].heap;
    assert HeapBefore(heaps, g, h) && HeapBefore(heaps, h, g);
    if e > h + HEAP_HEADER {
      assert Before(chunks, back[e], c) && Before(chunks, back[e], d);
    }
    assert Past(chunks, e) == d ==> Before(chunks, e, c) && Before(chunks, c, e);
  }

  lemma FuseThis(heaps: Heaps, chunks: Chunks, back: map<Addr, Addr>, c: Addr, d: Addr, chunks': Chunks,
    back': map<Addr, Addr>)
    requires Tiles(heaps, chunks, back) && Follows(chunks, c, d)
    requires chunks' == Fuse(chunks, c, d) && back' == FuseBack(chunks, back, c, d)
    ensures ChunkOk(heaps, chunks', back', c)
  {
    assert ChunkOk(heaps, chunks, back, c) && ChunkOk(heaps, chunks, back, d);
    if c > chunks[c].heap + HEAP_HEADER { assert ChunkOk(heaps, chunks, back, back[c]); }
  }

  lemma FuseTiles(heaps: Heaps, chunks: Chunks, back: map<Addr, Addr>, c: Addr, d: Addr, chunks': Chunks,
    back': map<Addr, Addr>)
    requires Tiles(heaps, chunks, back) && Follows(chunks, c, d)
    requires chunks' == Fuse(chunks, c, d) && back' == FuseBack(chunks, back, c, d)
    ensures Tiles(heaps, chunks', back')
  {
    assert ChunkOk(heaps, chunks, back, c) && ChunkOk(heaps, chunks, back, d);
    forall e | e in chunks' ensures ChunkOk(heaps, chunks', back', e) {
      if e == c {
        FuseThis(heaps, chunks, back, c, d, chunks', back');
      } else {
        FuseOthers(heaps, chunks, back, c, d, e, chunks', back');
      }
    }
    forall e, f ensures Before(chunks', e, f) {
      assert Before(chunks, e, f) && Before(chunks, c, f) && Before(chunks, d, f) && Before(chunks, f, d);
    }
    forall h | h in heaps ensures HeapOk(heaps, chunks', h) {
      assert HeapOk(heaps, chunks, h);
    }
  }

  // ----- heaps come and go -----

  /** A region that no heap touches. */
  ghost predicate Unused(heaps: Heaps, h: Addr, size: nat) {
    h > 0 && forall g :: g in heaps ==> HeapEnd(heaps, g) <= h || h + size <= g
  }

  lemma NewHeapAway(heaps: Heaps, chunks: Chunks, back: map<Addr, Addr>, h: Addr, size: nat, d: Addr)
    requires Tiles(heaps, chunks, back) && Unused(heaps, h, size) && d in chunks
    ensures Past(chunks, d) <= h || h + size <= d
  {
    assert ChunkOk(heaps, chunks, back, d);
  }

  lemma NewHeapApart(heaps: Heaps, chunks: Chunks, back: map<Addr, Addr>, h: Addr, size: nat, chunks': Chunks)
    requires Tiles(heaps, chunks, back) && Unused(heaps, h, size) && size > HEAP_HEADER
    requires chunks' == chunks[h + HEAP_HEADER := Chunk(size - HEAP_HEADER, false, true, h)]
    ensures h !in heaps && h + HEAP_HEADER !in chunks && Apart(chunks')
  {
    if h in heaps { assert HeapOk(heaps, chunks, h); }
    if h + HEAP_HEADER in chunks {
      assert ChunkOk(heaps, chunks, back, h + HEAP_HEADER);
      NewHeapAway(heaps, chunks, back, h, size, h + HEAP_HEADER);
    }
    forall d, e ensures Before(chunks', d, e) {
      assert Before(chunks, d, e);
      if d in chunks { NewHeapAway(heaps, chunks, back, h, size, d); }
      if e in chunks { NewHeapAway(heaps, chunks, back, h, size, e); }
    }
  }

  lemma NewHeapTiles(heaps: Heaps, chunks: Chunks, back: map<Addr, Addr>, h: Addr, size: nat, freesz: nat,
    heaps': Heaps, chunks': Chunks)
    requires Tiles(heaps, chunks, back) && Unused(heaps, h, size) && size > HEAP_HEADER && size % 8 == 0
    requires heaps' == heaps[h := Heap(size, freesz)]
    requires chunks' == chunks[h + HEAP_HEADER := Chunk(size - HEAP_HEADER, false, true, h)]
    ensures h !in heaps && h + HEAP_HEADER !in chunks && Tiles(heaps', chunks', back)
  {
    NewHeapApart(heaps, chunks, back, h, size, chunks');
    forall d | d in chunks' ensures ChunkOk(heaps', chunks', back, d) {
      if d in chunks { assert ChunkOk(heaps, chunks, back, d); }
    }
    forall g | g in heaps' ensures HeapOk(heaps', chunks', g) {
      if g != h { assert HeapOk(heaps, chunks, g); }
    }
    forall f, g ensures HeapBefore(heaps', f, g) {
      assert HeapBefore(heaps, f, g);
    }
  }

  lemma DropHeapTiles(heaps: Heaps, chunks: Chunks, back: map<Addr, Addr>, h: Addr, heaps': Heaps, chunks': Chunks)
    requires Tiles(heaps, chunks, back) && h in heaps
    requires h + HEAP_HEADER in chunks && Past(chunks, h + HEAP_HEADER) == HeapEnd(heaps, h)
    requires heaps' == heaps - {h} && chunks' == chunks - {h + HEAP_HEADER}
    ensures Tiles(heaps', chunks', back)
  {
    var c := h + HEAP_HEADER;
    assert HeapOk(heaps, chunks, h);
    forall d | d in chunks' ensures ChunkOk(heaps', chunks', back, d) {
      assert ChunkOk(heaps, chunks, back, d) && Before(chunks, c, d) && Before(chunks, d, c);
      if d > chunks[d].heap + HEAP_HEADER { assert Before(chunks, back[d], c) && Before(chunks, c, back[d]); }
      assert HeapBefore(heaps, h, chunks[d].heap) && HeapBefore(heaps, chunks[d].heap, h);
    }
    forall d, e ensures Before(chunks', d, e) {
      assert Before(chunks, d, e);
    }
    forall g | g in heaps' ensures HeapOk(heaps', chunks', g) {
      assert HeapOk(heaps, chunks, g);
    }
    forall f, g ensures HeapBefore(heaps', f, g) {
      assert HeapBefore(heaps, f, g);
    }
  }

  // ----- free bytes -----

  /** The sizes of the free chunks from `a` on. */
  ghost function FreeFrom(chunks: Chunks, a: Addr, end: Addr): nat
    decreases if a < end then end - a else 0
  {
    if a < end && a in chunks && chunks[a].size > 0 then
      (if chunks[a].used then 0 else chunks[a].size) + FreeFrom(chunks, Past(chunks, a), end)
    else 0
  }

  ghost predicate AgreeAt(chunks: Chunks, chunks': Chunks, x: Addr) {
    && (x in chunks <==> x in chunks')
    && (x in chunks ==> chunks'[x].size == chunks[x].size && chunks'[x].used == chunks[x].used)
  }

  /** Two states of the chunks with the same ones in [lo, hi). */
  ghost predicate Agree(chunks: Chunks, chunks': Chunks, lo: Addr, hi: Addr) {
    forall x :: lo <= x < hi ==> AgreeAt(chunks, chunks', x)
  }

  lemma {:induction false} FreeSame(chunks: Chunks, chunks': Chunks, a: Addr, end: Addr)
    requires Agree(chunks, chunks', a, end)
    ensures FreeFrom(chunks', a, end) == FreeFrom(chunks, a, end)
    decreases if a < end then end - a else 0
  {
    if a < end {
      assert AgreeAt(chunks, chunks', a);
      if a in chunks && chunks[a].size > 0 { FreeSame(chunks, chunks', Past(chunks, a), end); }
    }
  }

  /** Up to a chunk of the heap the sum grows alike in both. */
  lemma {:induction false} FreeUpTo(heaps: Heaps, chunks: Chunks, back: map<Addr, Addr>, chunks': Chunks, a: Addr,
    c: Addr, end: Addr)
    requires Tiles(heaps, chunks, back) && a in chunks && c in chunks && a <= c && chunks[a].heap == chunks[c].heap
    requires chunks[c].heap in heaps && end == HeapEnd(heaps, chunks[c].heap) && Agree(chunks, chunks', a, c)
    ensures FreeFrom(chunks', a, end) - FreeFrom(chunks', c, end) == FreeFrom(chunks, a, end) - FreeFrom(chunks, c, end)
    decreases c - a
  {
    if a < c {
      assert ChunkOk(heaps, chunks, back, a) && ChunkOk(heaps, chunks, back, c) && Before(chunks, a, c);
      assert AgreeAt(chunks, chunks', a);
      FreeUpTo(heaps, chunks, back, chunks', Past(chunks, a), c, end);
    }
  }

  ghost function FreeIn(heaps: Heaps, chunks: Chunks, h: Addr): nat
    requires h in heaps
  {
    FreeFrom(chunks, h + HEAP_HEADER, HeapEnd(heaps, h))
  }

  /** The count of each heap is the sum of its free chunks. */
  ghost predicate Summed(heaps: Heaps, chunks: Chunks) {
    forall h {:trigger FreeIn(heaps, chunks, h)} :: h in heaps ==> heaps[h].freesz == FreeIn(heaps, chunks, h)
  }

  /** A change between `c` and `e` in heap `h` changes its sum there and no other sum. */
  lemma FreeChange(heaps: Heaps, chunks: Chunks, back: map<Addr, Addr>, chunks': Chunks, c: Addr, e: Addr)
    requires Tiles(heaps, chunks, back) && c in chunks && chunks[c].heap in heaps
    requires c <= e <= HeapEnd(heaps, chunks[c].heap)
    requires forall x: nat :: x < c || e <= x ==> AgreeAt(chunks, chunks', x)
    ensures var h := chunks[c].heap; var end := HeapEnd(heaps, h);
      && FreeFrom(chunks', e, end) == FreeFrom(chunks, e, end)
      && FreeIn(heaps, chunks', h) - FreeFrom(chunks', c, end) == FreeIn(heaps, chunks, h) - FreeFrom(chunks, c, end)
    ensures forall g :: g in heaps && g != chunks[c].heap ==> FreeIn(heaps, chunks', g) == FreeIn(heaps, chunks, g)
  {
    var h := chunks[c].heap;
    assert ChunkOk(heaps, chunks, back, c);
    assert HeapOk(heaps, chunks, h);
    FreeUpTo(heaps, chunks, back, chunks', h + HEAP_HEADER, c, HeapEnd(heaps, h));
    FreeSame(chunks, chunks', e, HeapEnd(heaps, h));
    forall g | g in heaps && g != h ensures FreeIn(heaps, chunks', g) == FreeIn(heaps, chunks, g) {
      assert HeapBefore(heaps, g, h) && HeapBefore(heaps, h, g);
      FreeSame(chunks, chunks', g + HEAP_HEADER, HeapEnd(heaps, g));
    }
  }

  /** A heap whose count is all it can be, with no two free neighbours, is one free chunk. */
  lemma {:induction false} FreeBound(heaps: Heaps, chunks: Chunks, back: map<Addr, Addr>, a: Addr, end: Addr)
    requires Tiles(heaps, chunks, back) && a in chunks && chunks[a].heap in heaps
    requires end == HeapEnd(heaps, chunks[a].heap)
    ensures FreeFrom(chunks, a, end) <= end - a
    ensures FreeFrom(chunks, a, end) == end - a ==> !chunks[a].used
    ensures FreeFrom(chunks, a, end) == end - a && Past(chunks, a) < end ==>
      FreeFrom(chunks, Past(chunks, a), end) == end - Past(chunks, a)
    decreases end - a
  {
    assert ChunkOk(heaps, chunks, back, a);
    if Past(chunks, a) < end { FreeBound(heaps, chunks, back, Past(chunks, a), end); }
  }

  lemma AllFree(heaps: Heaps, chunks: Chunks, back: map<Addr, Addr>, h: Addr)
    requires Tiles(heaps, chunks, back) && Merged(chunks, {}) && h in heaps
    requires FreeIn(heaps, chunks, h) == heaps[h].size - HEAP_HEADER
    ensures h + HEAP_HEADER in chunks && !chunks[h + HEAP_HEADER].used
    ensures Past(chunks, h + HEAP_HEADER) == HeapEnd(heaps, h)
  {
    var c, end := h + HEAP_HEADER, HeapEnd(heaps, h);
    assert HeapOk(heaps, chunks, h);
    assert ChunkOk(heaps, chunks, back, c);
    FreeBound(heaps, chunks, back, c, end);
    if Past(chunks, c) < end {
      FreeBound(heaps, chunks, back, Past(chunks, c), end);
      assert Follows(chunks, c, Past(chunks, c));
    }
  }

  // ----- heaps that are in use -----

  /** No heap has changed its size. */
  ghost predicate SameSizes(heaps: Heaps, heaps': Heaps) {
    forall h {:trigger h in heaps'} :: h in heaps && h in heaps' ==> heaps'[h].size == heaps[h].size
  }

  /** A live block lies in the heap. */
  ghost predicate HoldsLive(heaps: Heaps, live: map<Addr, nat>, h: Addr)
    requires h in heaps
  {
    exists c :: c in live && h < c < HeapEnd(heaps, h)
  }

  /** Every heap holds a live block: none is kept that could go. */
  ghost predicate Needed(heaps: Heaps, live: map<Addr, nat>) {
    forall h {:trigger HoldsLive(heaps, live, h)} :: h in heaps ==> HoldsLive(heaps, live, h)
  }

  /** A stretch that is not all free has a live block. */
  lemma {:induction false} UsedFrom(heaps: Heaps, chunks: Chunks, back: map<Addr, Addr>, a: Addr, end: Addr)
    returns (c: Addr)
    requires Tiles(heaps, chunks, back) && a in chunks && chunks[a].heap in heaps
    requires end == HeapEnd(heaps, chunks[a].heap) && FreeFrom(chunks, a, end) != end - a
    ensures c in Live(chunks) && a <= c < end
    decreases end - a
  {
    assert ChunkOk(heaps, chunks, back, a);
    if chunks[a].used {
      c := a;
    } else {
      c := UsedFrom(heaps, chunks, back, Past(chunks, a), end);
    }
  }

  lemma NotAllFree(heaps: Heaps, chunks: Chunks, back: map<Addr, Addr>, h: Addr)
    requires Tiles(heaps, chunks, back) && h in heaps && FreeIn(heaps, chunks, h) != heaps[h].size - HEAP_HEADER
    ensures HoldsLive(heaps, Live(chunks), h)
  {
    assert HeapOk(heaps, chunks, h);
    var c := UsedFrom(heaps, chunks, back, h + HEAP_HEADER, HeapEnd(heaps, h));
  }

  /** More live blocks, and one in every new heap. */
  lemma NeededMore(heaps: Heaps, live: map<Addr, nat>, heaps': Heaps, live': map<Addr, nat>)
    requires Needed(heaps, live) && SameSizes(heaps, heaps') && live.Keys <= live'.Keys
    requires forall h :: h in heaps' && h !in heaps ==> HoldsLive(heaps', live', h)
    ensures Needed(heaps', live')
  {
    forall h | h in heaps' ensures HoldsLive(heaps', live', h) {
      if h in heaps {
        assert HoldsLive(heaps, live, h);
        var c :| c in live && h < c < HeapEnd(heaps, h);
        assert c in live';
      }
    }
  }

  /** A new heap whose first chunk has become live. */
  lemma FreshHolds(heaps: Heaps, heaps1: Heaps, heaps2: Heaps, h: Addr, live: map<Addr, nat>)
    requires h !in heaps && heaps1.Keys == heaps.Keys + {h} && heaps2.Keys == heaps1.Keys
    requires SameSizes(heaps, heaps1) && SameSizes(heaps1, heaps2)
    requires h + HEAP_HEADER < HeapEnd(heaps1, h) && h + HEAP_HEADER in live
    ensures SameSizes(heaps, heaps2)
    ensures forall g :: g in heaps2 && g !in heaps ==> HoldsLive(heaps2, live, g)
  {
    assert h in heaps2 && h in heaps1;
    assert forall g :: g in heaps2 && g !in heaps ==> g == h;
    assert heaps2[h].size == heaps1[h].size;
    assert HoldsLive(heaps2, live, h);
  }

  /** One block less; its own heap holds another one or is gone. */
  lemma NeededLess(heaps: Heaps, chunks: Chunks, back: map<Addr, Addr>, c: Addr, heaps': Heaps, live': map<Addr, nat>)
    requires Tiles(heaps, chunks, back) && c in chunks && Needed(heaps, Live(chunks))
    requires heaps'.Keys <= heaps.Keys && SameSizes(heaps, heaps') && live' == Live(chunks) - {c}
    requires chunks[c].heap in heaps' ==> HoldsLive(heaps', live', chunks[c].heap)
    ensures Needed(heaps', live')
  {
    assert ChunkOk(heaps, chunks, back, c);
    var g := chunks[c].heap;
    forall h | h in heaps' ensures HoldsLive(heaps', live', h) {
      if h != g {
        assert HoldsLive(heaps, Live(chunks), h);
        var d :| d in Live(chunks) && h < d < HeapEnd(heaps, h);
        assert HeapBefore(heaps, g, h) && HeapBefore(heaps, h, g);
        assert d in live';
      }
    }
  }
}
