/** What taking, freeing, joining and dividing chunks does to boundary tags and counts. */
module MallocSteps {
  import opened MallocSize
  import opened MallocArena

  // ----- flags of two neighbours -----

  /** `chunks` with the flags of `c`, and CHUNK_PUSED of the chunk behind it. */
  ghost function Marked(chunks: Chunks, c: Addr, used: bool): Chunks
    requires c in chunks
  {
    var k, d := chunks[c], Past(chunks, c);
    var m := chunks[c := Chunk(k.size, used, k.prevUsed, k.heap)];
    if Follows(chunks, c, d) && d != c then
      m[d := Chunk(chunks[d].size, chunks[d].used, used, chunks[d].heap)]
    else m
  }

  lemma MarkedTiles(heaps: Heaps, chunks: Chunks, back: map<Addr, Addr>, c: Addr, used: bool)
    requires Tiles(heaps, chunks, back) && c in chunks
    ensures SameShape(chunks, Marked(chunks, c, used)) && Tiles(heaps, Marked(chunks, c, used), back)
  {
    assert ChunkOk(heaps, chunks, back, c);
    forall d | d in chunks && d == chunks[d].heap + HEAP_HEADER ensures Marked(chunks, c, used)[d].prevUsed {
      assert ChunkOk(heaps, chunks, back, d) && HeapOk(heaps, chunks, chunks[d].heap);
    }
    ShapeTiles(heaps, chunks, back, heaps, Marked(chunks, c, used));
  }

  lemma FollowsShape(chunks: Chunks, chunks': Chunks, x: Addr, y: Addr)
    requires SameShape(chunks, chunks')
    ensures Follows(chunks, x, y) <==> Follows(chunks', x, y)
  {
  }

  lemma FollowsOnce(heaps: Heaps, chunks: Chunks, back: map<Addr, Addr>, x: Addr, y: Addr, z: Addr)
    requires Tiles(heaps, chunks, back) && Follows(chunks, x, z) && Follows(chunks, y, z)
    ensures x == y
  {
    assert Before(chunks, x, y) && Before(chunks, y, x);
    assert ChunkOk(heaps, chunks, back, x) && ChunkOk(heaps, chunks, back, y);
  }

  lemma MarkedFlags(heaps: Heaps, chunks: Chunks, back: map<Addr, Addr>, c: Addr, used: bool)
    requires Tiles(heaps, chunks, back) && c in chunks && Flagged(chunks, {})
    ensures Flagged(Marked(chunks, c, used), {})
  {
    var chunks' := Marked(chunks, c, used);
    MarkedTiles(heaps, chunks, back, c, used);
    forall x, y | Follows(chunks', x, y) ensures chunks'[y].prevUsed == chunks'[x].used {
      FollowsShape(chunks, chunks', x, y);
      assert ChunkOk(heaps, chunks, back, x);
      if y == Past(chunks, c) && Follows(chunks, c, y) { FollowsOnce(heaps, chunks, back, x, c, y); }
    }
  }

  /** Free neighbours can only be new ones of a chunk that is freed. */
  lemma MarkedMerged(heaps: Heaps, chunks: Chunks, back: map<Addr, Addr>, c: Addr, used: bool, ex: set<Addr>)
    requires Tiles(heaps, chunks, back) && c in chunks && Merged(chunks, ex)
    ensures Merged(Marked(chunks, c, used), if used then ex - {c} else ex + {c})
  {
    var chunks' := Marked(chunks, c, used);
    MarkedTiles(heaps, chunks, back, c, used);
    forall x, y | Follows(chunks', x, y) ensures Follows(chunks, x, y) {
      FollowsShape(chunks, chunks', x, y);
    }
  }

  lemma MarkedFeet(heaps: Heaps, chunks: Chunks, back: map<Addr, Addr>, c: Addr, used: bool, foot: map<Addr, nat>,
    foot': map<Addr, nat>, bare: set<Addr>)
    requires Tiles(heaps, chunks, back) && c in chunks && Footed(chunks, foot, bare)
    requires foot' == if used then foot else foot[Past(chunks, c) := chunks[c].size]
    ensures Footed(Marked(chunks, c, used), foot', bare - {c})
  {
    var chunks' := Marked(chunks, c, used);
    MarkedTiles(heaps, chunks, back, c, used);
    assert ChunkOk(heaps, chunks, back, c);
    forall d | d in chunks' && d !in bare - {c} ensures FootOk(chunks', foot', d) {
      assert d != c ==> FootOk(chunks, foot, d);
      assert Before(chunks, c, d) && Before(chunks, d, c) && ChunkOk(heaps, chunks, back, d);
    }
  }

  lemma MarkedSum(heaps: Heaps, chunks: Chunks, back: map<Addr, Addr>, c: Addr, used: bool)
    requires Tiles(heaps, chunks, back) && c in chunks && chunks[c].used != used && chunks[c].heap in heaps
    ensures var h, chunks' := chunks[c].heap, Marked(chunks, c, used);
      FreeIn(heaps, chunks', h) as int
        == FreeIn(heaps, chunks, h) as int + (if used then -(chunks[c].size as int) else chunks[c].size as int)
    ensures forall g :: g in heaps && g != chunks[c].heap ==>
      FreeIn(heaps, Marked(chunks, c, used), g) == FreeIn(heaps, chunks, g)
  {
    var chunks', e := Marked(chunks, c, used), Past(chunks, c);
    assert ChunkOk(heaps, chunks, back, c);
    forall x: nat | x < c || e <= x ensures AgreeAt(chunks, chunks', x) {}
    FreeChange(heaps, chunks, back, chunks', c, e);
  }

  // ----- dividing -----

  /** The neighbours after a chunk has been cut. */
  lemma CutFollows(heaps: Heaps, chunks: Chunks, back: map<Addr, Addr>, c: Addr, n: nat, chunks': Chunks, x: Addr,
    y: Addr)
    requires Tiles(heaps, chunks, back) && c in chunks && 0 < n < chunks[c].size
    requires exists used, prevUsed, flag :: chunks' == Cut(chunks, c, n, used, prevUsed, flag)
    requires Follows(chunks', x, y)
    ensures x == c ==> y == c + n
    ensures x == c + n ==> Follows(chunks, c, y) && y != c + n && y != c
    ensures x != c && x != c + n ==> Follows(chunks, x, y) && y != c + n
  {
    CutApart(heaps, chunks, back, c, n, chunks');
    assert ChunkOk(heaps, chunks, back, c);
    if x in chunks {
      assert ChunkOk(heaps, chunks, back, x);
      assert Before(chunks, x, c) && Before(chunks, c, x);
    }
  }

  /** A free chunk cut in two free ones, or a used one in a used and a free one. */
  lemma CutFlags(heaps: Heaps, chunks: Chunks, back: map<Addr, Addr>, c: Addr, n: nat, flag: bool, lax: set<Addr>,
    chunks': Chunks)
    requires Tiles(heaps, chunks, back) && c in chunks && 0 < n < chunks[c].size && Flagged(chunks, {})
    requires chunks' == Cut(chunks, c, n, chunks[c].used, chunks[c].prevUsed, flag)
    requires flag == chunks[c].used && lax == if chunks[c].used then {c + n} else {}
    ensures Flagged(chunks', lax)
  {
    forall x, y | Follows(chunks', x, y) && x !in lax ensures chunks'[y].prevUsed == chunks'[x].used {
      CutFollows(heaps, chunks, back, c, n, chunks', x, y);
    }
  }

  lemma CutMerged(heaps: Heaps, chunks: Chunks, back: map<Addr, Addr>, c: Addr, n: nat, flag: bool, chunks': Chunks)
    requires Tiles(heaps, chunks, back) && c in chunks && 0 < n < chunks[c].size && Merged(chunks, {})
    requires chunks' == Cut(chunks, c, n, chunks[c].used, chunks[c].prevUsed, flag)
    ensures Merged(chunks', if chunks[c].used then {c + n} else {c})
  {
    forall x, y | Follows(chunks', x, y) && x != c && y != c
      ensures (x == c + n && chunks[c].used) || chunks'[x].used || chunks'[y].used
    {
      CutFollows(heaps, chunks, back, c, n, chunks', x, y);
    }
    forall x, y | Follows(chunks', x, y) && chunks[c].used && x != c + n && y != c + n
      ensures chunks'[x].used || chunks'[y].used
    {
      CutFollows(heaps, chunks, back, c, n, chunks', x, y);
    }
  }

  lemma CutFeet(heaps: Heaps, chunks: Chunks, back: map<Addr, Addr>, c: Addr, n: nat, flag: bool, foot: map<Addr,
    nat>, foot': map<Addr, nat>, chunks': Chunks)
    requires Tiles(heaps, chunks, back) && c in chunks && 0 < n < chunks[c].size && Footed(chunks, foot, {})
    requires chunks' == Cut(chunks, c, n, chunks[c].used, chunks[c].prevUsed, flag)
    requires foot' == foot[Past(chunks, c) := chunks[c].size - n]
    ensures Footed(chunks', foot', {c})
  {
    CutApart(heaps, chunks, back, c, n, chunks');
    assert ChunkOk(heaps, chunks, back, c);
    forall d | d in chunks' && d != c ensures FootOk(chunks', foot', d) {
      if d != c + n {
        assert FootOk(chunks, foot, d) && ChunkOk(heaps, chunks, back, d);
        assert Before(chunks, c, d) && Before(chunks, d, c);
      }
    }
  }

  lemma CutSum(heaps: Heaps, chunks: Chunks, back: map<Addr, Addr>, c: Addr, n: nat, flag: bool, chunks': Chunks)
    requires Tiles(heaps, chunks, back) && c in chunks && 0 < n < chunks[c].size && chunks[c].heap in heaps
    requires chunks' == Cut(chunks, c, n, chunks[c].used, chunks[c].prevUsed, flag)
    ensures FreeIn(heaps, chunks', chunks[c].heap)
      == FreeIn(heaps, chunks, chunks[c].heap) + if chunks[c].used then chunks[c].size - n else 0
    ensures forall g :: g in heaps && g != chunks[c].heap ==> FreeIn(heaps, chunks', g) == FreeIn(heaps, chunks, g)
  {
    var e, end := Past(chunks, c), HeapEnd(heaps, chunks[c].heap);
    CutApart(heaps, chunks, back, c, n, chunks');
    assert ChunkOk(heaps, chunks, back, c);
    forall x: nat | x < c || e <= x ensures AgreeAt(chunks, chunks', x) {}
    FreeChange(heaps, chunks, back, chunks', c, e);
    assert FreeFrom(chunks', c, end) == (if chunks[c].used then 0 else n) + FreeFrom(chunks', c + n, end);
    assert FreeFrom(chunks', c + n, end) == chunks[c].size - n + FreeFrom(chunks', e, end);
  }

  // ----- joining -----

  lemma FuseFollows(heaps: Heaps, chunks: Chunks, back: map<Addr, Addr>, c: Addr, d: Addr, chunks': Chunks, x: Addr,
    y: Addr)
    requires Tiles(heaps, chunks, back) && Follows(chunks, c, d) && chunks' == Fuse(chunks, c, d)
    requires Follows(chunks', x, y)
    ensures x != d && y != d
    ensures x == c ==> Follows(chunks, d, y)
    ensures x != c ==> Follows(chunks, x, y)
  {
    assert ChunkOk(heaps, chunks, back, c) && ChunkOk(heaps, chunks, back, d);
  }

  lemma FuseFlags(heaps: Heaps, chunks: Chunks, back: map<Addr, Addr>, c: Addr, d: Addr, lax: set<Addr>,
    chunks': Chunks)
    requires Tiles(heaps, chunks, back) && Follows(chunks, c, d) && chunks' == Fuse(chunks, c, d)
    requires Flagged(chunks, lax) && d !in lax && chunks[c].used == chunks[d].used
    ensures Flagged(chunks', lax)
  {
    forall x, y | Follows(chunks', x, y) && x !in lax ensures chunks'[y].prevUsed == chunks'[x].used {
      FuseFollows(heaps, chunks, back, c, d, chunks', x, y);
    }
  }

  lemma FuseMerged(heaps: Heaps, chunks: Chunks, back: map<Addr, Addr>, c: Addr, d: Addr, chunks': Chunks)
    requires Tiles(heaps, chunks, back) && Follows(chunks, c, d) && chunks' == Fuse(chunks, c, d)
    requires Merged(chunks, {c}) || Merged(chunks, {d})
    ensures Merged(chunks', {c})
  {
    forall x, y | Follows(chunks', x, y) && x != c && y != c ensures chunks'[x].used || chunks'[y].used {
      FuseFollows(heaps, chunks, back, c, d, chunks', x, y);
    }
  }

  lemma FuseFeet(heaps: Heaps, chunks: Chunks, back: map<Addr, Addr>, c: Addr, d: Addr, foot: map<Addr, nat>,
    chunks': Chunks)
    requires Tiles(heaps, chunks, back) && Follows(chunks, c, d) && chunks' == Fuse(chunks, c, d)
    requires Footed(chunks, foot, {c}) || Footed(chunks, foot, {d})
    ensures Footed(chunks', foot, {c})
  {
    forall e | e in chunks' && e != c ensures FootOk(chunks', foot, e) {
      assert FootOk(chunks, foot, e);
    }
  }

  lemma FuseSum(heaps: Heaps, chunks: Chunks, back: map<Addr, Addr>, c: Addr, d: Addr, chunks': Chunks)
    requires Tiles(heaps, chunks, back) && Follows(chunks, c, d) && chunks' == Fuse(chunks, c, d)
    requires chunks[c].used == chunks[d].used
    requires Summed(heaps, chunks)
    ensures Summed(heaps, chunks')
  {
    assert ChunkOk(heaps, chunks, back, c) && ChunkOk(heaps, chunks, back, d);
    var e, end := Past(chunks, d), HeapEnd(heaps, chunks[c].heap);
    forall x: nat | x < c || e <= x ensures AgreeAt(chunks, chunks', x) {}
    FreeChange(heaps, chunks, back, chunks', c, e);
    assert FreeFrom(chunks, c, end) == (if chunks[c].used then 0 else chunks[c].size) + FreeFrom(chunks, d, end);
    forall h | h in heaps ensures heaps[h].freesz == FreeIn(heaps, chunks', h) {
      assert heaps[h].freesz == FreeIn(heaps, chunks, h);
    }
  }

  // ----- heaps -----

  /** Boundary tags and neighbours of a heap that is one free chunk. */
  lemma NewHeapTags(heaps: Heaps, chunks: Chunks, back: map<Addr, Addr>, h: Addr, size: nat, foot: map<Addr, nat>,
    chunks': Chunks, foot': map<Addr, nat>)
    requires Tiles(heaps, chunks, back) && Unused(heaps, h, size) && size > HEAP_HEADER && size % 8 == 0
    requires Flagged(chunks, {}) && Merged(chunks, {}) && Footed(chunks, foot, {})
    requires chunks' == chunks[h + HEAP_HEADER := Chunk(size - HEAP_HEADER, false, true, h)]
    requires foot' == foot[h + size := size - HEAP_HEADER]
    ensures Flagged(chunks', {}) && Merged(chunks', {}) && Footed(chunks', foot', {})
  {
    var c := h + HEAP_HEADER;
    NewHeapApart(heaps, chunks, back, h, size, chunks');
    forall x, y | Follows(chunks', x, y) ensures Follows(chunks, x, y) {
      if x in chunks { assert ChunkOk(heaps, chunks, back, x); }
      if y in chunks { assert ChunkOk(heaps, chunks, back, y); }
    }
    forall d | d in chunks' ensures FootOk(chunks', foot', d) {
      if d != c {
        assert FootOk(chunks, foot, d);
        NewHeapAway(heaps, chunks, back, h, size, d);
        assert ChunkOk(heaps, chunks, back, d);
      }
    }
  }

  lemma NewHeapSum(heaps: Heaps, chunks: Chunks, back: map<Addr, Addr>, h: Addr, size: nat, heaps': Heaps,
    chunks': Chunks)
    requires Tiles(heaps, chunks, back) && Unused(heaps, h, size) && size > HEAP_HEADER && Summed(heaps, chunks)
    requires heaps' == heaps[h := Heap(size, size - HEAP_HEADER)]
    requires chunks' == chunks[h + HEAP_HEADER := Chunk(size - HEAP_HEADER, false, true, h)]
    ensures Summed(heaps', chunks')
  {
    NewHeapApart(heaps, chunks, back, h, size, chunks');
    forall g | g in heaps' ensures heaps'[g].freesz == FreeIn(heaps', chunks', g) {
      if g != h {
        assert heaps[g].freesz == FreeIn(heaps, chunks, g);
        assert HeapOk(heaps, chunks, g);
        forall x | g + HEAP_HEADER <= x < HeapEnd(heaps, g) ensures AgreeAt(chunks, chunks', x) {}
        FreeSame(chunks, chunks', g + HEAP_HEADER, HeapEnd(heaps, g));
      } else {
        assert FreeFrom(chunks', h + size, h + size) == 0;
      }
    }
  }

  lemma DropHeapTags(heaps: Heaps, chunks: Chunks, back: map<Addr, Addr>, h: Addr, foot: map<Addr, nat>,
    chunks': Chunks)
    requires Flagged(chunks, {}) && Merged(chunks, {}) && Footed(chunks, foot, {})
    requires chunks' == chunks - {h + HEAP_HEADER}
    ensures Flagged(chunks', {}) && Merged(chunks', {}) && Footed(chunks', foot, {})
  {
    forall x, y | Follows(chunks', x, y) ensures Follows(chunks, x, y) {}
    forall d | d in chunks' ensures FootOk(chunks', foot, d) {
      assert FootOk(chunks, foot, d);
    }
  }

  lemma DropHeapSum(heaps: Heaps, chunks: Chunks, back: map<Addr, Addr>, h: Addr, heaps': Heaps, chunks': Chunks)
    requires Tiles(heaps, chunks, back) && h in heaps && Summed(heaps, chunks)
    requires heaps' == heaps - {h} && chunks' == chunks - {h + HEAP_HEADER}
    ensures Summed(heaps', chunks')
  {
    assert HeapOk(heaps, chunks, h);
    assert ChunkOk(heaps, chunks, back, h + HEAP_HEADER);
    forall g | g in heaps' ensures heaps'[g].freesz == FreeIn(heaps', chunks', g) {
      assert heaps[g].freesz == FreeIn(heaps, chunks, g);
      assert HeapBefore(heaps, g, h) && HeapBefore(heaps, h, g) && HeapOk(heaps, chunks, g);
      forall x | g + HEAP_HEADER <= x < HeapEnd(heaps, g) ensures AgreeAt(chunks, chunks', x) {}
      FreeSame(chunks, chunks', g + HEAP_HEADER, HeapEnd(heaps, g));
    }
  }
}
