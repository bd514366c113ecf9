/** Programs that use the allocator: what holds of their blocks after any run of calls. */
module MallocRun {
  import opened MallocSize
  import opened MallocArena
  import opened Malloc

  /** A call, with the blocks named by the program's own variables: malloc, free and realloc. */
  datatype Call = Get(v: nat, size: nat) | Drop(v: nat) | Change(v: nat, size: nat)

  /** A block as the program knows it: its address and the bytes that were asked for. */
  datatype Block = Block(ptr: Addr, size: nat)

  type Store = map<nat, Block>

  // ----- what a program knows from the answers -----

  /** A call that a program may make: a new variable for a new block, and a variable that has a
      block for one that is to be freed or changed. */
  predicate MayCall(store: Store, k: Call) {
    match k
    case Get(v, size) => v !in store && size < SIZE_LIMIT
    case Drop(v) => v in store
    case Change(v, size) => v in store && size < SIZE_LIMIT
  }

  /** The program's blocks after a call that was answered with `p`; a call it may not make is left
      out. */
  function After(store: Store, k: Call, p: Addr): Store {
    if !MayCall(store, k) then store
    else match k
      case Get(v, size) => if p == 0 then store else store[v := Block(p, size)]
      case Drop(v) => store - {v}
      case Change(v, size) =>
        if size == 0 then store - {v} else if p == 0 then store else store[v := Block(p, size)]
  }

  // ----- the program's blocks and the live ones -----

  /** The chunk has room for what was asked for, and for less than 39 bytes more than that with its header
      or a least chunk. */
  predicate RoomFor(size: nat, chunksz: nat) {
    size + CHUNK_OVERHEAD <= chunksz < Max(size + CHUNK_OVERHEAD, CHUNK_MIN_SIZE) + 39
  }

  /** A variable holds a live block; it has the room for what was asked for unless rounding that up
      wraps around. */
  ghost predicate BlockOk(store: Store, live: map<Addr, nat>, v: nat)
    requires v in store
  {
    var b := store[v];
    && b.ptr > CHUNK_OVERHEAD && b.ptr - CHUNK_OVERHEAD in live
    && (b.size <= SIZE_LIMIT - 16 ==> RoomFor(b.size, live[b.ptr - CHUNK_OVERHEAD]))
  }

  ghost predicate Differ(store: Store, v: nat, w: nat) {
    v in store && w in store && v != w ==> store[v].ptr != store[w].ptr
  }

  ghost predicate Points(store: Store, c: Addr) {
    exists v :: v in store && store[v].ptr == c + CHUNK_OVERHEAD
  }

  /** The live blocks are exactly those of the program, one for each variable. */
  ghost predicate Owns(store: Store, live: map<Addr, nat>) {
    && (forall v {:trigger BlockOk(store, live, v)} :: v in store ==> BlockOk(store, live, v))
    && (forall v, w {:trigger Differ(store, v, w)} :: Differ(store, v, w))
    && (forall c {:trigger Points(store, c)} :: c in live ==> Points(store, c))
  }

  /** The bytes that two variables were given never overlap. */
  lemma BlocksApart(a: Allocator, store: Store, v: nat, w: nat)
    requires a.Valid() && Owns(store, Live(a.chunks)) && v in store && w in store && v != w
    requires store[v].size <= SIZE_LIMIT - 16 && store[w].size <= SIZE_LIMIT - 16
    ensures store[v].ptr + store[v].size <= store[w].ptr || store[w].ptr + store[w].size <= store[v].ptr
  {
    var live := Live(a.chunks);
    assert BlockOk(store, live, v) && BlockOk(store, live, w) && Differ(store, v, w);
    LiveApart(a.heaps, a.chunks, a.back, store[v].ptr - CHUNK_OVERHEAD, store[w].ptr - CHUNK_OVERHEAD);
  }

  /** The live blocks are those the variables hold. */
  lemma LiveAre(store: Store, live: map<Addr, nat>, c: Addr)
    requires Owns(store, live)
    ensures c in live <==> Points(store, c)
  {
    if Points(store, c) {
      var v :| v in store && store[v].ptr == c + CHUNK_OVERHEAD;
      assert BlockOk(store, live, v);
    }
  }

  /** Every heap has a block of the program, so that none is left when it has freed them all. */
  lemma HeapHasBlock(store: Store, heaps: Heaps, live: map<Addr, nat>, h: Addr)
    requires Owns(store, live) && Needed(heaps, live) && h in heaps
    ensures exists v :: v in store && h < store[v].ptr - CHUNK_OVERHEAD < HeapEnd(heaps, h)
  {
    assert HoldsLive(heaps, live, h);
    var c :| c in live && h < c < HeapEnd(heaps, h);
    assert Points(store, c);
  }

  /** A block with a new address or a new size in variable `v`, the old one gone. */
  lemma Given(store: Store, live: map<Addr, nat>, v: nat, ptr: Addr, size: nat, live': map<Addr, nat>)
    requires Owns(store, live) && ptr > CHUNK_OVERHEAD && ptr - CHUNK_OVERHEAD in live'
    requires size <= SIZE_LIMIT - 16 ==> RoomFor(size, live'[ptr - CHUNK_OVERHEAD])
    requires (v in store && ptr == store[v].ptr) || ptr - CHUNK_OVERHEAD !in live
    requires Elsewhere(store, live, v, ptr, live')
    ensures Owns(store[v := Block(ptr, size)], live')
  {
    var store' := store[v := Block(ptr, size)];
    forall w | w in store' ensures BlockOk(store', live', w) {
      if w != v { assert BlockOk(store, live, w) && Differ(store, v, w); }
    }
    forall x, y ensures Differ(store', x, y) {
      assert Differ(store, x, y);
      if x in store { assert BlockOk(store, live, x); }
      if y in store { assert BlockOk(store, live, y); }
    }
    forall c | c in live' ensures Points(store', c) {
      if c + CHUNK_OVERHEAD == ptr {
        assert store'[v].ptr == c + CHUNK_OVERHEAD;
      } else {
        assert Points(store, c);
        var w :| w in store && store[w].ptr == c + CHUNK_OVERHEAD;
        assert w in store' && store'[w].ptr == c + CHUNK_OVERHEAD;
      }
    }
  }

  /** All live blocks but the old and the new one of `v` are the same. */
  ghost predicate Elsewhere(store: Store, live: map<Addr, nat>, v: nat, ptr: Addr, live': map<Addr, nat>) {
    forall c :: c + CHUNK_OVERHEAD != ptr ==>
      if v in store && store[v].ptr == c + CHUNK_OVERHEAD then c !in live'
      else (c in live <==> c in live') && (c in live && c in live' ==> live'[c] == live[c])
  }

  lemma Dropped(store: Store, live: map<Addr, nat>, v: nat)
    requires Owns(store, live) && v in store
    ensures store[v].ptr > CHUNK_OVERHEAD && Owns(store - {v}, live - {store[v].ptr - CHUNK_OVERHEAD})
  {
    assert BlockOk(store, live, v);
    var store', live' := store - {v}, live - {store[v].ptr - CHUNK_OVERHEAD};
    forall w | w in store' ensures BlockOk(store', live', w) {
      assert BlockOk(store, live, w) && Differ(store, v, w);
    }
    forall x, y ensures Differ(store', x, y) {
      assert Differ(store, x, y);
    }
    forall c | c in live' ensures Points(store', c) {
      assert Points(store, c);
      var w :| w in store && store[w].ptr == c + CHUNK_OVERHEAD;
      assert w in store' && store'[w].ptr == c + CHUNK_OVERHEAD;
    }
  }

  // ----- what the calls answer -----

  /** What the OS answers when it is asked for memory during a call, given the heaps there are. */
  type Os = (nat, Heaps, nat) -> nat

  function During(os: Os, i: nat, heaps: Heaps): nat -> nat {
    (n: nat) => os(i, heaps, n)
  }

  /** The blocks of the program and the memory of the allocator between two calls. */
  datatype Moment = Moment(store: Store, heaps: Heaps, chunks: Chunks, back: map<Addr, Addr>, foot: map<Addr, nat>)

  /** Chunks tile the heaps, flags, footers and sums are right, no two free chunks are neighbours, the
      live blocks are those of the program, and every heap holds one. */
  ghost predicate Sound(m: Moment) {
    && Tagged(m.heaps, m.chunks, m.back, m.foot, {}, {}, {}, {}) && Summed(m.heaps, m.chunks)
    && Owns(m.store, Live(m.chunks)) && Needed(m.heaps, Live(m.chunks))
  }

  /** A size that malloc does not reject. */
  predicate Served(size: nat) {
    0 < size && size + CHUNK_OVERHEAD < SIZE_LIMIT
  }

  /** malloc answers 0 exactly if it rejects the size or the chunk is not to be had: nothing that is
      free then fits, and the OS then refuses the region of the heap for it. No more than need be is
      taken. */
  ghost predicate GetAnswered(m: Moment, size: nat, mm: nat -> nat, p: Addr, chunks': Chunks) {
    && (p == 0 <==> !Served(size) || Lacking(m.chunks, ChunkFor(size), mm))
    && (p != 0 ==>
          p > CHUNK_OVERHEAD && p - CHUNK_OVERHEAD in chunks' && Snug(chunks', p - CHUNK_OVERHEAD, ChunkFor(size)))
  }

  /** realloc answers with the block itself exactly if it can stay, and with 0 exactly if it is
      freed, or the size is rejected, or it can neither stay nor move. */
  ghost predicate ChangeAnswered(m: Moment, ptr: Addr, size: nat, mm: nat -> nat, p: Addr, chunks': Chunks)
    requires ptr > CHUNK_OVERHEAD && ptr - CHUNK_OVERHEAD in m.chunks
  {
    var stays := Served(size) && Stays(m.chunks, ptr - CHUNK_OVERHEAD, ChunkFor(size));
    && (p == ptr <==> stays)
    && (p == 0 <==> !Served(size) || (!stays && Stuck(m.chunks, ChunkFor(size), mm)))
    && (p == ptr ==>
          ptr - CHUNK_OVERHEAD in chunks' && Trimmed(m.chunks, chunks', ptr - CHUNK_OVERHEAD, ChunkFor(size)))
  }

  ghost predicate Answered(os: Os, i: nat, m: Moment, k: Call, p: Addr, chunks': Chunks)
    requires Sound(m)
  {
    if !MayCall(m.store, k) then p == 0
    else match k
      case Get(_, size) => GetAnswered(m, size, During(os, i, m.heaps), p, chunks')
      case Drop(_) => p == 0
      case Change(v, size) =>
        assert BlockOk(m.store, Live(m.chunks), v);
        ChangeAnswered(m, m.store[v].ptr, size, During(os, i, m.heaps), p, chunks')
  }

  /** The chunk size for which a call may need a heap. */
  function Sought(k: Call): nat {
    match k
    case Get(_, size) => ChunkFor(size)
    case Drop(_) => 0
    case Change(_, size) => ChunkFor(size) + CHUNK_OVERHEAD
  }

  /** One call of a run: the answer, the blocks of the program as the answer makes them, and the heaps,
      to which only the region asked for is added, and only if nothing free fits. */
  ghost predicate Called(os: Os, i: nat, m: Moment, k: Call, p: Addr, m': Moment)
    requires Sound(m)
  {
    && Answered(os, i, m, k, p, m'.chunks) && m'.store == After(m.store, k, p)
    && (if MayCall(m.store, k) && !k.Drop? then Mapped(m.heaps, m.chunks, m'.heaps, Sought(k), During(os, i, m.heaps))
        else m'.heaps.Keys <= m.heaps.Keys && SameSizes(m.heaps, m'.heaps))
  }

  ghost predicate CalledAt(os: Os, calls: seq<Call>, answers: seq<Addr>, moments: seq<Moment>, i: nat)
    requires i < |calls| && i < |answers| && i + 1 < |moments|
  {
    Sound(moments[i]) && Called(os, i, moments[i], calls[i], answers[i], moments[i + 1])
  }

  /** A run from the start, moment by moment. */
  ghost predicate IsRun(os: Os, calls: seq<Call>, answers: seq<Addr>, moments: seq<Moment>) {
    && |answers| == |calls| && |moments| == |calls| + 1 && moments[0] == Moment(map[], map[], map[], map[], map[])
    && forall i {:trigger CalledAt(os, calls, answers, moments, i)} ::
      0 <= i < |calls| ==> CalledAt(os, calls, answers, moments, i)
  }

  lemma RunOn(os: Os, calls: seq<Call>, answers: seq<Addr>, moments: seq<Moment>, i: nat, p: Addr, m: Moment)
    requires i < |calls| && IsRun(os, calls[..i], answers, moments) && Sound(moments[i])
    requires Called(os, i, moments[i], calls[i], p, m)
    ensures IsRun(os, calls[..i + 1], answers + [p], moments + [m])
  {
    var calls', answers', moments' := calls[..i + 1], answers + [p], moments + [m];
    forall j | 0 <= j < i + 1 ensures CalledAt(os, calls', answers', moments', j) {
      if j < i { assert CalledAt(os, calls[..i], answers, moments, j); }
    }
  }

  // ----- runs -----

  /** The allocator and the program at a moment. */
  ghost function Now(a: Allocator, store: Store): Moment
    reads a
  {
    Moment(store, a.heaps, a.chunks, a.back, a.foot)
  }

  /** malloc into a new variable. */
  method StepGet(a: Allocator, ghost store: Store, v: nat, size: nat, mm: nat -> nat) returns (p: Addr)
    requires a.Valid() && Owns(store, Live(a.chunks)) && v !in store && size < SIZE_LIMIT && Maps(a.heaps, mm)
    modifies a
    ensures a.Valid() && Owns(After(store, Get(v, size), p), Live(a.chunks))
    ensures GetAnswered(old(Now(a, store)), size, mm, p, a.chunks)
    ensures Mapped(old(a.heaps), old(a.chunks), a.heaps, ChunkFor(size), mm)
    ensures old(Needed(a.heaps, Live(a.chunks))) ==> Needed(a.heaps, Live(a.chunks))
  {
    ghost var live := Live(a.chunks);
    if Served(size) { ChunkForFits(size); }
    p := a.Alloc(size, mm);
    if p != 0 { Given(store, live, v, p, size, Live(a.chunks)); }
  }

  /** free of the block of a variable. */
  method StepDrop(a: Allocator, store: Store, v: nat)
    requires a.Valid() && Owns(store, Live(a.chunks)) && v in store
    modifies a
    ensures a.Valid() && Owns(store - {v}, Live(a.chunks))
    ensures a.heaps.Keys <= old(a.heaps.Keys) && SameSizes(old(a.heaps), a.heaps)
    ensures old(Needed(a.heaps, Live(a.chunks))) ==> Needed(a.heaps, Live(a.chunks))
  {
    Dropped(store, Live(a.chunks), v);
    assert BlockOk(store, Live(a.chunks), v);
    var _ := a.Free(store[v].ptr);
  }

  /** realloc of the block of a variable. */
  method StepChange(a: Allocator, store: Store, v: nat, size: nat, mm: nat -> nat) returns (p: Addr)
    requires a.Valid() && Owns(store, Live(a.chunks)) && v in store && size < SIZE_LIMIT && Maps(a.heaps, mm)
    requires store[v].ptr > CHUNK_OVERHEAD && store[v].ptr - CHUNK_OVERHEAD in a.chunks
    modifies a
    ensures a.Valid() && Owns(After(store, Change(v, size), p), Live(a.chunks))
    ensures ChangeAnswered(old(Now(a, store)), store[v].ptr, size, mm, p, a.chunks)
    ensures Mapped(old(a.heaps), old(a.chunks), a.heaps, ChunkFor(size) + CHUNK_OVERHEAD, mm)
    ensures old(Needed(a.heaps, Live(a.chunks))) ==> Needed(a.heaps, Live(a.chunks))
  {
    ghost var live := Live(a.chunks);
    assert BlockOk(store, live, v);
    if Served(size) { ChunkForFits(size); }
    if size == 0 { Dropped(store, live, v); }
    p := a.Realloc(store[v].ptr, size, mm);
    if p != 0 { Given(store, live, v, p, size, Live(a.chunks)); }
  }

  /** One call. */
  method Step(a: Allocator, store: Store, k: Call, os: Os, i: nat) returns (p: Addr)
    requires a.Valid() && Sound(Now(a, store))
    requires forall heaps, n :: os(i, heaps, n) == 0 || Unused(heaps, os(i, heaps, n), n)
    modifies a
    ensures a.Valid() && Sound(Now(a, After(store, k, p)))
    ensures Called(os, i, old(Now(a, store)), k, p, Now(a, After(store, k, p)))
  {
    p := 0;
    if !MayCall(store, k) { return; }
    var heaps := a.heaps;
    var mm := During(os, i, heaps);
    match k
    case Get(v, size) =>
      p := StepGet(a, store, v, size, mm);
    case Drop(v) =>
      StepDrop(a, store, v);
    case Change(v, size) =>
      assert BlockOk(store, Live(a.chunks), v);
      p := StepChange(a, store, v, size, mm);
  }

  /** Any run of calls, from the start, whatever unused regions the OS maps when: at each moment the
      blocks that the answers gave the program and that it has not freed are exactly the live ones,
      apart and big enough, and every heap holds one of them; a request fails exactly if nothing free
      fits at that moment and the OS refuses the region that is asked for. */
  method Run(calls: seq<Call>, os: Os)
    returns (a: Allocator, answers: seq<Addr>, store: Store, ghost moments: seq<Moment>)
    requires forall i, heaps, n :: os(i, heaps, n) == 0 || Unused(heaps, os(i, heaps, n), n)
    ensures IsRun(os, calls, answers, moments)
    ensures a.Valid() && Sound(Now(a, store)) && moments[|calls|] == Now(a, store)
  {
    a := new Allocator();
    store, answers := map[], [];
    moments := [Now(a, store)];
    for i := 0 to |calls|
      invariant IsRun(os, calls[..i], answers, moments) && moments[i] == Now(a, store)
      invariant a.Valid() && Sound(Now(a, store)) && fresh(a)
    {
      var p := Step(a, store, calls[i], os, i);
      store := After(store, calls[i], p);
      RunOn(os, calls, answers, moments, i, p, Now(a, store));
      answers, moments := answers + [p], moments + [Now(a, store)];
    }
    assert calls[..|calls|] == calls;
  }
}
