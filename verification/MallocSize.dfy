/** Sizes in libphoenix/stdlib/malloc_dl.c, for 32-bit pointers: the chunk size of a request,
    the indices of the bins, and the search of a large bin. */
module MallocSize {
  import opened Powers
  import opened Arith

  const SIZE_LIMIT := 0x1_0000_0000

  const CHUNK_OVERHEAD := 8
  const CHUNK_MIN_SIZE := 24
  const SMALLBIN_MAX_SIZE := 256 - CHUNK_OVERHEAD
  const HEAP_HEADER := 8
  /** The most bytes for which the size of a heap does not wrap around. */
  const HEAP_MAX := 0xFFFF_EFF8

  function Max(a: nat, b: nat): nat { if a > b then a else b }

  /** CEIL on a size_t, with the wrap-around of its addition. */
  function CeilTo8(value: nat): nat { (value + 7) % SIZE_LIMIT / 8 * 8 }

  const PAGE_SIZE := 4096

  function CeilToPage(value: nat): nat { (value + PAGE_SIZE - 1) % SIZE_LIMIT / PAGE_SIZE * PAGE_SIZE }

  /** What `malloc` makes of a request, after its check that `size + CHUNK_OVERHEAD` fits. */
  function ChunkFor(size: nat): nat {
    CeilTo8(Max(size + CHUNK_OVERHEAD, CHUNK_MIN_SIZE))
  }

  /** The chunk is big enough for the request and its header exactly if rounding up did not
      wrap around. */
  lemma ChunkForFits(size: nat)
    requires 0 < size && size + CHUNK_OVERHEAD < SIZE_LIMIT
    ensures ChunkFor(size) % 8 == 0
    ensures ChunkFor(size) >= size + CHUNK_OVERHEAD <==> size <= SIZE_LIMIT - 16
    ensures size <= SIZE_LIMIT - 16 ==> CHUNK_MIN_SIZE <= ChunkFor(size) < SIZE_LIMIT
    ensures size <= SIZE_LIMIT - 16 ==> ChunkFor(size) < Max(size + CHUNK_OVERHEAD, CHUNK_MIN_SIZE) + 8
    ensures size > SIZE_LIMIT - 16 ==> ChunkFor(size) == 0
  {
  }

  /** A chunk size as a request gets a header of its own. */
  lemma ChunkForAgain(n: nat)
    requires CHUNK_MIN_SIZE <= n && n % 8 == 0 && n + CHUNK_OVERHEAD < SIZE_LIMIT
    ensures ChunkFor(n) == n + CHUNK_OVERHEAD
  {
  }

  /** A request that is let through and then rounded to nothing. */
  lemma ChunkForWraps()
    ensures ChunkFor(0xFFFF_FFF7) == 0
  {
  }

  // ----- bin indices -----

  function SmallIndex(size: nat): nat { (size + 7) / 8 }

  /** The position of the highest bit, as 31 - __builtin_clz(x). */
  function Log2(x: nat): (k: nat)
    requires x > 0
    ensures Pow(2, k) <= x < Pow(2, k + 1)
  {
    if x == 1 then 0
    else
      var k := Log2(x / 2);
      assert Pow(2, k + 1) == 2 * Pow(2, k) && Pow(2, k + 2) == 2 * Pow(2, k + 1);
      k + 1
  }

  function LargeIndex(size: nat): nat {
    var x := size / 256;
    if x == 0 then 0
    else if x > 0xffff then 31
    else
      var k := Log2(x);
      PowPositive(2, k + 7);
      2 * k + size / Pow(2, k + 7) % 2
  }

  lemma Log2Between(x: nat, k: nat)
    requires Pow(2, k) <= x < Pow(2, k + 1)
    ensures x > 0 && Log2(x) == k
  {
    PowPositive(2, k);
    var j := Log2(x);
    if j < k { PowGrows(2, j + 1, k); }
    if k < j { PowGrows(2, k + 1, j); }
  }

  /** The sizes of a large bin below the last. */
  function BinFirst(i: nat): nat {
    if i % 2 == 0 then Pow(2, i / 2 + 8) else 3 * Pow(2, i / 2 + 7)
  }

  lemma BinFirstNext(i: nat)
    ensures 0 < BinFirst(i) < BinFirst(i + 1)
  {
    PowPositive(2, i / 2 + 7);
    assert Pow(2, i / 2 + 8) == 2 * Pow(2, i / 2 + 7);
    assert Pow(2, i / 2 + 9) == 2 * Pow(2, i / 2 + 8);
    assert i % 2 == 1 ==> (i + 1) / 2 == i / 2 + 1;
  }

  lemma {:induction false} BinFirstGrows(i: nat, j: nat)
    requires i <= j
    ensures BinFirst(i) <= BinFirst(j)
    decreases j - i
  {
    if i < j {
      BinFirstNext(i);
      BinFirstGrows(i + 1, j);
    }
  }

  /** The high bits of a size between two powers. */
  lemma HighBits(size: nat, k: nat)
    requires Pow(2, k + 8) <= size < Pow(2, k + 9)
    ensures Pow(2, k) <= size / 256 < Pow(2, k + 1)
  {
    PowAdd(2, k, 8);
    PowAdd(2, k + 1, 8);
    assert Pow(2, 8) == 256;
  }

  /** The edges of two bins in halves of the power below them. */
  lemma BinEdges(k: nat, q: nat)
    requires q == Pow(2, k + 7)
    ensures BinFirst(2 * k) == 2 * q && BinFirst(2 * k + 1) == 3 * q && BinFirst(2 * k + 2) == 4 * q
  {
    assert Pow(2, k + 8) == 2 * q && Pow(2, k + 9) == 2 * Pow(2, k + 8);
    assert (2 * k) / 2 == k && (2 * k) % 2 == 0;
    assert (2 * k + 1) / 2 == k && (2 * k + 1) % 2 == 1;
    assert (2 * k + 2) / 2 == k + 1 && (2 * k + 2) % 2 == 0;
  }

  lemma BinFits(size: nat, i: nat)
    requires size < BinFirst(i + 1) && i < 32
    ensures size < 0x100_0000
  {
    BinFirstGrows(i + 1, 32);
    PowAdd(2, 8, 8);
    PowAdd(2, 16, 8);
    assert Pow(2, 8) == 256;
  }

  lemma BinOfSize(size: nat, i: nat)
    requires BinFirst(i) <= size < BinFirst(i + 1) && i < 32
    ensures LargeIndex(size) == i
  {
    BinFits(size, i);
    var k, q := i / 2, Pow(2, i / 2 + 7);
    PowPositive(2, k + 7);
    BinEdges(k, q);
    if i == 2 * k {
      DivIs(size, q, 2);
    } else {
      assert i == 2 * k + 1;
      DivIs(size, q, 3);
    }
    IndexOf(size, k, q);
  }

  lemma IndexOf(size: nat, k: nat, q: nat)
    requires q == Pow(2, k + 7) > 0 && 2 * q <= size < 4 * q && size < 0x100_0000
    ensures LargeIndex(size) == 2 * k + size / q % 2
  {
    assert Pow(2, k + 8) == 2 * q && Pow(2, k + 9) == 4 * q;
    HighBits(size, k);
    Log2Between(size / 256, k);
  }

  /** Every size from 256 on lies between the first sizes of two bins next to each other. */
  lemma BinExists(size: nat) returns (i: nat)
    requires 256 <= size < 0x100_0000
    ensures i < 32 && BinFirst(i) <= size < BinFirst(i + 1)
  {
    assert BinFirst(0) == 256 by { assert Pow(2, 8) == 256; }
    assert BinFirst(32) == 0x100_0000 by { PowAdd(2, 8, 8); PowAdd(2, 16, 8); assert Pow(2, 8) == 256; }
    i := 0;
    while BinFirst(i + 1) <= size
      invariant i < 32 && BinFirst(i) <= size
      decreases 32 - i
    {
      i := i + 1;
    }
  }

  /** A bigger size never has a smaller index. */
  lemma LargeIndexGrows(a: nat, b: nat)
    requires a <= b
    ensures LargeIndex(a) <= LargeIndex(b) < 32
  {
    if 256 <= b < 0x100_0000 {
      var j := LargeBin(b);
      if 256 <= a {
        var i := LargeBin(a);
        if j < i { BinFirstGrows(j + 1, i); }
      }
    } else if 256 <= a < 0x100_0000 {
      var i := LargeBin(a);
    }
  }

  lemma LargeBin(size: nat) returns (i: nat)
    requires 256 <= size < 0x100_0000
    ensures i < 32 && LargeIndex(size) == i && BinFirst(i) <= size < BinFirst(i + 1)
  {
    i := BinExists(size);
    BinOfSize(size, i);
  }

  /** The table that reverses LargeIndex, and the last entry that reverses nothing. */
  function Lookup(i: nat): nat
    requires i < 32
  {
    [   0x17f,    0x1ff,    0x2ff,    0x3ff,    0x5ff,    0x7ff,    0xbff,      0xfff,
       0x17ff,   0x1fff,   0x2fff,   0x3fff,   0x5fff,   0x7fff,   0xbfff,     0xffff,
      0x17fff,  0x1ffff,  0x2ffff,  0x3ffff,  0x5ffff,  0x7ffff,  0xbffff,    0xfffff,
     0x17ffff, 0x1fffff, 0x2fffff, 0x3fffff, 0x5fffff, 0x7fffff, 0xbfffff,        0x0][i]
  }

  lemma LookupFits(i: nat)
    requires i < 32
    ensures Lookup(i) < HEAP_MAX < SIZE_LIMIT
  {
  }

  // ----- the region of a new heap -----

  /** The bytes a new heap is made for when no free chunk has `size` bytes: a small size itself, and
      otherwise the largest size of its bin. */
  function Want(size: nat): nat {
    LargeIndexGrows(size, size);
    if size <= SMALLBIN_MAX_SIZE then size else Max(Lookup(LargeIndex(size)), size)
  }

  function Region(size: nat): nat { CeilToPage(HEAP_HEADER + Want(size)) }

  /** No heap can be had for `want` bytes: its size wraps around, or the OS refuses a region of it. */
  predicate NoHeap(mm: nat -> nat, want: nat) {
    var n := CeilToPage(HEAP_HEADER + want);
    n < want || mm(n) == 0
  }

  /** The size of a heap wraps around, as the code finds out, exactly above one limit; below it the
      heap has room for its header and the chunk. */
  lemma HeapWraps(want: nat)
    ensures CeilToPage(HEAP_HEADER + want) % PAGE_SIZE == 0
    ensures CeilToPage(HEAP_HEADER + want) < want <==> want > HEAP_MAX
    ensures want <= HEAP_MAX ==> want + HEAP_HEADER <= CeilToPage(HEAP_HEADER + want) < want + HEAP_HEADER + PAGE_SIZE
  {
  }

  lemma BinDoubles(i: nat)
    ensures BinFirst(i + 2) == 2 * BinFirst(i)
  {
    assert (i + 2) / 2 == i / 2 + 1 && (i + 2) % 2 == i % 2;
    assert Pow(2, i / 2 + 9) == 2 * Pow(2, i / 2 + 8);
    assert Pow(2, i / 2 + 8) == 2 * Pow(2, i / 2 + 7);
  }

  lemma {:induction false} LookupIsLast(i: nat)
    requires i < 31
    ensures Lookup(i) == BinFirst(i + 1) - 1
  {
    if i >= 2 {
      LookupIsLast(i - 2);
      LookupDoubles(i - 2);
      BinDoubles(i - 1);
    } else {
      assert Pow(2, 7) == 128 && Pow(2, 8) == 256 && Pow(2, 9) == 512;
      if i == 0 { assert BinFirst(1) == 384; } else { assert BinFirst(2) == 512; }
    }
  }

  lemma LookupDoubles(i: nat)
    requires i < 29
    ensures Lookup(i + 2) == 2 * Lookup(i) + 1
  {
  }

  /** An entry of the table is the biggest size with its index. */
  lemma LookupReverses(size: nat)
    requires LargeIndex(size) < 31 && size < SIZE_LIMIT
    ensures size <= Lookup(LargeIndex(size)) && LargeIndex(Lookup(LargeIndex(size))) == LargeIndex(size)
  {
    var i := LargeIndex(size);
    LookupIsLast(i);
    BinFirstNext(i);
    BinOfSize(Lookup(i), i);
    if 256 <= size < 0x100_0000 {
      i := LargeBin(size);
    } else if size < 256 {
      assert BinFirst(1) == 384 by { assert Pow(2, 7) == 128; }
    }
  }

  /** A heap is made for a small size itself, for the largest size of the bin of a large one, and for
      a size of the last bin itself. */
  lemma WantIsLast(size: nat, s: nat)
    requires size < SIZE_LIMIT && s < SIZE_LIMIT
    ensures size <= SMALLBIN_MAX_SIZE || LargeIndex(size) == 31 ==> Want(size) == size
    ensures SMALLBIN_MAX_SIZE < size && LargeIndex(size) < 31 ==>
      LargeIndex(Want(size)) == LargeIndex(size) && (LargeIndex(s) == LargeIndex(size) ==> s <= Want(size))
  {
    if SMALLBIN_MAX_SIZE < size && LargeIndex(size) < 31 {
      LookupReverses(size);
      if LargeIndex(s) == LargeIndex(size) { LookupReverses(s); }
    }
  }

  // ----- the search of a large bin -----

  /** The tree of a bin: each node stands for the chunks of one size. */
  datatype SizeTree = Leaf | Node(left: SizeTree, size: nat, right: SizeTree)

  function Sizes(t: SizeTree): set<nat> {
    match t
    case Leaf => {}
    case Node(l, s, r) => Sizes(l) + {s} + Sizes(r)
  }

  predicate Ordered(t: SizeTree) {
    match t
    case Leaf => true
    case Node(l, s, r) =>
      Ordered(l) && Ordered(r) && (forall x :: x in Sizes(l) ==> x < s) && (forall x :: x in Sizes(r) ==> s < x)
  }

  datatype Turn = Stop | Left | Right

  /** malloc_find: where to go from a node on the way to a chunk of at least `want`. */
  function FindTurn(t: SizeTree, want: nat): Turn
    requires t.Node?
  {
    if t.size == want then Stop
    else if t.size > want then
      if t.left.Node? && t.left.size >= want then Left else Stop
    else Right
  }

  /** lib_rbFindEx with malloc_find. */
  method FindFit(root: SizeTree, want: nat) returns (found: bool, size: nat)
    requires Ordered(root)
    ensures found <==> exists x :: x in Sizes(root) && x >= want
    ensures found ==> size in Sizes(root) && size >= want
  {
    var it := root;
    found, size := false, 0;
    while it.Node?
      invariant Ordered(it) && Sizes(it) <= Sizes(root)
      invariant forall x :: x in Sizes(root) && x >= want ==> (exists y :: y in Sizes(it) && y >= want)
      decreases it
    {
      var turn := FindTurn(it, want);
      if turn == Stop {
        found, size := true, it.size;
        return;
      }
      if turn == Left {
        assert it.left.size in Sizes(it.left);
        it := it.left;
      } else {
        it := it.right;
      }
    }
  }
}
