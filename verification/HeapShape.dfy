/** The shape of the heap as a value: which blocks there are, how they tile the space between
    the prologue and the break, and which of them the explicit free list holds.

    Addresses are byte offsets from mem_heap_lo(), which is 8-aligned; the null pointer is 0,
    an offset no block ever has. */
module HeapShape {

  const WSIZE := 4
  const DSIZE := 8
  const MIN_BLOCKSIZE := 24
  const MAX_HEAP := 20 * 1048576
  const SIZE_T_MOD := 0x1_0000_0000   // size_t is 32 bits wide: both allocators are built with -m32

  const NULL := 0
  const PROLOGUE := 8   // payload address of the permanently allocated prologue block
  const FIRST := 48     // payload address of the first real block

  datatype Block = Block(size: int, alloc: bool)

  /** A block is named by the address of its payload. */
  type Blocks = map<int, Block>

  predicate Aligned(a: int) { a % 8 == 0 }

  predicate WordAligned(a: int) { a % WSIZE == 0 }

  /** The words next to a block's address. */
  lemma AlignedWords(a: int)
    requires Aligned(a)
    ensures WordAligned(a) && WordAligned(a + DSIZE) && WordAligned(a - WSIZE) && WordAligned(a - DSIZE)
  {
    hide Aligned, WordAligned;
    var k := Eighth(a);
    Fours(2 * k);
    Fours(2 * k + 2);
    Fours(2 * k - 1);
    Fours(2 * k - 2);
  }

  lemma Eighth(a: int) returns (k: int)
    requires Aligned(a)
    ensures a == 8 * k
  {
    k := a / 8;
  }

  lemma Fours(k: int)
    ensures WordAligned(4 * k)
  {
  }

  lemma WordSum(a: int, b: int)
    requires WordAligned(a) && WordAligned(b)
    ensures WordAligned(a + b) && WordAligned(a + WSIZE)
  {
  }

  lemma WordRoom(a: int, b: int)
    requires WordAligned(a) && WordAligned(b) && a < b
    ensures a + WSIZE <= b
  {
  }

  lemma AlignedSum(a: int, b: int)
    requires Aligned(a) && Aligned(b)
    ensures Aligned(a + b) && Aligned(a - b)
  {
  }

  lemma ZeroAligned()
    ensures Aligned(0)
  {
  }

  // ---------- The physical tiling ----------

  ghost predicate Sized(B: Blocks, brk: int) {
    && FIRST <= brk <= MAX_HEAP
    && Aligned(brk)
    && (forall b {:trigger B[b]} :: b in B ==>
          && FIRST <= b && Aligned(b)
          && MIN_BLOCKSIZE <= B[b].size && Aligned(B[b].size)
          && b + B[b].size <= brk)
  }

  ghost predicate Abuts(B: Blocks, brk: int, b: int) {
    b in B && (b + B[b].size == brk || b + B[b].size in B)
  }

  /** The first block starts at FIRST and every block ends where another block or the break begins. */
  ghost predicate Closed(B: Blocks, brk: int) {
    && (FIRST in B || FIRST == brk)
    && (forall b {:trigger Abuts(B, brk, b)} :: b in B ==> Abuts(B, brk, b))
  }

  ghost predicate Apart(B: Blocks) {
    forall b, c {:trigger B[b], B[c]} :: b in B && c in B && b < c ==> b + B[b].size <= c
  }

  lemma ApartPair(B: Blocks, b: int, c: int)
    requires Apart(B) && b in B && c in B && b < c
    ensures b + B[b].size <= c
  {
  }

  lemma InsideHeap(B: Blocks, brk: int, b: int)
    requires Sized(B, brk) && b in B
    ensures FIRST <= b && b + MIN_BLOCKSIZE <= b + B[b].size <= brk
  {
  }

  /** Aligned disjoint blocks that leave no gap between FIRST and the break. */
  ghost predicate Tiling(B: Blocks, brk: int) {
    Sized(B, brk) && Closed(B, brk) && Apart(B)
  }

  /** Following sizes from the first block reaches every block: each block but the first, and the
      break, has a left neighbour. */
  lemma {:induction false} LeftNeighbour(B: Blocks, brk: int, c: int) returns (l: int)
    requires Tiling(B, brk) && FIRST < c && (c in B || c == brk)
    ensures l in B && l + B[l].size == c
  {
    l := FIRST;
    while l + B[l].size != c
      invariant l in B && l < c
      decreases c - l
    {
      assert Abuts(B, brk, l);
      assert c in B ==> B[c] == B[c];
      l := l + B[l].size;
    }
  }

  // ---------- Changing the tiling ----------

  function Retagged(B: Blocks, b: int, alloc: bool): Blocks
    requires b in B
  {
    B[b := Block(B[b].size, alloc)]
  }

  /** The first n bytes of b become an allocated block, the rest a free one. */
  function Divided(B: Blocks, b: int, n: int): (C: Blocks)
    requires b in B
    ensures b + n in C
  {
    B[b := Block(n, true)][b + n := Block(B[b].size - n, false)]
  }

  /** Block b swallows its right neighbour. */
  function Joined(B: Blocks, b: int): Blocks
    requires b in B && b + B[b].size in B
  {
    var r := b + B[b].size;
    (B - {r})[b := Block(B[b].size + B[r].size, false)]
  }

  lemma RetaggedTiles(B: Blocks, brk: int, b: int, alloc: bool)
    requires Tiling(B, brk) && b in B
    ensures Tiling(Retagged(B, b, alloc), brk)
  {
    hide Sized, Apart;
    var C := Retagged(B, b, alloc);
    forall x | x in C ensures Abuts(C, brk, x) { assert Abuts(B, brk, x); }
    RetaggedSized(B, brk, b, alloc);
    RetaggedApart(B, b, alloc);
  }

  lemma RetaggedSized(B: Blocks, brk: int, b: int, alloc: bool)
    requires Sized(B, brk) && b in B
    ensures Sized(Retagged(B, b, alloc), brk)
  {
  }

  lemma RetaggedApart(B: Blocks, b: int, alloc: bool)
    requires Apart(B) && b in B
    ensures Apart(Retagged(B, b, alloc))
  {
  }

  ghost predicate Divisible(B: Blocks, b: int, n: int) {
    b in B && MIN_BLOCKSIZE <= n && Aligned(n) && n + MIN_BLOCKSIZE <= B[b].size
  }

  lemma DividedTiles(B: Blocks, brk: int, b: int, n: int)
    requires Tiling(B, brk) && Divisible(B, b, n)
    ensures b + n !in B
    ensures Tiling(Divided(B, b, n), brk)
  {
    hide Sized, Closed;
    if b + n in B { ApartPair(B, b, b + n); }
    DividedSized(B, brk, b, n);
    DividedClosed(B, brk, b, n);
    hide Apart;
    DividedApart(B, b, n);
  }

  lemma DividedSized(B: Blocks, brk: int, b: int, n: int)
    requires Sized(B, brk) && Divisible(B, b, n) && b + n !in B
    ensures Sized(Divided(B, b, n), brk)
  {
    hide Aligned;
    assert Aligned(B[b].size);
    AlignedSum(b, n);
    AlignedSum(B[b].size, n);
  }

  lemma DividedClosed(B: Blocks, brk: int, b: int, n: int)
    requires Closed(B, brk) && Divisible(B, b, n) && b + n !in B
    ensures Closed(Divided(B, b, n), brk)
  {
    var C := Divided(B, b, n);
    forall x | x in C ensures Abuts(C, brk, x) {
      assert Abuts(B, brk, if x == b + n then b else x);
    }
  }

  lemma DividedApart(B: Blocks, b: int, n: int)
    requires Apart(B) && Divisible(B, b, n) && b + n !in B
    ensures Apart(Divided(B, b, n))
  {
  }

  lemma JoinedTiles(B: Blocks, brk: int, b: int)
    requires Tiling(B, brk) && b in B && b + B[b].size in B
    ensures Tiling(Joined(B, b), brk)
  {
    hide Closed;
    assert b + B[b].size != b && B[b + B[b].size].size > 0;
    hide Sized, Apart;
    JoinedSized(B, brk, b);
    JoinedClosed(B, brk, b);
    JoinedApart(B, brk, b);
  }

  lemma JoinedSized(B: Blocks, brk: int, b: int)
    requires Sized(B, brk) && b in B && b + B[b].size in B
    ensures Sized(Joined(B, b), brk)
  {
    hide Aligned;
    var r := b + B[b].size;
    AlignedSum(B[b].size, B[r].size);
    assert forall x {:trigger Joined(B, b)[x]} :: x in Joined(B, b) && x != b ==> x in B && Joined(B, b)[x] == B[x];
  }

  lemma JoinedClosed(B: Blocks, brk: int, b: int)
    requires Sized(B, brk) && Closed(B, brk) && Apart(B) && b in B && b + B[b].size in B
    ensures Closed(Joined(B, b), brk)
  {
    var r, C := b + B[b].size, Joined(B, b);
    assert r != b && r > FIRST;
    forall x | x in C ensures Abuts(C, brk, x) {
      JoinedAbuts(B, brk, b, x);
    }
  }

  lemma JoinedAbuts(B: Blocks, brk: int, b: int, x: int)
    requires Sized(B, brk) && Closed(B, brk) && Apart(B) && b in B && b + B[b].size in B
    requires x in Joined(B, b)
    ensures Abuts(Joined(B, b), brk, x)
  {
    hide Aligned;
    var r := b + B[b].size;
    assert Abuts(B, brk, x) && Abuts(B, brk, r);
    assert r != b && B[r].size > 0;
    if x != b && x + B[x].size == r {
      assert false;
    }
  }

  lemma JoinedApart(B: Blocks, brk: int, b: int)
    requires Sized(B, brk) && Apart(B) && b in B && b + B[b].size in B
    ensures Apart(Joined(B, b))
  {
    var r := b + B[b].size;
    assert r != b;
    hide Sized;
    forall x, y | x in Joined(B, b) && y in Joined(B, b) && x < y
      ensures x + Joined(B, b)[x].size <= y
    {
      assert B[x].size == B[x].size && B[y].size == B[y].size && B[r].size == B[r].size;
    }
  }

  lemma GrownTiles(B: Blocks, brk: int, size: int)
    requires Tiling(B, brk)
    requires MIN_BLOCKSIZE <= size && Aligned(size) && brk + size <= MAX_HEAP
    ensures brk !in B
    ensures Tiling(B[brk := Block(size, false)], brk + size)
  {
    hide Closed, Apart;
    if brk in B { InsideHeap(B, brk, brk); }
    GrownSized(B, brk, size);
    GrownApart(B, brk, size);
    hide Sized;
    GrownClosed(B, brk, size);
  }

  lemma GrownSized(B: Blocks, brk: int, size: int)
    requires Sized(B, brk) && brk !in B
    requires MIN_BLOCKSIZE <= size && Aligned(size) && brk + size <= MAX_HEAP
    ensures Sized(B[brk := Block(size, false)], brk + size)
  {
  }

  lemma GrownClosed(B: Blocks, brk: int, size: int)
    requires Closed(B, brk) && brk !in B
    ensures Closed(B[brk := Block(size, false)], brk + size)
  {
    var C := B[brk := Block(size, false)];
    forall x | x in C ensures Abuts(C, brk + size, x) {
      assert x != brk ==> Abuts(B, brk, x);
    }
  }

  lemma GrownApart(B: Blocks, brk: int, size: int)
    requires Sized(B, brk) && Apart(B) && brk !in B
    ensures Apart(B[brk := Block(size, false)])
  {
  }
}
