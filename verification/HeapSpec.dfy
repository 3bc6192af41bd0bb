/** The allocator's operations on the shape of the heap, and what every one of them keeps. */
module HeapSpec {
  import opened Sequences
  import opened HeapShape

  /** The blocks, the free list from its most recently inserted block on, and the break. */
  datatype Heap = Heap(blocks: Blocks, free: seq<int>, brk: int)

  // ---------- Live blocks ----------

  /** The allocated blocks with their sizes. */
  ghost function Live(h: Heap): map<int, int> {
    map b | b in h.blocks && h.blocks[b].alloc :: h.blocks[b].size
  }

  // ---------- The invariant ----------

  /** The list holds exactly the free blocks, other than the pending one x. */
  ghost predicate FreeIs(B: Blocks, F: seq<int>, x: int) {
    && (forall f {:trigger f in F} :: f in F ==> f in B && !B[f].alloc && f != x)
    && (forall b {:trigger B[b]} :: b in B && !B[b].alloc && b != x ==> b in F)
  }

  lemma OnList(B: Blocks, F: seq<int>, x: int)
    requires FreeIs(B, F, x)
    ensures OnBlocks(B, F)
  {
    forall i | 0 <= i < |F| ensures F[i] in B && !B[F[i]].alloc {
      var f: int := F[i];
      assert f in F;
    }
  }

  /** No two neighbouring blocks are both free, the pending block x aside. */
  ghost predicate NoFreePair(B: Blocks, x: int) {
    forall b, c {:trigger B[b], B[c]} :: b in B && c in B && !B[b].alloc && !B[c].alloc && b != x && c != x ==>
      b + B[b].size != c
  }

  ghost predicate InvBut(h: Heap, x: int) {
    && Tiling(h.blocks, h.brk)
    && Distinct(h.free)
    && FreeIs(h.blocks, h.free, x)
    && NoFreePair(h.blocks, x)
  }

  /** What holds between any two operations. */
  ghost predicate Inv(h: Heap) {
    InvBut(h, NULL) && FIRST < h.brk
  }

  // ---------- coalesce ----------

  /** The free block that ends where bp begins, or bp itself. */
  ghost function FreeLeft(B: Blocks, bp: int): (l: int)
    ensures l == bp || (l in B && !B[l].alloc && l + B[l].size == bp)
  {
    if exists l {:trigger B[l]} :: l in B && !B[l].alloc && l + B[l].size == bp then
      var l :| l in B && !B[l].alloc && l + B[l].size == bp;
      l
    else
      bp
  }

  lemma FreeLeftIs(B: Blocks, brk: int, l: int, bp: int)
    requires Sized(B, brk) && Apart(B) && l in B && l + B[l].size == bp
    ensures FreeLeft(B, bp) == if B[l].alloc then bp else l
  {
    var l' := FreeLeft(B, bp);
    if l' != bp && l' != l {
      ApartPair(B, if l < l' then l else l', if l < l' then l' else l);
    }
  }

  lemma NoLeftOfFirst(B: Blocks, brk: int)
    requires Sized(B, brk)
    ensures FreeLeft(B, FIRST) == FIRST
  {
    var l := FreeLeft(B, FIRST);
  }

  ghost function AbsorbLeft(h: Heap, bp: int): (h': Heap)
    requires bp in h.blocks
    ensures FreeLeft(h.blocks, bp) in h'.blocks
  {
    var l := FreeLeft(h.blocks, bp);
    if l == bp then h else Heap(Joined(h.blocks, l), Minus(h.free, l), h.brk)
  }

  ghost function AbsorbRight(h: Heap, b: int): Heap
    requires b in h.blocks
  {
    var r := b + h.blocks[b].size;
    if r in h.blocks && !h.blocks[r].alloc then Heap(Joined(h.blocks, b), Minus(h.free, r), h.brk) else h
  }

  /** A pending free block joins its free neighbours and goes to the front of the list. */
  ghost function Coalesce(h: Heap, bp: int): (h': Heap)
    requires bp in h.blocks
    ensures |h'.free| > 0 && h'.free[0] in h'.blocks
  {
    var h1 := AbsorbLeft(h, bp);
    var l := FreeLeft(h.blocks, bp);
    var h2 := AbsorbRight(h1, l);
    Heap(h2.blocks, [l] + h2.free, h.brk)
  }

  ghost predicate Pending(h: Heap, bp: int) {
    InvBut(h, bp) && bp in h.blocks && !h.blocks[bp].alloc
  }

  lemma PendingParts(h: Heap, bp: int)
    requires Pending(h, bp)
    ensures Tiling(h.blocks, h.brk) && Distinct(h.free) && FreeIs(h.blocks, h.free, bp) && NoFreePair(h.blocks, bp)
    ensures InvBut(h, bp) && bp in h.blocks && !h.blocks[bp].alloc
  {
    hide Tiling, Distinct, FreeIs, NoFreePair;
  }

  lemma PendingIs(h: Heap, bp: int)
    requires Tiling(h.blocks, h.brk) && Distinct(h.free) && FreeIs(h.blocks, h.free, bp) && NoFreePair(h.blocks, bp)
    requires bp in h.blocks && !h.blocks[bp].alloc
    ensures Pending(h, bp)
  {
    hide Tiling, Distinct, FreeIs, NoFreePair;
  }

  lemma InvParts(h: Heap)
    requires Inv(h)
    ensures Tiling(h.blocks, h.brk) && Distinct(h.free) && FreeIs(h.blocks, h.free, NULL) && NoFreePair(h.blocks, NULL)
    ensures FIRST < h.brk
  {
    hide Tiling, Distinct, FreeIs, NoFreePair;
  }

  /** Sizes are positive, and no block lies at null. */
  lemma BlockBounds(B: Blocks, brk: int, b: int)
    requires Tiling(B, brk) && b in B
    ensures FIRST <= b && b != NULL && MIN_BLOCKSIZE <= B[b].size && b + B[b].size <= brk
  {
    hide Closed, Apart, Aligned;
  }

  lemma OnlyOnList(B: Blocks, F: seq<int>, x: int, b: int)
    requires FreeIs(B, F, x) && b in B
    ensures b in F <==> !B[b].alloc && b != x
  {
  }

  lemma JoinKeeps(h: Heap, b: int, x: int, y: int)
    requires InvBut(h, x) && (x == b || x == y) && x in h.blocks && !h.blocks[x].alloc
    requires b in h.blocks && y == b + h.blocks[b].size && y in h.blocks
    requires !h.blocks[b].alloc && !h.blocks[y].alloc
    ensures var g := Heap(Joined(h.blocks, b), Minus(h.free, if x == b then y else b), h.brk);
      Pending(g, b)
  {
    hide Sized, Closed, Apart, FreeIs, NoFreePair, Joined, Distinct;
    JoinedTiles(h.blocks, h.brk, b);
    assert Sized(h.blocks, h.brk);
    JoinFree(h.blocks, h.brk, h.free, b, x, y);
    JoinPairs(h.blocks, h.brk, b, x, y);
  }

  lemma JoinFree(B: Blocks, brk: int, F: seq<int>, b: int, x: int, y: int)
    requires Sized(B, brk) && Distinct(F) && FreeIs(B, F, x) && (x == b || x == y)
    requires b in B && y == b + B[b].size && y in B && !B[b].alloc && !B[y].alloc
    ensures FreeIs(Joined(B, b), Minus(F, if x == b then y else b), b)
    ensures b in Joined(B, b) && !Joined(B, b)[b].alloc
    ensures Distinct(Minus(F, if x == b then y else b))
  {
    assert b != y;
    hide Sized;
    MinusMembers(F, if x == b then y else b);
    hide Distinct;
  }

  lemma JoinPairs(B: Blocks, brk: int, b: int, x: int, y: int)
    requires Sized(B, brk) && Apart(B) && NoFreePair(B, x) && (x == b || x == y)
    requires b in B && y == b + B[b].size && y in B && !B[b].alloc && !B[y].alloc
    ensures NoFreePair(Joined(B, b), b)
  {
    assert b != y;
    hide Sized;
  }

  ghost predicate NoFreeLeft(B: Blocks, b: int) {
    forall c {:trigger B[c]} :: c in B && !B[c].alloc ==> c + B[c].size != b
  }

  ghost predicate NoFreeRight(B: Blocks, b: int) {
    b in B && (b + B[b].size in B ==> B[b + B[b].size].alloc)
  }

  lemma AbsorbLeftKeeps(h: Heap, bp: int)
    requires Pending(h, bp)
    ensures Pending(AbsorbLeft(h, bp), FreeLeft(h.blocks, bp))
    ensures NoFreeLeft(AbsorbLeft(h, bp).blocks, FreeLeft(h.blocks, bp))
  {
    var l := FreeLeft(h.blocks, bp);
    if l == bp {
      FreeLeftNone(h.blocks, h.brk, bp);
    } else {
      hide InvBut;
      JoinKeeps(h, l, bp, bp);
      LeftOfJoined(h, l, bp);
    }
  }

  lemma FreeLeftNone(B: Blocks, brk: int, bp: int)
    requires Sized(B, brk) && bp in B && FreeLeft(B, bp) == bp
    ensures NoFreeLeft(B, bp)
  {
    assert 0 < B[bp].size;
    hide Sized;
  }

  lemma LeftOfJoined(h: Heap, l: int, bp: int)
    requires Pending(h, bp) && l in h.blocks && !h.blocks[l].alloc && l + h.blocks[l].size == bp
    ensures NoFreeLeft(Joined(h.blocks, l), l)
  {
    hide Tiling, FreeIs, Distinct;
    PendingParts(h, bp);
    BlockBounds(h.blocks, h.brk, l);
    BlockBounds(h.blocks, h.brk, bp);
  }

  lemma NoRightOf(B: Blocks, b: int)
    requires b in B && (b + B[b].size in B ==> B[b + B[b].size].alloc)
    ensures NoFreeRight(B, b)
  {
  }

  lemma AbsorbRightKeeps(h: Heap, b: int)
    requires Pending(h, b) && NoFreeLeft(h.blocks, b)
    ensures Pending(AbsorbRight(h, b), b)
    ensures NoFreeLeft(AbsorbRight(h, b).blocks, b) && NoFreeRight(AbsorbRight(h, b).blocks, b)
  {
    hide InvBut, NoFreeLeft, NoFreeRight, Joined, Minus;
    var r := b + h.blocks[b].size;
    if r in h.blocks && !h.blocks[r].alloc {
      RightOfJoined(h, b, r);
      PendingParts(h, b);
      JoinKeeps(h, b, b, r);
    } else {
      NoRightOf(h.blocks, b);
    }
  }

  lemma RightOfJoined(h: Heap, b: int, r: int)
    requires Pending(h, b) && NoFreeLeft(h.blocks, b)
    requires r == b + h.blocks[b].size && r in h.blocks && !h.blocks[r].alloc
    ensures NoFreeLeft(Joined(h.blocks, b), b) && NoFreeRight(Joined(h.blocks, b), b)
  {
    hide Tiling, FreeIs, Distinct;
    PendingParts(h, b);
    BlockBounds(h.blocks, h.brk, b);
    BlockBounds(h.blocks, h.brk, r);
  }

  lemma PushKeeps(h: Heap, b: int)
    requires Pending(h, b) && NoFreeLeft(h.blocks, b) && NoFreeRight(h.blocks, b)
    ensures InvBut(h.(free := [b] + h.free), NULL)
  {
    hide Closed, Apart, NoFreeLeft, NoFreeRight;
    assert NULL !in h.blocks by { if NULL in h.blocks { InsideHeap(h.blocks, h.brk, NULL); } }
    hide Sized;
    var F := [b] + h.free;
    assert b !in h.free;
    forall f ensures f in F <==> f == b || f in h.free { assert F == [b] + h.free; }
    PushPairs(h, b);
  }

  lemma PushPairs(h: Heap, b: int)
    requires Pending(h, b) && NoFreeLeft(h.blocks, b) && NoFreeRight(h.blocks, b)
    ensures NoFreePair(h.blocks, NULL)
  {
    assert 0 < h.blocks[b].size;
    hide Sized, Closed, Apart, FreeIs, Distinct;
    forall c, d | c in h.blocks && d in h.blocks && !h.blocks[c].alloc && !h.blocks[d].alloc
      ensures c + h.blocks[c].size != d
    {
      if c == b {
        assert d != b + h.blocks[b].size;
      }
    }
  }

  lemma CoalesceKeeps(h: Heap, bp: int)
    requires Pending(h, bp) && FIRST < h.brk
    ensures Inv(Coalesce(h, bp))
  {
    hide InvBut, NoFreeLeft, NoFreeRight, FreeLeft;
    var l := FreeLeft(h.blocks, bp);
    AbsorbLeftKeeps(h, bp);
    AbsorbRightKeeps(AbsorbLeft(h, bp), l);
    PushKeeps(AbsorbRight(AbsorbLeft(h, bp), l), l);
  }

  // ---------- mm_free ----------

  ghost function Release(h: Heap, bp: int): Heap
    requires bp in h.blocks
  {
    Coalesce(h.(blocks := Retagged(h.blocks, bp, false)), bp)
  }

  lemma RetaggedFree(B: Blocks, brk: int, F: seq<int>, bp: int)
    requires Tiling(B, brk) && FreeIs(B, F, NULL) && NoFreePair(B, NULL) && bp in B && B[bp].alloc
    ensures FreeIs(Retagged(B, bp, false), F, bp) && NoFreePair(Retagged(B, bp, false), bp)
  {
    hide Tiling;
    OnlyOnList(B, F, NULL, bp);
    forall b {:trigger B[b]} | b in B ensures b != NULL { BlockBounds(B, brk, b); }
  }

  lemma ReleaseKeeps(h: Heap, bp: int)
    requires Inv(h) && bp in h.blocks && h.blocks[bp].alloc
    ensures Pending(h.(blocks := Retagged(h.blocks, bp, false)), bp)
    ensures Inv(Release(h, bp))
  {
    hide Tiling, Distinct, InvBut, FreeIs, NoFreePair, Pending, Coalesce;
    var g := h.(blocks := Retagged(h.blocks, bp, false));
    InvParts(h);
    RetaggedTiles(h.blocks, h.brk, bp, false);
    RetaggedFree(h.blocks, h.brk, h.free, bp);
    PendingIs(g, bp);
    CoalesceKeeps(g, bp);
  }

  // ---------- place ----------

  /** The split of bp: its first n bytes allocated, the rest pending. */
  ghost function Carved(h: Heap, bp: int, n: int): Heap
    requires bp in h.blocks
  {
    Heap(Divided(h.blocks, bp, n), Minus(h.free, bp), h.brk)
  }

  ghost function Place(h: Heap, bp: int, n: int): Heap
    requires bp in h.blocks
  {
    if h.blocks[bp].size - n >= MIN_BLOCKSIZE then
      Coalesce(Carved(h, bp, n), bp + n)
    else
      Heap(Retagged(h.blocks, bp, true), Minus(h.free, bp), h.brk)
  }

  ghost predicate Placeable(h: Heap, bp: int, n: int) {
    Inv(h) && bp in h.free && bp in h.blocks && MIN_BLOCKSIZE <= n <= h.blocks[bp].size && Aligned(n)
  }

  lemma CarvedFree(B: Blocks, brk: int, F: seq<int>, bp: int, n: int)
    requires Tiling(B, brk) && Distinct(F) && FreeIs(B, F, NULL) && NoFreePair(B, NULL)
    requires bp in F && bp in B && n < B[bp].size && bp + n !in B && 0 < n
    ensures var C := Divided(B, bp, n);
      && FreeIs(C, Minus(F, bp), bp + n) && NoFreePair(C, bp + n) && bp + n in C && !C[bp + n].alloc
  {
    hide Tiling, Distinct, Minus;
    MinusMembers(F, bp);
    forall b {:trigger B[b]} | b in B ensures b != NULL { BlockBounds(B, brk, b); }
  }

  lemma DividedPending(h: Heap, bp: int, n: int)
    requires Placeable(h, bp, n) && h.blocks[bp].size - n >= MIN_BLOCKSIZE
    ensures Pending(Carved(h, bp, n), bp + n) && bp + n !in h.blocks
  {
    hide Tiling, Distinct, FreeIs, NoFreePair, Pending, Divided, Minus, Aligned;
    InvParts(h);
    DividedTiles(h.blocks, h.brk, bp, n);
    MinusMembers(h.free, bp);
    CarvedFree(h.blocks, h.brk, h.free, bp, n);
    PendingIs(Carved(h, bp, n), bp + n);
  }

  lemma PlacedFree(B: Blocks, F: seq<int>, bp: int)
    requires Distinct(F) && FreeIs(B, F, NULL) && NoFreePair(B, NULL) && bp in F && bp in B
    ensures FreeIs(Retagged(B, bp, true), Minus(F, bp), NULL) && NoFreePair(Retagged(B, bp, true), NULL)
  {
    hide Distinct, Minus;
    MinusMembers(F, bp);
  }

  lemma RetaggedPlaced(h: Heap, bp: int, n: int)
    requires Placeable(h, bp, n)
    ensures Inv(Heap(Retagged(h.blocks, bp, true), Minus(h.free, bp), h.brk))
  {
    hide Tiling, Distinct, FreeIs, NoFreePair, Minus;
    InvParts(h);
    RetaggedTiles(h.blocks, h.brk, bp, true);
    MinusMembers(h.free, bp);
    PlacedFree(h.blocks, h.free, bp);
  }

  lemma PlaceKeeps(h: Heap, bp: int, n: int)
    requires Placeable(h, bp, n)
    ensures Inv(Place(h, bp, n))
  {
    hide InvBut, Coalesce, Carved, Retagged, Minus;
    if h.blocks[bp].size - n >= MIN_BLOCKSIZE {
      DividedPending(h, bp, n);
      assert Carved(h, bp, n).brk == h.brk by { CarvedBrk(h, bp, n); }
      CoalesceKeeps(Carved(h, bp, n), bp + n);
    } else {
      RetaggedPlaced(h, bp, n);
    }
  }

  lemma CarvedBrk(h: Heap, bp: int, n: int)
    requires bp in h.blocks
    ensures Carved(h, bp, n).brk == h.brk
  {
  }

  // ---------- extend_heap ----------

  /** The two builds of this design: mm_freeList.c, and the copy of it in test.c that has the
      working mm_realloc. */
  datatype Build = FreeList | TestCopy {
    /** CHUNKSIZE; in mm_freeList.c it is the unparenthesised 1<<12, here where it compares. */
    function Chunk(): int { if FreeList? then 4096 else 16 }

    /** The argument of the first extension, CHUNKSIZE/WSIZE: in mm_freeList.c this is 1<<(12/4). */
    function FirstWords(): int { if FreeList? then 8 else 4 }

    /** The bytes that extend_heap asks for. */
    function ExtendBytes(words: int): int {
      var size := (if words % 2 == 1 then words + 1 else words) * WSIZE;
      if TestCopy? && size < MIN_BLOCKSIZE then MIN_BLOCKSIZE else size
    }

    /** What mm_malloc extends the heap by for a block of n bytes. */
    function GrowBytes(n: int): int { ExtendBytes((if n > Chunk() then n else Chunk()) / WSIZE) }
  }

  lemma GrowBytesFit(c: Build, n: int)
    requires 0 <= n && Aligned(n)
    ensures n <= c.GrowBytes(n) && MIN_BLOCKSIZE <= c.GrowBytes(n) && Aligned(c.GrowBytes(n))
    ensures c.GrowBytes(n) ==
      if n > c.Chunk() then (if c.TestCopy? && n < 24 then 24 else n) else if c.FreeList? then 4096 else 24
  {
    var k := n / 8;
    assert n == 8 * k && n / WSIZE == 2 * k;
    assert (2 * k) % 2 == 0;
  }

  ghost function Grown(h: Heap, size: int): Heap {
    Heap(h.blocks[h.brk := Block(size, false)], h.free, h.brk + size)
  }

  ghost function Extend(h: Heap, size: int): (h': Heap)
    ensures |h'.free| > 0 && h'.free[0] in h'.blocks
  {
    Coalesce(Grown(h, size), h.brk)
  }

  ghost predicate CanGrow(h: Heap, size: int) {
    InvBut(h, NULL) && MIN_BLOCKSIZE <= size && Aligned(size) && h.brk + size <= MAX_HEAP
  }

  lemma ExtendKeeps(h: Heap, size: int)
    requires CanGrow(h, size)
    ensures Pending(Grown(h, size), h.brk)
    ensures Inv(Extend(h, size))
  {
    var g := Grown(h, size);
    GrownTiles(h.blocks, h.brk, size);
    hide Closed, Apart;
    assert FIRST < h.brk + size;
    hide Sized;
    assert Pending(g, h.brk);
    hide InvBut, Coalesce;
    CoalesceKeeps(g, h.brk);
  }

  // ---------- mm_malloc ----------

  /** MAX(ALIGN(size) + DSIZE, MIN_BLOCKSIZE) in 32-bit unsigned arithmetic. */
  function BlockSize(size: int): int {
    var aligned := (size + 7) % SIZE_T_MOD - (size + 7) % SIZE_T_MOD % 8;
    var n := (aligned + DSIZE) % SIZE_T_MOD;
    if n > MIN_BLOCKSIZE then n else MIN_BLOCKSIZE
  }

  ghost predicate IsSizeT(size: int) { 0 <= size < SIZE_T_MOD }

  lemma BlockSizeAligned(size: int)
    requires IsSizeT(size)
    ensures MIN_BLOCKSIZE <= BlockSize(size) < SIZE_T_MOD && Aligned(BlockSize(size))
  {
  }

  /** A block of the adjusted size has room for the request, and its two tags, exactly when the
      32-bit arithmetic does not wrap. */
  lemma BlockSizeFits(size: int)
    requires IsSizeT(size)
    ensures size <= BlockSize(size) - DSIZE <==> size <= SIZE_T_MOD - 16
    ensures BlockSize(size) > MIN_BLOCKSIZE ==> 0 < size <= BlockSize(size) - DSIZE
  {
  }

  ghost predicate OnBlocks(B: Blocks, F: seq<int>) {
    forall i {:trigger F[i]} :: 0 <= i < |F| ==> F[i] in B && !B[F[i]].alloc
  }

  /** The first block from index i of the list on, most recently inserted first, of at least n bytes. */
  ghost function FitFrom(B: Blocks, F: seq<int>, n: int, i: nat): (bp: int)
    requires OnBlocks(B, F) && i <= |F|
    ensures bp == NULL || (bp in F && n <= B[bp].size)
    decreases |F| - i
  {
    if i == |F| then NULL
    else if n <= B[F[i]].size then F[i]
    else FitFrom(B, F, n, i + 1)
  }

  ghost function Malloc(c: Build, h: Heap, size: int): (Heap, int)
    requires Inv(h) && IsSizeT(size)
  {
    var n := BlockSize(size);
    OnList(h.blocks, h.free, NULL);
    var bp := FitFrom(h.blocks, h.free, n, 0);
    if size == 0 then (h, NULL)
    else if bp != NULL then (Place(h, bp, n), bp)
    else if h.brk + c.GrowBytes(n) > MAX_HEAP then (h, NULL)
    else
      var g := Extend(h, c.GrowBytes(n));
      (Place(g, g.free[0], n), g.free[0])
  }

  lemma MallocFits(h: Heap, n: int)
    requires Inv(h) && MIN_BLOCKSIZE <= n && Aligned(n)
    ensures OnBlocks(h.blocks, h.free)
    ensures var bp := FitFrom(h.blocks, h.free, n, 0); bp != NULL ==> bp in h.blocks && Placeable(h, bp, n)
  {
    hide Tiling, Distinct, NoFreePair, Aligned, FitFrom;
    OnList(h.blocks, h.free, NULL);
  }

  lemma AbsorbLeftGrows(h: Heap, bp: int)
    requires Tiling(h.blocks, h.brk) && bp in h.blocks
    ensures h.blocks[bp].size <= AbsorbLeft(h, bp).blocks[FreeLeft(h.blocks, bp)].size
  {
    hide Tiling, Minus, FreeLeft;
    if FreeLeft(h.blocks, bp) != bp { BlockBounds(h.blocks, h.brk, FreeLeft(h.blocks, bp)); }
  }

  lemma AbsorbRightGrows(g: Heap, l: int)
    requires Tiling(g.blocks, g.brk) && l in g.blocks && !g.blocks[l].alloc
    ensures l in AbsorbRight(g, l).blocks && !AbsorbRight(g, l).blocks[l].alloc
    ensures g.blocks[l].size <= AbsorbRight(g, l).blocks[l].size
  {
    hide Tiling, Minus;
    var r := l + g.blocks[l].size;
    BlockBounds(g.blocks, g.brk, l);
    if r in g.blocks { BlockBounds(g.blocks, g.brk, r); }
  }

  lemma CoalesceSize(h: Heap, bp: int)
    requires Pending(h, bp)
    ensures var h' := Coalesce(h, bp); !h'.blocks[h'.free[0]].alloc && h.blocks[bp].size <= h'.blocks[h'.free[0]].size
  {
    hide InvBut, NoFreeLeft, Tiling, Minus, FreeLeft, FreeIs, Distinct, NoFreePair, Joined;
    var l, g := FreeLeft(h.blocks, bp), AbsorbLeft(h, bp);
    AbsorbLeftKeeps(h, bp);
    PendingParts(h, bp);
    PendingParts(g, l);
    AbsorbLeftGrows(h, bp);
    AbsorbRightGrows(g, l);
  }

  /** A successful extension always yields a big enough block at the front of the list. */
  lemma ExtendFits(h: Heap, size: int, n: int)
    requires CanGrow(h, size) && MIN_BLOCKSIZE <= n <= size && Aligned(n)
    ensures var g := Extend(h, size); Inv(g) && Placeable(g, g.free[0], n)
  {
    hide InvBut, Coalesce, Aligned;
    ExtendKeeps(h, size);
    CoalesceSize(Grown(h, size), h.brk);
  }

  lemma MallocKeeps(c: Build, h: Heap, size: int)
    requires Inv(h) && IsSizeT(size)
    ensures Inv(Malloc(c, h, size).0)
  {
    hide InvBut, Aligned, Place, Coalesce, Extend, BlockSize, FitFrom;
    var n := BlockSize(size);
    BlockSizeAligned(size);
    MallocFits(h, n);
    GrowBytesFit(c, n);
    var bp := FitFrom(h.blocks, h.free, n, 0);
    if bp != NULL {
      PlaceKeeps(h, bp, n);
    } else if h.brk + c.GrowBytes(n) <= MAX_HEAP {
      ExtendFits(h, c.GrowBytes(n), n);
      PlaceKeeps(Extend(h, c.GrowBytes(n)), Extend(h, c.GrowBytes(n)).free[0], n);
    }
  }

  // ---------- mm_realloc ----------

  /** Block bp cut down to its first n bytes; the rest is still tagged allocated. */
  ghost function Cut(h: Heap, bp: int, n: int): (h': Heap)
    requires bp in h.blocks
    ensures bp + n in h'.blocks
  {
    h.(blocks := Retagged(Divided(h.blocks, bp, n), bp + n, true))
  }

  ghost function Realloc(c: Build, h: Heap, ptr: int, size: int): (Heap, int)
    requires Inv(h) && IsSizeT(size) && (ptr == NULL || ptr in Live(h))
  {
    var n := BlockSize(size);
    if size == 0 then (if ptr == NULL then h else Release(h, ptr), NULL)
    else if ptr == NULL then Malloc(c, h, size)
    else
      var old_size := h.blocks[ptr].size;
      if n == old_size || (n < old_size && old_size - n <= MIN_BLOCKSIZE) then (h, ptr)
      else if n < old_size then (Release(Cut(h, ptr, n), ptr + n), ptr)
      else
        var (g, r) := Malloc(c, h, size);
        if r == NULL || ptr !in g.blocks then (h, NULL) else (Release(g, ptr), r)
  }

  ghost predicate Cuttable(h: Heap, ptr: int, n: int) {
    && Inv(h) && ptr in h.blocks && h.blocks[ptr].alloc
    && MIN_BLOCKSIZE <= n && Aligned(n) && n + MIN_BLOCKSIZE <= h.blocks[ptr].size
  }

  lemma CutTiles(h: Heap, ptr: int, n: int)
    requires Cuttable(h, ptr, n)
    ensures ptr + n !in h.blocks && Tiling(Cut(h, ptr, n).blocks, h.brk)
  {
    hide Sized, Closed, Apart, FreeIs, NoFreePair, Distinct, Divided, Retagged;
    DividedTiles(h.blocks, h.brk, ptr, n);
    RetaggedTiles(Divided(h.blocks, ptr, n), h.brk, ptr + n, true);
  }

  lemma CutKeeps(h: Heap, ptr: int, n: int)
    requires Cuttable(h, ptr, n)
    ensures ptr + n !in h.blocks && ptr + n !in Live(h)
    ensures Inv(Cut(h, ptr, n)) && Cut(h, ptr, n).brk == h.brk
    ensures Cut(h, ptr, n).blocks[ptr + n] == Block(h.blocks[ptr].size - n, true)
    ensures Cut(h, ptr, n).blocks[ptr] == Block(n, true)
    ensures Live(Cut(h, ptr, n)) == Live(h)[ptr := n][ptr + n := h.blocks[ptr].size - n]
  {
    hide Tiling, Distinct;
    CutTiles(h, ptr, n);
  }
}
