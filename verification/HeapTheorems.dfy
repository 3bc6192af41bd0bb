/** Theorems about every heap the allocator reaches: first fit is complete, nothing is lost, and
    the blocks handed out never overlap. */
module HeapTheorems {
  import opened Sequences
  import opened HeapShape
  import opened HeapSpec
  import opened HeapSafety

  // ---------- First fit ----------

  lemma InvOnBlocks(h: Heap)
    requires Inv(h)
    ensures OnBlocks(h.blocks, h.free) && forall i {:trigger h.free[i]} :: 0 <= i < |h.free| ==> h.free[i] in h.blocks
  {
    hide Tiling, Distinct, NoFreePair;
    OnList(h.blocks, h.free, NULL);
  }

  /** One step of the search. */
  lemma FitsFirst(B: Blocks, F: seq<int>, n: int, i: nat)
    requires OnBlocks(B, F) && i <= |F|
    ensures FitFrom(B, F, n, i) ==
      if i == |F| then NULL else if n <= B[F[i]].size then F[i] else FitFrom(B, F, n, i + 1)
  {
  }

  /** The search returns the first block on the list that is big enough, and NULL only if no free
      block anywhere in the heap is. */
  lemma {:induction false} FirstFit(h: Heap, n: int, i: nat)
    requires Inv(h) && i <= |h.free|
    ensures OnBlocks(h.blocks, h.free)
    ensures var bp := FitFrom(h.blocks, h.free, n, i);
      if bp == NULL
      then forall j :: i <= j < |h.free| ==> h.blocks[h.free[j]].size < n
      else exists j :: i <= j < |h.free| && bp == h.free[j] && n <= h.blocks[bp].size
                       && (forall k :: i <= k < j ==> h.blocks[h.free[k]].size < n)
    decreases |h.free| - i
  {
    hide InvBut, Tiling, Distinct, FreeIs, NoFreePair, OnBlocks;
    InvOnBlocks(h);
    FitsFirst(h.blocks, h.free, n, i);
    if i < |h.free| {
      NotNull(h, h.free[i]);
      FirstFit(h, n, i + 1);
    }
  }

  ghost predicate SomeFit(B: Blocks, n: int) {
    exists b {:trigger B[b]} :: b in B && !B[b].alloc && n <= B[b].size
  }

  lemma FirstFitComplete(h: Heap, n: int)
    requires Inv(h)
    ensures OnBlocks(h.blocks, h.free)
    ensures FitFrom(h.blocks, h.free, n, 0) == NULL <==> !SomeFit(h.blocks, n)
  {
    FirstFit(h, n, 0);
    hide Tiling, Distinct, NoFreePair, FitFrom;
    NoNullBlock(h);
  }

  lemma NoNullBlock(h: Heap)
    requires Inv(h)
    ensures NULL !in h.blocks
  {
    hide InvBut;
    if NULL in h.blocks { NotNull(h, NULL); }
  }

  /** mm_malloc fails only on size 0 or when no free block fits and the storage cannot hold the
      extension, and it moves the break only when no free block fits. */
  lemma MallocComplete(c: Build, h: Heap, size: int)
    requires Inv(h) && IsSizeT(size)
    ensures var (h', r) := Malloc(c, h, size); var n := BlockSize(size);
      var fits := SomeFit(h.blocks, n);
      && (r == NULL <==> size == 0 || (!fits && h.brk + c.GrowBytes(n) > MAX_HEAP))
      && (h'.brk == if r == NULL || fits then h.brk else h.brk + c.GrowBytes(n))
  {
    hide InvBut, Aligned, Place, Coalesce, Extend, BlockSize, FitFrom, Live, SomeFit;
    var n := BlockSize(size);
    BlockSizeAligned(size);
    FirstFitComplete(h, n);
    MallocFits(h, n);
    GrowBytesFit(c, n);
    var bp := FitFrom(h.blocks, h.free, n, 0);
    if bp != NULL {
      PlaceBrk(h, bp, n);
    } else if h.brk + c.GrowBytes(n) <= MAX_HEAP {
      var g := Extend(h, c.GrowBytes(n));
      ExtendFits(h, c.GrowBytes(n), n);
      PlaceBrk(g, g.free[0], n);
      NotNull(g, g.free[0]);
      ExtendBrk(h, c.GrowBytes(n));
    }
  }

  lemma PlaceBrk(h: Heap, bp: int, n: int)
    requires bp in h.blocks
    ensures Place(h, bp, n).brk == h.brk
  {
  }

  lemma ExtendBrk(h: Heap, size: int)
    ensures Extend(h, size).brk == h.brk + size
  {
  }

  // ---------- place never merges what it splits off ----------

  /** The remainder of a split has no free neighbour: it becomes a block of its own. */
  lemma PlaceSplits(h: Heap, bp: int, n: int)
    requires Placeable(h, bp, n) && h.blocks[bp].size - n >= MIN_BLOCKSIZE
    ensures Place(h, bp, n) == Heap(Divided(h.blocks, bp, n), [bp + n] + Minus(h.free, bp), h.brk)
  {
    var g := Carved(h, bp, n);
    DividedPending(h, bp, n);
    CarvedEdges(h, bp, n);
    FreeLeftIs(g.blocks, g.brk, bp, bp + n);
  }

  lemma CarvedEdges(h: Heap, bp: int, n: int)
    requires Placeable(h, bp, n) && h.blocks[bp].size - n >= MIN_BLOCKSIZE
    ensures var B := Carved(h, bp, n).blocks; NoFreeRight(B, bp + n) && bp in B && B[bp] == Block(n, true)
  {
    hide Closed, Distinct, Aligned;
    PlaceableFree(h, bp, n);
    if bp + n in h.blocks { ApartPair(h.blocks, bp, bp + n); }
  }

  // ---------- Conservation ----------

  /** The blocks from b on, in address order. */
  ghost function Walk(B: Blocks, brk: int, b: int): seq<int>
    requires Tiling(B, brk) && (b in B || b == brk)
    decreases brk - b
  {
    if b == brk then [] else
    assert Abuts(B, brk, b);
    [b] + Walk(B, brk, b + B[b].size)
  }

  function SizeAt(B: Blocks, b: int): int { if b in B then B[b].size else 0 }

  ghost function Bytes(B: Blocks, W: seq<int>): int {
    if W == [] then 0 else SizeAt(B, W[0]) + Bytes(B, W[1..])
  }

  lemma {:induction false} WalkMember(B: Blocks, brk: int, b: int, w: int)
    requires Tiling(B, brk) && (b in B || b == brk)
    ensures w in Walk(B, brk, b) <==> w in B && b <= w
    decreases brk - b
  {
    hide Sized, Apart;
    if b == brk {
      if w in B { InsideHeap(B, brk, w); }
    } else {
      InsideHeap(B, brk, b);
      assert Abuts(B, brk, b);
      WalkMember(B, brk, b + B[b].size, w);
      assert Walk(B, brk, b) == [b] + Walk(B, brk, b + B[b].size);
      if w in B && b < w { ApartPair(B, b, w); }
    }
  }

  lemma {:induction false} WalkBytes(B: Blocks, brk: int, b: int)
    requires Tiling(B, brk) && (b in B || b == brk)
    ensures Bytes(B, Walk(B, brk, b)) == brk - b
    decreases brk - b
  {
    hide Sized, Apart;
    if b != brk {
      InsideHeap(B, brk, b);
      assert Abuts(B, brk, b);
      WalkBytes(B, brk, b + B[b].size);
    }
  }

  lemma {:induction false} WalkAscends(B: Blocks, brk: int, b: int, i: nat, j: nat)
    requires Tiling(B, brk) && (b in B || b == brk) && i < j < |Walk(B, brk, b)|
    ensures Walk(B, brk, b)[i] < Walk(B, brk, b)[j]
    decreases brk - b
  {
    hide Sized, Apart;
    if b != brk {
      InsideHeap(B, brk, b);
      assert Abuts(B, brk, b);
      var W := Walk(B, brk, b + B[b].size);
      if i > 0 {
        WalkAscends(B, brk, b + B[b].size, i - 1, j - 1);
      } else {
        WalkMember(B, brk, b + B[b].size, W[j - 1]);
      }
    }
  }

  /** Walking the heap from its first block meets every block exactly once, in address order, and
      the sizes add up to mem_heapsize() minus the 48 bytes that mm_init takes. */
  lemma Conservation(h: Heap)
    requires Inv(h)
    ensures var W := Walk(h.blocks, h.brk, FIRST);
      && (forall b :: b in W <==> b in h.blocks)
      && (forall i, j :: 0 <= i < j < |W| ==> W[i] < W[j])
      && Bytes(h.blocks, W) == h.brk - FIRST
  {
    hide Sized, Apart, Distinct, FreeIs, NoFreePair, Walk;
    var W := Walk(h.blocks, h.brk, FIRST);
    forall b ensures b in W <==> b in h.blocks {
      WalkMember(h.blocks, h.brk, FIRST, b);
      if b in h.blocks { InsideHeap(h.blocks, h.brk, b); }
    }
    forall i, j | 0 <= i < j < |W| ensures W[i] < W[j] { WalkAscends(h.blocks, h.brk, FIRST, i, j); }
    WalkBytes(h.blocks, h.brk, FIRST);
  }

  /** Once nothing is live the heap is one free block that holds all of it. */
  lemma AllFreed(h: Heap)
    requires Inv(h) && Live(h) == map[]
    ensures h == Heap(map[FIRST := Block(h.brk - FIRST, false)], [FIRST], h.brk)
  {
    hide Tiling, NoFreePair, Live, FreeIs, Distinct;
    OneBlock(h);
    OneKey(h.blocks, FIRST, Block(h.brk - FIRST, false));
    OneOnList(h);
  }

  lemma NothingLive(h: Heap, b: int)
    requires Live(h) == map[] && b in h.blocks
    ensures !h.blocks[b].alloc
  {
    assert h.blocks[b].alloc ==> b in Live(h);
  }

  lemma OneBlock(h: Heap)
    requires Inv(h) && Live(h) == map[]
    ensures FIRST in h.blocks && h.blocks[FIRST] == Block(h.brk - FIRST, false)
    ensures forall b {:trigger b in h.blocks} :: b in h.blocks ==> b == FIRST
  {
    hide Sized, Distinct, FreeIs, Live;
    assert Abuts(h.blocks, h.brk, FIRST);
    NothingLive(h, FIRST);
    var r := FIRST + h.blocks[FIRST].size;
    if r in h.blocks { NothingLive(h, r); NoNullBlock(h); }
    forall b | b in h.blocks ensures b == FIRST {
      InsideHeap(h.blocks, h.brk, b);
      if FIRST < b { ApartPair(h.blocks, FIRST, b); }
    }
  }

  lemma OneOnList(h: Heap)
    requires FreeIs(h.blocks, h.free, NULL) && Distinct(h.free)
    requires h.blocks == map[FIRST := Block(h.brk - FIRST, false)]
    ensures h.free == [FIRST]
  {
    OnList(h.blocks, h.free, NULL);
    assert h.blocks[FIRST] == Block(h.brk - FIRST, false);
    assert FIRST in h.free;
    SingleEntry(h.free, FIRST);
  }

  lemma SingleEntry(F: seq<int>, x: int)
    requires Distinct(F) && x in F && (forall i :: 0 <= i < |F| ==> F[i] == x)
    ensures F == [x]
  {
    if |F| > 1 { DistinctAt(F, 0, 1); }
  }

  lemma DistinctAt(F: seq<int>, i: nat, j: nat)
    requires Distinct(F) && i < j < |F|
    ensures F[i] != F[j]
  {
  }

  lemma OneKey(B: Blocks, b: int, k: Block)
    requires b in B && B[b] == k && (forall c {:trigger c in B} :: c in B ==> c == b)
    ensures B == map[b := k]
  {
    forall c | c in B.Keys ensures c in map[b := k].Keys { assert c in B; }
  }
}
