/** What clients of the allocator rely on, proved of the operations in HeapSpec. */
module HeapSafety {
  import opened Sequences
  import opened HeapShape
  import opened HeapSpec

  lemma AbsorbLeftLive(h: Heap, bp: int)
    requires Pending(h, bp)
    ensures Live(AbsorbLeft(h, bp)) == Live(h)
  {
    hide Sized, Closed, Apart, FreeIs, NoFreePair, Distinct;
  }

  lemma AbsorbRightLive(h: Heap, b: int)
    requires Pending(h, b)
    ensures Live(AbsorbRight(h, b)) == Live(h)
  {
    hide Sized, Closed, Apart, FreeIs, NoFreePair, Distinct;
  }

  lemma CoalesceLive(h: Heap, bp: int)
    requires Pending(h, bp)
    ensures Live(Coalesce(h, bp)) == Live(h)
  {
    hide InvBut, FreeLeft;
    AbsorbLeftKeeps(h, bp);
    AbsorbLeftLive(h, bp);
    AbsorbRightLive(AbsorbLeft(h, bp), FreeLeft(h.blocks, bp));
  }

  lemma RetaggedLive(h: Heap, bp: int)
    requires bp in h.blocks
    ensures Live(h.(blocks := Retagged(h.blocks, bp, false))) == Live(h) - {bp}
  {
  }

  lemma ReleaseLive(h: Heap, bp: int)
    requires Inv(h) && bp in h.blocks && h.blocks[bp].alloc
    ensures Live(Release(h, bp)) == Live(h) - {bp}
  {
    hide InvBut, Coalesce, Pending, Live, Retagged;
    ReleaseKeeps(h, bp);
    CoalesceLive(h.(blocks := Retagged(h.blocks, bp, false)), bp);
    RetaggedLive(h, bp);
  }

  lemma PlaceLive(h: Heap, bp: int, n: int)
    requires Placeable(h, bp, n)
    ensures bp !in Live(h)
    ensures var s := h.blocks[bp].size;
      Live(Place(h, bp, n)) == Live(h)[bp := if s - n >= MIN_BLOCKSIZE then n else s]
  {
    hide InvBut, Coalesce, Minus;
    PlaceableFree(h, bp, n);
    if h.blocks[bp].size - n >= MIN_BLOCKSIZE {
      DividedPending(h, bp, n);
      CoalesceLive(Carved(h, bp, n), bp + n);
    }
  }

  lemma PlaceableFree(h: Heap, bp: int, n: int)
    requires Placeable(h, bp, n)
    ensures !h.blocks[bp].alloc
  {
    hide Tiling, Distinct, NoFreePair;
  }

  lemma ExtendLive(h: Heap, size: int)
    requires CanGrow(h, size)
    ensures Live(Extend(h, size)) == Live(h)
  {
    hide InvBut, Coalesce;
    ExtendKeeps(h, size);
    CoalesceLive(Grown(h, size), h.brk);
    BreakIsFree(h);
  }

  lemma BreakIsFree(h: Heap)
    requires InvBut(h, NULL)
    ensures h.brk !in h.blocks
  {
    hide Closed, Apart, Distinct, FreeIs, NoFreePair;
    if h.brk in h.blocks { InsideHeap(h.blocks, h.brk, h.brk); }
  }

  /** A successful mm_malloc adds one live block, of the adjusted size or up to 23 bytes more,
      and touches no other; a failed one changes nothing. */
  lemma MallocLive(c: Build, h: Heap, size: int)
    requires Inv(h) && IsSizeT(size)
    ensures var (h', r) := Malloc(c, h, size); var n := BlockSize(size);
      && (r == NULL ==> h' == h)
      && (r != NULL ==> r !in Live(h) && r in Live(h') && Live(h') == Live(h)[r := Live(h')[r]])
      && (r != NULL ==> n <= Live(h')[r] < n + MIN_BLOCKSIZE)
  {
    hide InvBut, Aligned, Place, Coalesce, Extend, BlockSize, FitFrom, Live;
    var n := BlockSize(size);
    BlockSizeAligned(size);
    MallocFits(h, n);
    GrowBytesFit(c, n);
    var bp := FitFrom(h.blocks, h.free, n, 0);
    if bp != NULL {
      PlaceLive(h, bp, n);
    } else if h.brk + c.GrowBytes(n) <= MAX_HEAP {
      var g := Extend(h, c.GrowBytes(n));
      ExtendFits(h, c.GrowBytes(n), n);
      ExtendLive(h, c.GrowBytes(n));
      PlaceLive(g, g.free[0], n);
      NotNull(g, g.free[0]);
    }
  }

  lemma NotNull(h: Heap, b: int)
    requires Inv(h) && b in h.blocks
    ensures b != NULL && b % 8 == 0 && FIRST <= b && b + h.blocks[b].size <= h.brk
  {
    hide Closed, Apart, Distinct, FreeIs, NoFreePair;
  }

  /** A block split in two, whose second part is given back. */
  lemma CutLive(L: map<int, int>, p: int, n: int, k: int)
    requires p + n !in L && n != 0
    ensures L[p := n][p + n := k] - {p + n} == L[p := n]
  {
  }
}
