/** What mm_free, mm_malloc and mm_realloc make of the heap, stated on its blocks and its list. */
module HeapOutcomes {
  import opened Sequences
  import opened HeapShape
  import opened HeapSpec
  import opened HeapSafety
  import opened HeapTheorems
  import opened HeapMemory

  // ---------- Freed space ----------

  /** The space from b to e has been given back to a heap of blocks B with free list F.  Heap g has in
      its place, and in front of its list, one free block that also covers the free block that ended
      at b, if there was one, and the free block that began at e, if there was one.  All other blocks
      are as they were, and the list goes on with the others in their order. */
  ghost predicate GivenBack(B: Blocks, F: seq<int>, b: int, e: int, g: Heap) {
    g.free != [] && g.free[0] in g.blocks && !g.blocks[g.free[0]].alloc &&
    var l := g.free[0]; var r := l + g.blocks[l].size;
      && (if l == b then NoFreeEnding(B, b) else l in B && !B[l].alloc && l + B[l].size == b)
      && (if r == e then e in B ==> B[e].alloc else e in B && !B[e].alloc && r == e + B[e].size)
      && SameBeyond(B, g.blocks, l, r)
      && g.free[1..] == Minus(Minus(F, l), e)
  }

  ghost predicate NoFreeEnding(B: Blocks, b: int) {
    forall c {:trigger B[c]} :: c in B && !B[c].alloc ==> c + B[c].size != b
  }

  /** C and B have the same blocks outside the space from l to r, where C has only the one at l. */
  ghost predicate SameBeyond(B: Blocks, C: Blocks, l: int, r: int) {
    forall c {:trigger c in C} {:trigger c in B} :: c != l ==>
      (c in C <==> c in B && (c < l || r <= c)) && (c in C ==> c in B && C[c] == B[c])
  }

  lemma AbsorbLeftElse(h: Heap, bp: int, c: int)
    requires bp in h.blocks && c != FreeLeft(h.blocks, bp)
    ensures var l, C := FreeLeft(h.blocks, bp), AbsorbLeft(h, bp).blocks;
      && (c in C <==> c in h.blocks && (l != bp ==> c != bp)) && (c in C ==> C[c] == h.blocks[c])
  {
    hide FreeLeft, Minus;
  }

  lemma AbsorbRightElse(g: Heap, l: int, c: int)
    requires l in g.blocks && c != l
    ensures var r, C := l + g.blocks[l].size, AbsorbRight(g, l).blocks;
      && (c in C <==> c in g.blocks && (FreeRight(g.blocks, l) ==> c != r)) && (c in C ==> C[c] == g.blocks[c])
  {
    hide Minus;
  }

  /** Blocks of a tiling that are not one of two or three neighbours lie outside the space these cover. */
  lemma Outside(B: Blocks, brk: int, l: int, c: int)
    requires Tiling(B, brk) && l in B && c in B && c != l
    ensures c < l || l + B[l].size <= c
  {
    hide Sized, Closed;
    if l < c { ApartPair(B, l, c); }
  }

  lemma MergedElse(h: Heap, bp: int, c: int)
    requires Pending(h, bp) && c != FreeLeft(h.blocks, bp)
    ensures var l, e, C := FreeLeft(h.blocks, bp), bp + h.blocks[bp].size, Coalesce(h, bp).blocks;
      var r := if FreeRight(h.blocks, bp) then e + h.blocks[e].size else e;
      && (c in C <==> c in h.blocks && (c < l || r <= c)) && (c in C ==> c in h.blocks && C[c] == h.blocks[c])
  {
    hide InvBut, Tiling, Minus, FreeLeft, FreeIs, Distinct, NoFreePair, AbsorbLeft, AbsorbRight;
    var l, e, g := FreeLeft(h.blocks, bp), bp + h.blocks[bp].size, AbsorbLeft(h, bp);
    PendingParts(h, bp);
    AbsorbLeftShape(h, bp);
    AbsorbLeftElse(h, bp, c);
    AbsorbRightElse(g, l, c);
    BlockBounds(h.blocks, h.brk, bp);
    BlockBounds(h.blocks, h.brk, l);
    if FreeRight(h.blocks, bp) { BlockBounds(h.blocks, h.brk, e); }
    if c in h.blocks {
      Outside(h.blocks, h.brk, l, c);
      if c != bp { Outside(h.blocks, h.brk, bp, c); }
      if FreeRight(h.blocks, bp) && c != e { Outside(h.blocks, h.brk, e, c); }
    }
  }

  /** The list of a coalesced heap: the merged block, then the others in their order. */
  lemma MergedList(h: Heap, bp: int)
    requires Pending(h, bp)
    ensures var l, e, g := FreeLeft(h.blocks, bp), bp + h.blocks[bp].size, Coalesce(h, bp);
      g.free == [l] + Minus(Minus(h.free, l), e)
  {
    hide InvBut, Tiling, Minus, FreeLeft, FreeIs, Distinct, NoFreePair, AbsorbLeft, AbsorbRight;
    var l, e, g := FreeLeft(h.blocks, bp), bp + h.blocks[bp].size, AbsorbLeft(h, bp);
    PendingParts(h, bp);
    AbsorbLeftShape(h, bp);
    AbsorbRightShape(g, l);
    OnlyOnList(h.blocks, h.free, bp, bp);
    if l == bp { MinusAbsent(h.free, l); }
    if !FreeRight(h.blocks, bp) {
      NotListed(h.blocks, h.free, bp, e);
      MinusSubset(h.free, l, e);
      MinusAbsent(Minus(h.free, l), e);
    }
  }

  lemma NotListed(B: Blocks, F: seq<int>, x: int, e: int)
    requires FreeIs(B, F, x) && (e in B ==> B[e].alloc)
    ensures e !in F
  {
  }

  lemma {:induction false} MinusSubset(s: seq<int>, x: int, y: int)
    requires y !in s
    ensures y !in Minus(s, x)
  {
    if s != [] && s[0] != x { MinusSubset(s[1..], x, y); }
  }

  /** coalesce: a free block that is not on the list is given back. */
  lemma CoalesceGivesBack(h: Heap, bp: int)
    requires Pending(h, bp) && FIRST < h.brk
    ensures GivenBack(h.blocks, h.free, bp, bp + h.blocks[bp].size, Coalesce(h, bp)) && Coalesce(h, bp).brk == h.brk
  {
    hide InvBut, Tiling, Minus, FreeLeft, FreeIs, Distinct, NoFreePair, AbsorbLeft, AbsorbRight;
    var B, l, e, g := h.blocks, FreeLeft(h.blocks, bp), bp + h.blocks[bp].size, Coalesce(h, bp);
    PendingParts(h, bp);
    AbsorbLeftShape(h, bp);
    AbsorbRightShape(AbsorbLeft(h, bp), l);
    MergedList(h, bp);
    BlockBounds(B, h.brk, bp);
    if FreeRight(B, bp) { BlockBounds(B, h.brk, e); }
    var r := l + g.blocks[l].size;
    assert r == if FreeRight(B, bp) then e + B[e].size else e;
    forall c {:trigger c in g.blocks} {:trigger c in B} | c != l
      ensures (c in g.blocks <==> c in B && (c < l || r <= c)) && (c in g.blocks ==> c in B && g.blocks[c] == B[c])
    {
      MergedElse(h, bp, c);
    }
    LeftIs(h, bp);
  }

  lemma LeftIs(h: Heap, bp: int)
    requires Pending(h, bp)
    ensures var B, l := h.blocks, FreeLeft(h.blocks, bp);
      if l == bp then NoFreeEnding(B, bp) else l in B && !B[l].alloc && l + B[l].size == bp
  {
    hide Closed, Apart, Aligned, FreeIs, Distinct, NoFreePair;
    if FreeLeft(h.blocks, bp) == bp { FreeLeftNone(h.blocks, h.brk, bp); }
  }

  /** mm_free */
  lemma ReleaseGivesBack(h: Heap, p: int)
    requires Inv(h) && p in Live(h)
    ensures GivenBack(h.blocks, h.free, p, p + Live(h)[p], Release(h, p)) && Release(h, p).brk == h.brk
  {
    hide InvBut, Pending, Coalesce, GivenBack, Retagged;
    var g := h.(blocks := Retagged(h.blocks, p, false));
    ReleaseKeeps(h, p);
    CoalesceGivesBack(g, p);
    RetaggedElse(h.blocks, p);
    InvParts(h);
    forall c {:trigger h.blocks[c]} | c in h.blocks ensures 0 < h.blocks[c].size { BlockBounds(h.blocks, h.brk, c); }
    GivenBackAgain(h.blocks, g.blocks, h.free, p, p + h.blocks[p].size, Release(h, p));
  }

  lemma RetaggedElse(B: Blocks, p: int)
    requires p in B
    ensures var C := Retagged(B, p, false);
      && C.Keys == B.Keys && C[p] == Block(B[p].size, false)
      && forall c {:trigger C[c]} :: c in B && c != p ==> C[c] == B[c]
  {
  }

  /** It does not matter what the blocks said of the space given back. */
  lemma GivenBackAgain(B: Blocks, C: Blocks, F: seq<int>, p: int, e: int, g: Heap)
    requires GivenBack(C, F, p, e, g) && p in B && C.Keys == B.Keys && C[p].size == B[p].size && p + B[p].size == e
    requires B[p].alloc && forall c {:trigger C[c]} :: c in B && c != p ==> C[c] == B[c]
    requires forall c {:trigger B[c]} :: c in B ==> 0 < B[c].size
    ensures GivenBack(B, F, p, e, g)
  {
    hide Minus;
    var l := g.free[0];
    var r := l + g.blocks[l].size;
    forall c {:trigger B[c]} | c in B && !B[c].alloc ensures c != p && C[c] == B[c] { assert C[c] == B[c] || c == p; }
    forall c {:trigger c in g.blocks} {:trigger c in B} | c != l
      ensures (c in g.blocks <==> c in B && (c < l || r <= c)) && (c in g.blocks ==> c in B && g.blocks[c] == B[c])
    {
      assert c in C <==> c in B;
      if c in B && c != p { assert C[c] == B[c]; }
      if e in B { assert 0 < B[e].size; }
      if l in B { assert 0 < B[l].size; }
    }
  }

  /** extend_heap */
  lemma ExtendGivesBack(h: Heap, size: int)
    requires CanGrow(h, size)
    ensures GivenBack(h.blocks, h.free, h.brk, h.brk + size, Extend(h, size)) && Extend(h, size).brk == h.brk + size
  {
    hide InvBut, Pending, Coalesce, GivenBack;
    ExtendKeeps(h, size);
    BreakIsFree(h);
    GrownEnd(h, size);
    CoalesceGivesBack(Grown(h, size), h.brk);
    GivenBackNew(h.blocks, h.free, h.brk, size, Extend(h, size));
  }

  lemma GrownEnd(h: Heap, size: int)
    requires InvBut(h, NULL) && 0 < size
    ensures FIRST < h.brk + size && forall c {:trigger h.blocks[c]} :: c in h.blocks ==>
      0 < h.blocks[c].size && c + h.blocks[c].size <= h.brk
  {
    hide Closed, Apart, Aligned, FreeIs, Distinct, NoFreePair;
  }

  lemma GivenBackNew(B: Blocks, F: seq<int>, brk: int, size: int, g: Heap)
    requires GivenBack(B[brk := Block(size, false)], F, brk, brk + size, g) && brk !in B && 0 < size
    requires forall c {:trigger B[c]} :: c in B ==> 0 < B[c].size && c + B[c].size <= brk
    ensures GivenBack(B, F, brk, brk + size, g)
  {
    hide Minus;
    var C := B[brk := Block(size, false)];
    var l := g.free[0];
    var r := l + g.blocks[l].size;
    forall c {:trigger B[c]} | c in B ensures c != brk && C[c] == B[c] { }
    forall c {:trigger c in g.blocks} {:trigger c in B} | c != l
      ensures (c in g.blocks <==> c in B && (c < l || r <= c)) && (c in g.blocks ==> c in B && g.blocks[c] == B[c])
    {
      assert c in C <==> c in B || c == brk;
      if l in B { assert 0 < B[l].size; }
      if brk + size in B { assert 0 < B[brk + size].size; }
    }
  }

  // ---------- mm_malloc ----------

  /** The adjusted size is the least that a block may have for this request, unless 32 bits do not hold
      the sum; then it is the least that any block may have. */
  lemma BlockSizeLeast(size: int, m: int)
    requires IsSizeT(size)
    ensures size > SIZE_T_MOD - 16 ==> BlockSize(size) == 24
    ensures size <= SIZE_T_MOD - 16 && Aligned(m) && m >= 24 && m >= size + 8 ==> BlockSize(size) <= m
  {
  }

  /** extend_heap is asked for what is needed and, in mm_freeList.c, for 4096 bytes at least. */
  lemma Growth(c: Build, n: int)
    requires MIN_BLOCKSIZE <= n && Aligned(n)
    ensures c.GrowBytes(n) == if c.FreeList? && n < 4096 then 4096 else n
  {
    GrowBytesFit(c, n);
  }

  /** A free block of s bytes at r is used for n bytes: the rest is split off if a block can be made of
      it, and is then first on the list. */
  ghost predicate Used(h: Heap, r: int, s: int, n: int, g: Heap) {
    && Live(g) == Live(h)[r := if s - n >= 24 then n else s]
    && g.free == (if s - n >= 24 then [r + n] else []) + Minus(h.free, r)
    && g.brk == h.brk
  }

  lemma PlaceUses(h: Heap, r: int, n: int)
    requires Placeable(h, r, n)
    ensures Used(h, r, h.blocks[r].size, n, Place(h, r, n))
  {
    hide InvBut, Coalesce, Minus, Live, Aligned, Divided;
    PlaceLive(h, r, n);
    if h.blocks[r].size - n >= MIN_BLOCKSIZE {
      PlaceSplits(h, r, n);
    }
  }

  /** r is the first on the free list that has n bytes. */
  ghost predicate FirstOnList(h: Heap, r: int, n: int) {
    exists j {:trigger h.free[j]} :: 0 <= j < |h.free| && r == h.free[j] && r in h.blocks && n <= h.blocks[r].size
      && (forall k {:trigger h.free[k]} :: 0 <= k < j ==> h.free[k] in h.blocks && h.blocks[h.free[k]].size < n)
  }

  /** What mm_malloc does with a positive size.  If a free block fits, the first on the list that does is
      used; if none fits and the storage holds the extension, the free space that then ends at the break
      is used; else nothing happens. */
  lemma MallocOutcome(c: Build, h: Heap, size: int)
    requires Inv(h) && IsSizeT(size) && size != 0
    ensures var (g, r) := Malloc(c, h, size); var n := BlockSize(size);
      var grow := if c.FreeList? && n < 4096 then 4096 else n;
      if exists b {:trigger h.blocks[b]} :: b in h.blocks && !h.blocks[b].alloc && n <= h.blocks[b].size then
        && r in h.blocks && Used(h, r, h.blocks[r].size, n, g)
        && FirstOnList(h, r, n)
      else if h.brk + grow <= MAX_HEAP then
        && (if r == h.brk then NoFreeEnding(h.blocks, h.brk)
            else r in h.blocks && !h.blocks[r].alloc && r + h.blocks[r].size == h.brk)
        && Used(h.(brk := h.brk + grow), r, h.brk + grow - r, n, g)
      else r == NULL && g == h
  {
    hide InvBut, Aligned, Place, Coalesce, Extend, BlockSize, FitFrom, Used, Placeable, GivenBack, NoFreeEnding;
    var n := BlockSize(size);
    BlockSizeAligned(size);
    FirstFitComplete(h, n);
    FirstFit(h, n, 0);
    InvOnBlocks(h);
    MallocFits(h, n);
    Growth(c, n);
    GrowBytesFit(c, n);
    var bp := FitFrom(h.blocks, h.free, n, 0);
    assert bp == NULL <==> !SomeFit(h.blocks, n);
    if bp != NULL {
      PlaceUses(h, bp, n);
    } else if h.brk + c.GrowBytes(n) <= MAX_HEAP {
      ExtensionUsed(h, c.GrowBytes(n), n);
    }
  }

  lemma ExtensionUsed(h: Heap, grow: int, n: int)
    requires CanGrow(h, grow) && MIN_BLOCKSIZE <= n <= grow && Aligned(n)
    ensures var e := Extend(h, grow); var r := e.free[0];
      && (if r == h.brk then NoFreeEnding(h.blocks, h.brk)
          else r in h.blocks && !h.blocks[r].alloc && r + h.blocks[r].size == h.brk)
      && Used(h.(brk := h.brk + grow), r, h.brk + grow - r, n, Place(e, r, n))
  {
    hide InvBut, Aligned, Place, Coalesce, Extend, Live, Minus, NoFreeEnding, SameBeyond, Placeable;
    var e := Extend(h, grow);
    ExtendFits(h, grow, n);
    ExtendLive(h, grow);
    ExtendGivesBack(h, grow);
    NothingBeyond(h, grow);
    PlaceUses(e, e.free[0], n);
    SameLive(h, grow);
    var r, f := e.free[0], e.free;
    assert f == [r] + f[1..];
    MinusHead(r, f[1..]);
    MinusAbsent(h.free, h.brk + grow);
    MinusSubset(h.free, r, h.brk + grow);
    MinusAbsent(Minus(h.free, r), h.brk + grow);
  }

  lemma MinusHead(x: int, s: seq<int>)
    ensures Minus([x] + s, x) == s
  {
  }

  lemma SameLive(h: Heap, grow: int)
    ensures Live(h.(brk := h.brk + grow)) == Live(h)
  {
  }

  lemma NothingBeyond(h: Heap, grow: int)
    requires InvBut(h, NULL) && MIN_BLOCKSIZE <= grow
    ensures h.brk + grow !in h.blocks && h.brk + grow !in h.free
  {
    hide Closed, Apart, Aligned, Distinct, NoFreePair;
    if h.brk + grow in h.blocks { InsideHeap(h.blocks, h.brk, h.brk + grow); }
  }

  // ---------- mm_realloc ----------

  /** mm_malloc can serve n bytes. */
  ghost predicate Servable(c: Build, h: Heap, n: int) {
    || (exists b {:trigger h.blocks[b]} :: b in h.blocks && !h.blocks[b].alloc && n <= h.blocks[b].size)
    || h.brk + (if c.FreeList? && n < 4096 then 4096 else n) <= MAX_HEAP
  }

  /** Of a null pointer: mm_malloc, or nothing for size 0. */
  lemma ReallocOfNull(c: Build, h: Heap, size: int)
    requires Inv(h) && IsSizeT(size)
    ensures var (g, r) := Realloc(c, h, NULL, size); var n := BlockSize(size);
      && (size == 0 ==> r == NULL && g == h)
      && (size != 0 ==> (g, r) == Malloc(c, h, size) && (r != NULL <==> Servable(c, h, n)))
      && (r == NULL ==> g == h)
      && (r != NULL ==> r !in Live(h) && r in Live(g) && Live(g) == Live(h)[r := Live(g)[r]])
      && (r != NULL ==> n <= Live(g)[r] < n + 24)
  {
    hide InvBut, Malloc, Aligned, Live, BlockSize;
    BlockSizeAligned(size);
    MallocLive(c, h, size);
    if size != 0 { MallocServes(c, h, size); }
  }

  lemma MallocServes(c: Build, h: Heap, size: int)
    requires Inv(h) && IsSizeT(size) && size != 0
    ensures Malloc(c, h, size).1 != NULL <==> Servable(c, h, BlockSize(size))
  {
    hide InvBut, Malloc, Aligned, BlockSize;
    MallocComplete(c, h, size);
    BlockSizeAligned(size);
    Growth(c, BlockSize(size));
  }

  /** Of a block that is large enough: it stays where it is and nothing moves the break; what is left over
      is given back if it is more than 24 bytes, and else stays with the block. */
  lemma ReallocShrinks(c: Build, h: Heap, p: int, size: int)
    requires Inv(h) && IsSizeT(size) && size != 0 && p in Live(h) && BlockSize(size) <= Live(h)[p]
    ensures var (g, r) := Realloc(c, h, p, size); var n, s := BlockSize(size), Live(h)[p];
      && r == p && g.brk == h.brk && p in Live(g) && n <= Live(g)[p] <= n + 24
      && (s - n <= 24 ==> g == h)
      && (s - n > 24 ==> Live(g) == Live(h)[p := n]
                         && GivenBack(h.blocks[p := Block(n, true)], h.free, p + n, p + s, g))
  {
    hide InvBut, Malloc, Aligned, Live, BlockSize, Release, Cut, GivenBack;
    var n, s := BlockSize(size), Live(h)[p];
    BlockSizeAligned(size);
    BlockOf(h, p);
    if s - n > 24 { CutGivesBack(h, p, n); }
  }

  lemma BlockOf(h: Heap, p: int)
    requires Inv(h) && p in Live(h)
    ensures p in h.blocks && h.blocks[p] == Block(Live(h)[p], true) && p != NULL
  {
    hide InvBut;
    InvParts(h);
    BlockBounds(h.blocks, h.brk, p);
  }

  lemma CutGivesBack(h: Heap, p: int, n: int)
    requires Cuttable(h, p, n)
    ensures var s := h.blocks[p].size; var g := Release(Cut(h, p, n), p + n);
      && Live(g) == Live(h)[p := n] && g.brk == h.brk
      && GivenBack(h.blocks[p := Block(n, true)], h.free, p + n, p + s, g)
  {
    hide InvBut, Live, Release, Aligned, GivenBack;
    var m, s := Cut(h, p, n), h.blocks[p].size;
    CutKeeps(h, p, n);
    CutTilesParts(h, p, n);
    ReleaseLive(m, p + n);
    CutLive(Live(h), p, n, s - n);
    ReleaseGivesBack(m, p + n);
    InvParts(h);
    var B := h.blocks[p := Block(n, true)];
    forall c {:trigger B[c]} | c in B ensures 0 < B[c].size {
      if c != p { BlockBounds(h.blocks, h.brk, c); }
    }
    GivenBackPart(B, h.free, p + n, s - n, Release(m, p + n));
  }

  /** It does not matter that the blocks named the space given back. */
  lemma GivenBackPart(B: Blocks, F: seq<int>, q: int, size: int, g: Heap)
    requires GivenBack(B[q := Block(size, true)], F, q, q + size, g) && q !in B && 0 < size
    requires forall c {:trigger B[c]} :: c in B ==> 0 < B[c].size
    ensures GivenBack(B, F, q, q + size, g)
  {
    hide Minus;
    var C := B[q := Block(size, true)];
    var l := g.free[0];
    var r := l + g.blocks[l].size;
    forall c {:trigger B[c]} | c in B ensures c != q && C[c] == B[c] { }
    forall c {:trigger c in g.blocks} {:trigger c in B} | c != l
      ensures (c in g.blocks <==> c in B && (c < l || r <= c)) && (c in g.blocks ==> c in B && g.blocks[c] == B[c])
    {
      assert c in C <==> c in B || c == q;
      if l in B { assert 0 < B[l].size; }
      if q + size in B { assert 0 < B[q + size].size; }
    }
  }

  lemma CutTilesParts(h: Heap, p: int, n: int)
    requires Cuttable(h, p, n)
    ensures var m, s := Cut(h, p, n), h.blocks[p].size;
      && p + n !in h.blocks && n < s && m.free == h.free && m.brk == h.brk
      && m.blocks == h.blocks[p := Block(n, true)][p + n := Block(s - n, true)]
      && Live(m) == Live(h)[p := n][p + n := s - n] && p + n !in Live(h)
  {
    hide Tiling, Distinct, FreeIs, NoFreePair, Aligned;
    InvParts(h);
    DividedTiles(h.blocks, h.brk, p, n);
  }

  /** Of a block that is too small: a new block from mm_malloc, after which the old one is given back; when
      mm_malloc finds none, nothing happens. */
  lemma ReallocGrows(c: Build, h: Heap, p: int, size: int)
    requires Inv(h) && IsSizeT(size) && size != 0 && p in Live(h) && BlockSize(size) > Live(h)[p]
    ensures var (g, r) := Realloc(c, h, p, size); var n, s := BlockSize(size), Live(h)[p];
      var (m, q) := Malloc(c, h, size);
      && r == q && (r != NULL <==> Servable(c, h, n)) && (r == NULL ==> g == h)
      && (r != NULL ==> r != p && r !in Live(h) && g.brk == m.brk && GivenBack(m.blocks, m.free, p, p + s, g))
      && (r != NULL ==> r in Live(g) && Live(g) == (Live(h) - {p})[r := Live(g)[r]] && n <= Live(g)[r] < n + 24)
  {
    hide InvBut, Malloc, Aligned, Live, BlockSize, Release, GivenBack, Servable;
    var (m, q) := Malloc(c, h, size);
    BlockSizeAligned(size);
    MallocServes(c, h, size);
    MallocKeeps(c, h, size);
    MallocLive(c, h, size);
    BlockOf(h, p);
    if q != NULL {
      BlockOf(m, p);
      ReleaseLive(m, p);
      ReleaseGivesBack(m, p);
      Moved(Live(h), p, q, Live(m)[q]);
    }
  }

  lemma Moved(L: map<int, int>, p: int, q: int, k: int)
    requires p in L && q !in L
    ensures L[q := k] - {p} == (L - {p})[q := k]
  {
  }

  /** To size 0: the block is freed. */
  lemma ReallocFrees(c: Build, h: Heap, p: int)
    requires Inv(h) && p in Live(h)
    ensures var (g, r) := Realloc(c, h, p, 0);
      r == NULL && Live(g) == Live(h) - {p} && g.brk == h.brk && GivenBack(h.blocks, h.free, p, p + Live(h)[p], g)
  {
    hide InvBut, Live, Release, GivenBack;
    BlockOf(h, p);
    ReleaseLive(h, p);
    ReleaseGivesBack(h, p);
  }
}
