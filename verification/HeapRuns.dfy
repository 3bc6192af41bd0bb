/** Whole runs of the allocator: any sequence of requests from a fresh heap. */
module HeapRuns {
  import opened Sequences
  import opened HeapShape
  import opened HeapSpec
  import opened HeapSafety
  import opened HeapTheorems

  datatype Request = Alloc(size: int) | Dealloc(ptr: int) | Resize(ptr: int, size: int)

  /** A heap together with the size each live block was last requested with. */
  datatype State = State(heap: Heap, asked: map<int, int>)

  /** mm_init's heap. */
  ghost function Fresh(c: Build): State {
    var n := if c.FreeList? then 32 else MIN_BLOCKSIZE;
    State(Heap(map[FIRST := Block(n, false)], [FIRST], FIRST + n), map[])
  }

  /** What the allocator demands of its callers: a pointer handed out and not yet freed. */
  ghost predicate Legal(s: State, q: Request) {
    match q
    case Alloc(size) => IsSizeT(size)
    case Dealloc(p) => p in s.asked
    case Resize(p, size) => IsSizeT(size) && (p == NULL || p in s.asked)
  }

  ghost predicate StateInv(s: State) {
    && Inv(s.heap)
    && s.asked.Keys == Live(s.heap).Keys
    && (forall b {:trigger s.asked[b]} :: b in s.asked ==> s.asked[b] <= SIZE_T_MOD - 16 ==>
       s.asked[b] <= Live(s.heap)[b] - DSIZE)
  }

  /** Moves p's entry to r, which holds size bytes now; r == NULL when the request gave nothing. */
  ghost function Reasked(asked: map<int, int>, p: int, r: int, size: int): map<int, int> {
    (asked - {p})[r := size]
  }

  ghost function Step(c: Build, s: State, q: Request): State
    requires StateInv(s) && Legal(s, q)
  {
    match q
    case Alloc(size) =>
      var (h, r) := Malloc(c, s.heap, size);
      State(h, if r == NULL then s.asked else s.asked[r := size])
    case Dealloc(p) =>
      State(Release(s.heap, p), s.asked - {p})
    case Resize(p, size) =>
      var (h, r) := Realloc(c, s.heap, p, size);
      State(h, if size == 0 then s.asked - {p} else if r == NULL then s.asked else Reasked(s.asked, p, r, size))
  }

  lemma AllocStep(c: Build, s: State, size: int)
    requires StateInv(s) && IsSizeT(size)
    ensures StateInv(Step(c, s, Alloc(size)))
  {
    hide InvBut, Malloc, Aligned, Live, BlockSize;
    MallocKeeps(c, s.heap, size);
    MallocLive(c, s.heap, size);
    BlockSizeFits(size);
    NoNullLive(s.heap);
  }

  lemma NoNullLive(h: Heap)
    requires Inv(h)
    ensures NULL !in Live(h)
  {
    hide InvBut;
    NoNullBlock(h);
  }

  lemma DeallocStep(c: Build, s: State, p: int)
    requires StateInv(s) && p in s.asked
    ensures StateInv(Step(c, s, Dealloc(p)))
  {
    hide InvBut, Coalesce, Retagged, Live, Release;
    LiveBlock(s.heap, p);
    ReleaseKeeps(s.heap, p);
    ReleaseInv(s.heap, p);
    ReleaseLive(s.heap, p);
  }

  lemma LiveBlock(h: Heap, b: int)
    requires b in Live(h)
    ensures b in h.blocks && h.blocks[b] == Block(Live(h)[b], true)
  {
  }

  lemma ReleaseInv(h: Heap, p: int)
    requires Inv(h) && p in h.blocks && h.blocks[p].alloc
    ensures Inv(Release(h, p))
  {
    hide InvBut, Coalesce, Retagged;
    ReleaseKeeps(h, p);
  }

  /** mm_realloc gives p's size to the block it returns, and touches no other live block. */
  lemma ReallocKeeps(c: Build, h: Heap, p: int, size: int)
    requires Inv(h) && IsSizeT(size) && (p == NULL || p in Live(h))
    ensures var (h', r) := Realloc(c, h, p, size);
      && Inv(h')
      && (size == 0 ==> Live(h') == Live(h) - {p})
      && (size != 0 && r == NULL ==> h' == h)
      && (size != 0 && r != NULL ==> r in Live(h') && Live(h') == (Live(h) - {p})[r := Live(h')[r]])
      && (size != 0 && r != NULL ==> (r == p || r !in Live(h)) && (size <= SIZE_T_MOD - 16 ==>
         size <= Live(h')[r] - DSIZE))
  {
    hide InvBut, Malloc, Aligned, Live, BlockSize, Release, Cut;
    var n := BlockSize(size);
    NoNullLive(h);
    MallocKeeps(c, h, size);
    MallocLive(c, h, size);
    BlockSizeFits(size);
    BlockSizeAligned(size);
    if p != NULL {
      LiveBlock(h, p);
      ReleaseInv(h, p);
      ReleaseLive(h, p);
      if size != 0 {
        ReallocMoves(c, h, p, size);
      }
    }
  }

  lemma ReallocMoves(c: Build, h: Heap, p: int, size: int)
    requires Inv(h) && IsSizeT(size) && size != 0 && p in Live(h)
    ensures var (h', r) := Realloc(c, h, p, size);
      && Inv(h')
      && (r == NULL ==> h' == h)
      && (r != NULL ==> r in Live(h') && Live(h') == (Live(h) - {p})[r := Live(h')[r]])
      && (r != NULL ==> (r == p || r !in Live(h)) && (size <= SIZE_T_MOD - 16 ==> size <= Live(h')[r] - DSIZE))
  {
    hide InvBut, Malloc, Aligned, Live, BlockSize, Release, Cut;
    var n := BlockSize(size);
    BlockSizeAligned(size);
    BlockSizeFits(size);
    LiveBlock(h, p);
    LiveSize(h, p);
    NoNullLive(h);
    if n == Live(h)[p] || (n < Live(h)[p] && Live(h)[p] - n <= MIN_BLOCKSIZE) {
      MapMove(Live(h), p, p, Live(h)[p]);
    } else if n < Live(h)[p] {
      Shrinks(h, p, n);
      MapMove(Live(h), p, p, n);
    } else {
      Moves(c, h, p, size);
    }
  }

  /** mm_realloc of a live block to a positive size fails only when mm_malloc does. */
  lemma ReallocFails(c: Build, h: Heap, p: int, size: int)
    requires Inv(h) && IsSizeT(size) && size != 0 && p in Live(h) && Realloc(c, h, p, size).1 == NULL
    ensures Malloc(c, h, size).1 == NULL
  {
    hide InvBut, Malloc, Aligned, Live, BlockSize, Release, Cut;
    MallocKeeps(c, h, size);
    MallocLive(c, h, size);
    NoNullLive(h);
    var (g, r) := Malloc(c, h, size);
    if r != NULL { LiveBlock(h, p); LiveBlock(g, p); }
  }

  lemma ReleaseBrk(h: Heap, p: int)
    requires p in h.blocks
    ensures Release(h, p).brk == h.brk
  {
  }

  lemma MallocBrk(c: Build, h: Heap, size: int)
    requires Inv(h) && IsSizeT(size)
    ensures h.brk <= Malloc(c, h, size).0.brk
  {
    hide InvBut, Malloc, Aligned, BlockSize, SomeFit;
    MallocComplete(c, h, size);
    BlockSizeAligned(size);
    GrowBytesFit(c, BlockSize(size));
  }

  /** The break never moves back. */
  lemma ReallocBrk(c: Build, h: Heap, p: int, size: int)
    requires Inv(h) && IsSizeT(size) && (p == NULL || p in Live(h))
    ensures h.brk <= Realloc(c, h, p, size).0.brk
  {
    hide InvBut, Malloc, Aligned, Live, BlockSize, Release, Cut;
    MallocBrk(c, h, size);
    if p != NULL {
      LiveBlock(h, p);
      ReleaseBrk(h, p);
      CutBrk(h, p, BlockSize(size));
      var g := Malloc(c, h, size).0;
      if p in g.blocks { ReleaseBrk(g, p); }
    }
  }

  lemma CutBrk(h: Heap, p: int, n: int)
    requires p in h.blocks
    ensures Cut(h, p, n).brk == h.brk && Release(Cut(h, p, n), p + n).brk == h.brk
  {
    ReleaseBrk(Cut(h, p, n), p + n);
  }

  lemma LiveSize(h: Heap, b: int)
    requires Inv(h) && b in Live(h)
    ensures Aligned(Live(h)[b]) && MIN_BLOCKSIZE <= Live(h)[b]
  {
    hide Closed, Apart, Distinct, FreeIs, NoFreePair;
  }

  lemma MapMove(L: map<int, int>, p: int, r: int, k: int)
    requires p in L
    ensures r == p ==> (L - {p})[r := k] == L[p := k]
    ensures r == p && L[p] == k ==> L[p := k] == L
    ensures r != p ==> L[r := k] - {p} == (L - {p})[r := k]
  {
  }

  lemma Shrinks(h: Heap, p: int, n: int)
    requires Cuttable(h, p, n)
    ensures Inv(Release(Cut(h, p, n), p + n)) && Live(Release(Cut(h, p, n), p + n)) == Live(h)[p := n]
  {
    hide InvBut, Live, Release, Cut, Aligned;
    CutKeeps(h, p, n);
    ReleaseInv(Cut(h, p, n), p + n);
    ReleaseLive(Cut(h, p, n), p + n);
    CutLive(Live(h), p, n, h.blocks[p].size - n);
  }

  lemma Moves(c: Build, h: Heap, p: int, size: int)
    requires Inv(h) && IsSizeT(size) && p in Live(h) && Live(h)[p] < BlockSize(size) && MIN_BLOCKSIZE < BlockSize(size)
    ensures var (g, r) := Malloc(c, h, size);
      && (r == NULL ==> g == h)
      && (r != NULL ==>
          && p in g.blocks && r !in Live(h)
          && Inv(Release(g, p))
          && r in Live(Release(g, p)) && Live(Release(g, p)) == (Live(h) - {p})[r := Live(Release(g, p))[r]]
          && size <= Live(Release(g, p))[r] - DSIZE)
  {
    hide InvBut, Malloc, Aligned, Live, BlockSize, Release;
    var (g, r) := Malloc(c, h, size);
    MallocKeeps(c, h, size);
    MallocLive(c, h, size);
    BlockSizeFits(size);
    if r != NULL {
      LiveBlock(g, p);
      ReleaseInv(g, p);
      ReleaseLive(g, p);
      MapMove(Live(h), p, r, Live(g)[r]);
    }
  }

  // ---------- Runs ----------

  lemma StepKeeps(c: Build, s: State, q: Request)
    requires StateInv(s) && Legal(s, q)
    ensures StateInv(Step(c, s, q))
  {
    hide InvBut, Malloc, Aligned, Live, BlockSize, Release, Realloc;
    match q {
      case Alloc(size) => AllocStep(c, s, size);
      case Dealloc(p) => DeallocStep(c, s, p);
      case Resize(p, size) => ResizeStep(c, s, p, size);
    }
  }

  lemma ResizeStep(c: Build, s: State, p: int, size: int)
    requires StateInv(s) && Legal(s, Resize(p, size))
    ensures StateInv(Step(c, s, Resize(p, size)))
  {
    hide InvBut, Aligned, Live, Realloc;
    ReallocKeeps(c, s.heap, p, size);
    NoNullLive(s.heap);
  }

  /** The state after the requests, if each was legal when it was made. */
  ghost function Run(c: Build, s: State, qs: seq<Request>): (r: Option<State>)
    requires StateInv(s)
    ensures r.Some? ==> StateInv(r.value)
    decreases |qs|
  {
    hide Step, Legal, StateInv;
    if qs == [] then Some(s)
    else if !Legal(s, qs[0]) then None
    else
      StepKeeps(c, s, qs[0]);
      Run(c, Step(c, s, qs[0]), qs[1..])
  }

  datatype Option<T> = None | Some(value: T)

  lemma FreshInv(c: Build)
    ensures StateInv(Fresh(c))
  {
  }

  ghost predicate Safe(s: State) {
    && (forall b {:trigger s.asked[b]} :: b in s.asked ==>
          && b in Live(s.heap) && b % 8 == 0 && FIRST <= b && b + Live(s.heap)[b] <= s.heap.brk
          && (s.asked[b] <= Live(s.heap)[b] - DSIZE <==> s.asked[b] <= SIZE_T_MOD - 16))
    && (forall b, c {:trigger s.asked[b], s.asked[c]} :: b in s.asked && c in s.asked && b < c ==>
          b + Live(s.heap)[b] <= c)
  }

  /** Over every run of legal requests from mm_init, the blocks handed out and not yet freed are
      exactly the live ones; they are 8-aligned, inside the heap, pairwise disjoint, and each has
      room for what was asked exactly when the 32-bit size arithmetic did not wrap. */
  lemma RunsAreSafe(c: Build, qs: seq<Request>)
    ensures StateInv(Fresh(c))
    ensures var r := Run(c, Fresh(c), qs);
      r.Some? ==> Inv(r.value.heap) && r.value.asked.Keys == Live(r.value.heap).Keys && Safe(r.value)
  {
    hide Safe, Step, Legal;
    FreshInv(c);
    var r := Run(c, Fresh(c), qs);
    if r.Some? { StateIsSafe(r.value); }
  }

  lemma StateIsSafe(s: State)
    requires StateInv(s)
    ensures Safe(s)
  {
    hide Closed, Distinct, FreeIs, NoFreePair;
  }

  /** Whatever was done before, once the client has freed every block the heap is one free block of
      everything mm_sbrk gave, less the 48 bytes of mm_init. */
  lemma RunsGiveAllBack(c: Build, qs: seq<Request>)
    ensures StateInv(Fresh(c))
    ensures var r := Run(c, Fresh(c), qs);
      r.Some? && r.value.asked == map[] ==>
        var brk := r.value.heap.brk; r.value.heap == Heap(map[FIRST := Block(brk - FIRST, false)], [FIRST], brk)
  {
    hide Safe, Step, Legal, InvBut, Live;
    FreshInv(c);
    var r := Run(c, Fresh(c), qs);
    if r.Some? && r.value.asked == map[] {
      assert Live(r.value.heap).Keys == {};
      assert Live(r.value.heap) == map[];
      AllFreed(r.value.heap);
    }
  }

  /** On the first heap a request for 2^32 - 8 bytes gets the first block, of 32 bytes or 24. */
  lemma WrappedRequest(c: Build)
    ensures StateInv(Fresh(c))
    ensures var (h, r) := Malloc(c, Fresh(c).heap, SIZE_T_MOD - 8);
      r == FIRST && Live(h) == map[FIRST := if c.FreeList? then 32 else 24]
  {
    var h, n := Fresh(c).heap, if c.FreeList? then 32 else MIN_BLOCKSIZE;
    FreshInv(c);
    assert BlockSize(SIZE_T_MOD - 8) == MIN_BLOCKSIZE;
    assert FitFrom(h.blocks, h.free, MIN_BLOCKSIZE, 0) == FIRST;
    WholeTaken(h, n);
  }

  lemma WholeTaken(h: Heap, n: int)
    requires h == Heap(map[FIRST := Block(n, false)], [FIRST], FIRST + n) && MIN_BLOCKSIZE <= n < 2 * MIN_BLOCKSIZE
    ensures Live(Place(h, FIRST, MIN_BLOCKSIZE)) == map[FIRST := n]
  {
    var g := Place(h, FIRST, MIN_BLOCKSIZE);
    assert g.blocks == map[FIRST := Block(n, true)];
  }
}
