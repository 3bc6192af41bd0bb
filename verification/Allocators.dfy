/** The explicit-free-list allocator over its simulated memory. */
module Allocators {
  import opened Sequences
  import opened HeapShape
  import opened HeapSpec
  import opened HeapSafety
  import opened HeapTheorems
  import opened HeapMemory
  import opened Words

  // ---------- mem_sbrk's test ----------

  /** Storage of MAX_HEAP bytes at an aligned address, inside the 32-bit address space. */
  predicate InSpace(base: int) {
    0 < base && Aligned(base) && base + MAX_HEAP < SIZE_T_MOD
  }

  /** mem_brk + incr, in 32-bit pointers. */
  function Moved(base: int, brk: int, incr: int): int { (base + brk + incr) % SIZE_T_MOD }

  predicate Refused(base: int, brk: int, incr: int) {
    incr < 0 || Moved(base, brk, incr) > base + MAX_HEAP
  }

  /** For a positive int the test refuses exactly what the storage cannot hold if and only if the sum
      does not wrap; a sum that wraps is never refused. */
  lemma BreakTest(base: int, brk: int, incr: int)
    requires InSpace(base) && 0 <= brk <= MAX_HEAP && incr < SIZE_T_MOD / 2
    ensures 0 <= incr ==> ((Refused(base, brk, incr) <==> brk + incr > MAX_HEAP) <==> base + brk + incr < SIZE_T_MOD)
    ensures 0 <= incr && base + brk + incr >= SIZE_T_MOD ==>
      !Refused(base, brk, incr) && Moved(base, brk, incr) == base + brk + incr - SIZE_T_MOD < base
    ensures 0 <= incr && base + brk + incr < SIZE_T_MOD ==> Moved(base, brk, incr) == base + brk + incr
  {
  }

  /** From storage at 0xF0000000, a request for 256 MB is let pass. */
  lemma BreakTestPasses()
    ensures InSpace(0xF000_0000) && !Refused(0xF000_0000, 0, 0x1000_0000) && 0x1000_0000 > MAX_HEAP
  {
  }

  lemma ConstantsAligned()
    ensures WordAligned(0) && WordAligned(WSIZE) && WordAligned(DSIZE) && WordAligned(DSIZE + WSIZE)
    ensures WordAligned(MIN_BLOCKSIZE) && WordAligned(WSIZE + MIN_BLOCKSIZE)
  {
  }

  /** The words of the prologue, and what they leave left of the first block. */
  lemma PrologueWritten(m: seq<Word>)
    requires |m| == MAX_HEAP
    ensures var w := m[0 := 0][WSIZE := Pack(MIN_BLOCKSIZE, 1)][DSIZE := 0][DSIZE + WSIZE := 0]
        [MIN_BLOCKSIZE := Pack(MIN_BLOCKSIZE, 1)][WSIZE + MIN_BLOCKSIZE := Pack(0, 1)];
      && |w| == MAX_HEAP && At(w, PROLOGUE) == NULL && At(w, PROLOGUE - WSIZE) == Pack(MIN_BLOCKSIZE, 1)
      && At(w, PROLOGUE + MIN_BLOCKSIZE - DSIZE) == Pack(MIN_BLOCKSIZE, 1)
      && At(w, FIRST - DSIZE) == At(m, FIRST - DSIZE)
  {
  }

  /** The statics of memlib.c and of the allocator. */
  class Allocator {
    const build: Build
    const base: int            // mem_start_brk; every other address is an offset from it
    const words: array<Word>   // the storage from mem_start_brk to mem_max_addr
    var brk: int               // mem_brk
    var start: int             // head of the free list

    ghost var mem: seq<Word>   // the storage by byte address
    ghost var heap: Heap       // the blocks and the free list that the storage represents

    ghost predicate Backed()
      reads `mem, `brk, words
    {
      && |mem| == MAX_HEAP && words.Length * WSIZE == MAX_HEAP
      && (forall i {:trigger words[i]} :: 0 <= i < words.Length ==> words[i] == mem[i * WSIZE])
      && 0 <= brk <= MAX_HEAP && InSpace(base)
    }

    /** mem_init, when its malloc succeeds at address base: storage of which nothing is in use.  That it
        is zeroed is an assumption here; malloc leaves its contents open. */
    constructor (build: Build, base: int)
      requires InSpace(base)
      ensures this.build == build && this.base == base && fresh(words)
      ensures Backed() && brk == 0 && SizeOf(At(mem, FIRST - DSIZE)) == 0
    {
      this.build := build;
      this.base := base;
      words := new Word[MAX_HEAP / WSIZE](_ => 0);
      brk := 0;
      start := NULL;
      mem := seq(MAX_HEAP, _ => 0);
      heap := Heap(map[], [], 0);
    }

    /** mem_reset_brk */
    method ResetBrk()
      requires Backed()
      modifies `brk
      ensures Backed() && brk == 0
    {
      brk := 0;
    }

    /** GET: a word inside the heap. */
    function Get(p: int): (w: Word)
      requires Backed() && WordAligned(p) && 0 <= p && p + WSIZE <= brk
      reads `mem, `brk, words
      ensures w == At(mem, p)
    {
      words[p / WSIZE]
    }

    method Put(p: int, v: Word)
      requires Backed() && WordAligned(p) && 0 <= p && p + WSIZE <= brk
      modifies words, `mem
      ensures Backed() && mem == old(mem)[p := v]
    {
      words[p / WSIZE] := v;
      mem := mem[p := v];
    }

    /** mem_sbrk; -1 when the storage is exhausted.  The argument is an int.  When the sum of break and
        increment wraps, the test lets the increment pass and the break leaves the storage. */
    method Sbrk(incr: int) returns (old_brk: int)
      requires Backed() && -(SIZE_T_MOD / 2) <= incr < SIZE_T_MOD / 2
      modifies `brk
      ensures base + old(brk) + incr < SIZE_T_MOD ==> Backed()
      ensures if base + old(brk) + incr >= SIZE_T_MOD
        then old_brk == old(brk) && brk == old(brk) + incr - SIZE_T_MOD < 0
        else if 0 <= incr && old(brk) + incr <= MAX_HEAP
        then old_brk == old(brk) && brk == old(brk) + incr
        else old_brk == -1 && brk == old(brk)
    {
      BreakTest(base, brk, incr);
      old_brk := brk;
      if Refused(base, brk, incr) {
        return -1;
      }
      brk := Moved(base, brk, incr) - base;
    }

    lemma BreakInside()
      requires Backed()
      ensures 0 <= brk <= MAX_HEAP == |mem| && InSpace(base)
    {
    }

    /** If mm_malloc has to extend the heap for this size now, mem_sbrk's sum does not wrap. */
    ghost predicate CanAsk(size: int)
      reads `heap, `brk
    {
      var bytes := build.GrowBytes(BlockSize(size));
      size == 0 || SomeFit(heap.blocks, BlockSize(size)) || ToInt(bytes) < 0 || base + brk + bytes < SIZE_T_MOD
    }

    /** Nor does it wrap at any other time. */
    predicate Askable(size: int) {
      var bytes := build.GrowBytes(BlockSize(size));
      ToInt(bytes) < 0 || base + MAX_HEAP + bytes < SIZE_T_MOD
    }

    lemma AskableNow(size: int)
      requires Backed() && Askable(size)
      ensures CanAsk(size)
    {
      hide BlockSize, SomeFit;
    }

    /** The conversion of a size_t argument to int. */
    static function ToInt(n: int): int {
      if n < SIZE_T_MOD / 2 then n else n - SIZE_T_MOD
    }

    // ---------- Block arithmetic ----------

    /** HDRP */
    function Header(bp: int): int { bp - WSIZE }

    ghost predicate HasHeader(bp: int)
      reads `mem, `brk, words
    {
      Backed() && Aligned(bp) && DSIZE <= bp <= brk
    }

    /** FTRP */
    function Footer(bp: int): (f: int)
      requires HasHeader(bp)
      reads `mem, `brk, words
      ensures f == bp + SizeOf(At(mem, bp - WSIZE)) - DSIZE
    {
      hide Aligned, WordAligned;
      AlignedWords(bp);
      bp + SizeOf(Get(Header(bp))) - DSIZE
    }

    /** RIGHT_BLKP */
    function RightBlock(bp: int): (r: int)
      requires HasHeader(bp)
      reads `mem, `brk, words
      ensures r == bp + SizeOf(At(mem, bp - WSIZE))
    {
      hide Aligned, WordAligned;
      AlignedWords(bp);
      bp + SizeOf(Get(Header(bp)))
    }

    /** LEFT_BLKP */
    function LeftBlock(bp: int): (l: int)
      requires HasHeader(bp)
      reads `mem, `brk, words
      ensures l == bp - SizeOf(At(mem, bp - DSIZE))
    {
      hide Aligned, WordAligned;
      AlignedWords(bp);
      bp - SizeOf(Get(Header(bp) - WSIZE))
    }

    /** Header, then footer: the footer's place follows from the size just written. */
    method WriteTags(bp: int, size: int, alloc: int)
      requires HasHeader(bp) && Aligned(size) && MIN_BLOCKSIZE <= size && bp + size <= brk && 0 <= alloc <= 1
      modifies words, `mem
      ensures Backed() && mem == TagsWritten(old(mem), bp, size, Pack(size, alloc))
    {
      hide Aligned, WordAligned, Backed, SizeOf, Pack, At;
      BreakInside();
      AlignedWords(bp);
      AlignedSum(bp, size);
      AlignedWords(bp + size);
      PackedSize(size, alloc);
      WordWritten(mem, bp - WSIZE, Pack(size, alloc));
      Put(Header(bp), Pack(size, alloc));
      Put(Footer(bp), Pack(size, alloc));
    }

    // ---------- The free list ----------

    /** Memory, list head and break represent heap; the tags of block x are exempt. */
    ghost predicate Represents(x: int)
      reads this, words
    {
      Backed() && heap.brk == brk && Rep(mem, start, heap, x) && Listed(heap)
    }

    method InsertBlock(bp: int)
      requires Represents(NULL) && Listed(heap.(free := [bp] + heap.free))
      modifies words, `mem, `start, `heap
      ensures Represents(NULL) && heap == old(heap).(free := [bp] + old(heap).free)
      ensures KeepsLive(old(mem), mem, Live(heap))
    {
      hide Rep, KeepsLive, Get, Backed, Listed, Linked, Aligned, WordAligned;
      ghost var m, h := mem, heap;
      ghost var s := start;
      FirstListed(heap.(free := [bp] + heap.free));
      ReadNode(m, s, h, NULL, 0);
      AlignedWords(bp);
      AlignedWords(start);
      Put(bp + DSIZE, start);
      Put(start, bp);
      Put(bp, NULL);
      start := bp;
      heap := heap.(free := [bp] + heap.free);
      PushedRep(m, s, h, NULL, bp);
    }

    method RemoveBlock(bp: int, ghost x: int)
      requires Represents(x) && bp in heap.free
      modifies words, `mem, `start, `heap
      ensures Represents(x) && heap == old(heap).(free := Minus(old(heap).free, bp))
      ensures KeepsLive(old(mem), mem, Live(heap)) && OnlyLinks(old(mem), mem, heap.blocks)
    {
      hide Rep, KeepsLive, OnlyLinks, Minus, Get, Backed, Listed, Aligned, WordAligned;
      ghost var m, h := mem, heap;
      ghost var s := start;
      ghost var k :| 0 <= k < |heap.free| && heap.free[k] == bp;
      ReadLinks(m, s, h, x, k);
      ListedWithout(h, bp);
      ghost var newer, older := At(mem, bp), At(mem, bp + DSIZE);
      AlignedWords(bp);
      AlignedWords(older);
      if Get(bp) != NULL {
        AlignedWords(newer);
        Put(Get(bp) + DSIZE, Get(bp + DSIZE));
      } else {
        start := Get(bp + DSIZE);
      }
      assert Get(bp) == newer && Get(bp + DSIZE) == older;
      Put(Get(bp + DSIZE), Get(bp));
      heap := heap.(free := Minus(heap.free, bp));
      UnlinkedRep(m, s, h, x, k, newer, older);
    }

    // ---------- coalesce ----------

    /** What coalesce reads around block bp. */
    lemma Surroundings(bp: int)
      requires Represents(NULL) && Pending(heap, bp) && FIRST < brk
      ensures HasHeader(bp) && HasHeader(LeftBlock(bp)) && HasHeader(RightBlock(bp))
      ensures var f := Footer(LeftBlock(bp)); WordAligned(f) && 0 <= f && f + WSIZE <= brk
      ensures RightBlock(bp) == bp + heap.blocks[bp].size && SizeOf(At(mem, bp - WSIZE)) == heap.blocks[bp].size
      ensures IsAlloc(At(mem, RightBlock(bp) - WSIZE)) <==> !FreeRight(heap.blocks, bp)
      ensures (IsAlloc(At(mem, Footer(LeftBlock(bp)))) || LeftBlock(bp) == bp) <==> FreeLeft(heap.blocks, bp) == bp
      ensures FreeLeft(heap.blocks, bp) != bp ==> LeftBlock(bp) == FreeLeft(heap.blocks, bp)
    {
      hide Sized, Closed, Apart, Rep, Listed, FreeIs, NoFreePair, Distinct, FreeLeft, SizeOf, IsAlloc, Tag, Aligned,
        WordAligned, At, FreeRight, Get;
      LeftReads(mem, start, heap, bp);
      RightReads(mem, start, heap, bp);
      AlignedWords(Footer(LeftBlock(bp)));
    }

    /** The sizes of the block and its free neighbours, and where those are. */
    lemma NeighbourSizes(bp: int)
      requires Represents(NULL) && bp in heap.blocks
      ensures HasHeader(bp) && WordAligned(bp - WSIZE) && RightBlock(bp) == bp + heap.blocks[bp].size
      ensures SizeOf(At(mem, bp - WSIZE)) == heap.blocks[bp].size
      ensures var r := bp + heap.blocks[bp].size;
        && HasHeader(r) && WordAligned(r - WSIZE)
        && (r in heap.blocks ==> SizeOf(At(mem, r - WSIZE)) == heap.blocks[r].size)
      ensures var l := FreeLeft(heap.blocks, bp);
        && l in heap.blocks
        && (l != bp ==> LeftBlock(bp) == l && HasHeader(l) && WordAligned(l - WSIZE))
        && (l != bp ==> SizeOf(At(mem, l - WSIZE)) == heap.blocks[l].size)
    {
      hide Rep, Listed, FreeLeft, SizeOf, Tag, Aligned, WordAligned, At, Get;
      WithinWhole(heap, bp);
      ReadTags(mem, start, heap, NULL, bp);
      AlignedWords(bp);
      var r, l := bp + heap.blocks[bp].size, FreeLeft(heap.blocks, bp);
      AlignedSum(bp, heap.blocks[bp].size);
      AlignedWords(r);
      if r in heap.blocks { WithinWhole(heap, r); ReadTags(mem, start, heap, NULL, r); }
      if l != bp { WithinWhole(heap, l); ReadTags(mem, start, heap, NULL, l); AlignedWords(l); }
    }

    method CoalesceBlock(bp: int) returns (r: int)
      requires Represents(NULL) && Pending(heap, bp) && FIRST < brk
      modifies words, `mem, `start, `heap
      ensures Represents(NULL) && heap == Coalesce(old(heap), bp) && r == heap.free[0]
      ensures Inv(heap) && KeepsLive(old(mem), mem, Live(old(heap)))
    {
      hide Rep, Listed, KeepsLive, OnlyLinks, Minus, Get, Backed, Coalesce, Joined, Live, InvBut, SizeOf, IsAlloc,
        FreeLeft, Absorbed, At, Aligned, WordAligned;
      ghost var m, h := mem, heap;
      KeepsLiveRefl(m, Live(h));
      Surroundings(bp);
      NeighbourSizes(bp);
      var leftAlloc := IsAlloc(Get(Footer(LeftBlock(bp)))) || LeftBlock(bp) == bp;
      var rightAlloc := IsAlloc(Get(Header(RightBlock(bp))));
      var size := SizeOf(Get(Header(bp)));
      AbsorbedShape(h, bp);
      AbsorbedKeeps(h, bp);
      r := bp;
      if leftAlloc && !rightAlloc {
        size := size + SizeOf(Get(Header(RightBlock(bp))));
        RemoveFreed(RightBlock(bp), m, h);
        MergeTags(r, size, m, h, bp);
      } else if !leftAlloc && rightAlloc {
        size := size + SizeOf(Get(Header(LeftBlock(bp))));
        r := LeftBlock(bp);
        RemoveFreed(r, m, h);
        MergeTags(r, size, m, h, bp);
      } else if !leftAlloc && !rightAlloc {
        RemoveFreed(LeftBlock(bp), m, h);
        NeighbourSizes(bp);
        RemoveFreed(RightBlock(bp), m, h);
        NeighbourSizes(bp);
        size := size + SizeOf(Get(Header(LeftBlock(bp)))) + SizeOf(Get(Header(RightBlock(bp))));
        r := LeftBlock(bp);
        MergeTags(r, size, m, h, bp);
      }
      PendingPushed(heap, r);
      ghost var m1 := mem;
      InsertBlock(r);
      KeepsLiveStep(m, m1, mem, Live(h));
    }

    /** removeBlock inside coalesce. */
    method RemoveFreed(bp: int, ghost m: seq<Word>, ghost h: Heap)
      requires Represents(NULL) && bp in heap.free && heap.blocks == h.blocks && KeepsLive(m, mem, Live(h))
      modifies words, `mem, `start, `heap
      ensures Represents(NULL) && heap == old(heap).(free := Minus(old(heap).free, bp))
      ensures KeepsLive(m, mem, Live(h))
    {
      hide Rep, Listed, KeepsLive, OnlyLinks, Minus, Get, Backed, Live;
      ghost var m1 := mem;
      LiveBlocks(heap, h);
      RemoveBlock(bp, NULL);
      LiveBlocks(heap, h);
      KeepsLiveStep(m, m1, mem, Live(h));
    }

    /** The tags of the merged block, once its free neighbours are off the list. */
    method MergeTags(r: int, size: int, ghost m0: seq<Word>, ghost h: Heap, ghost bp: int)
      requires Represents(NULL) && Pending(h, bp) && FIRST < h.brk
      requires heap == h.(free := Absorbed(h, bp).free) && KeepsLive(m0, mem, Live(h)) && r == FreeLeft(h.blocks, bp)
      requires r in Absorbed(h, bp).blocks && Absorbed(h, bp).blocks[r] == Block(size, false)
      modifies words, `mem, `heap
      ensures Represents(NULL) && heap == Absorbed(h, bp) && Pending(heap, r)
      ensures KeepsLive(m0, mem, Live(h))
    {
      hide Rep, Listed, KeepsLive, Get, Backed, Live, InvBut, FreeLeft, Absorbed, At, Aligned, WordAligned;
      ghost var m := mem;
      AbsorbedKeeps(h, bp);
      AbsorbedRep(m, start, h, bp);
      AbsorbedBrk(h, bp);
      heap := Absorbed(h, bp);
      PendingListed(heap, r);
      WithinWhole(heap, r);
      WriteTags(r, size, 0);
      TagsWrittenRep(m, start, heap, r, r, size, Pack(size, 0));
      RepComplete(mem, start, heap, r);
      KeepsLiveStep(m0, m, mem, Live(h));
    }

    // ---------- mm_free ----------

    ghost predicate Valid()
      reads this, words
    {
      Represents(NULL) && Inv(heap)
    }

    /** mm_free; the footer of the block may be stale, mm_realloc frees a block it has just split off. */
    method Free(bp: int)
      requires Represents(bp) && Inv(heap) && bp in heap.blocks && heap.blocks[bp].alloc
      requires At(mem, bp - WSIZE) == Tag(heap.blocks[bp])
      modifies words, `mem, `start, `heap
      ensures Valid() && heap == Release(old(heap), bp)
      ensures KeepsLive(old(mem), mem, Live(old(heap)) - {bp})
    {
      hide Rep, Listed, KeepsLive, Get, Backed, Live, InvBut, SizeOf, At, Aligned, WordAligned, Coalesce, Tag, Retagged,
        TagsWritten, Tiling;
      ghost var m, h := mem, heap;
      FreedHeader(m, start, h, bp);
      WithinWhole(h, bp);
      AlignedWords(bp);
      FreedTags(m, start, h, bp);
      var size := SizeOf(Get(Header(bp)));
      WriteTags(bp, size, 0);
      heap := h.(blocks := Retagged(h.blocks, bp, false));
      ghost var m1 := mem;
      var _ := CoalesceBlock(bp);
      InvListed(heap);
      KeepsLiveStep(m, m1, mem, Live(h) - {bp});
    }

    // ---------- mm_malloc ----------

    method FindFreeBlock(asize: int) returns (bp: int)
      requires Valid()
      ensures OnBlocks(heap.blocks, heap.free) && bp == FitFrom(heap.blocks, heap.free, asize, 0)
    {
      hide Rep, Listed, Get, Backed, InvBut, SizeOf, IsAlloc, At, Aligned, WordAligned, Tag, Live, Linked, Node;
      InvListed(heap);
      bp := start;
      ghost var i := 0;
      ListTags(mem, start, heap, 0);
      while !IsAlloc(Get(Header(bp)))
        invariant 0 <= i <= |heap.free| && bp == Node(heap.free, i)
        invariant WordAligned(bp - WSIZE) && WSIZE <= bp <= brk
        invariant IsAlloc(At(mem, bp - WSIZE)) <==> i == |heap.free|
        invariant FitFrom(heap.blocks, heap.free, asize, 0) == FitFrom(heap.blocks, heap.free, asize, i)
        decreases |heap.free| - i
      {
        ListTags(mem, start, heap, i);
        var size := SizeOf(Get(Header(bp)));
        if asize <= size {
          return bp;
        }
        bp := Get(bp + DSIZE);
        i := i + 1;
        ListTags(mem, start, heap, i);
      }
      return NULL;
    }

    /** removeBlock inside place, which has already written the allocated tags of the first n bytes. */
    method RemovePlaced(bp: int, ghost n: int, ghost m: seq<Word>, ghost h: Heap)
      requires Represents(bp) && heap == h && Placeable(h, bp, n) && KeepsLive(m, mem, Live(h))
      modifies words, `mem, `start, `heap
      ensures Represents(bp) && heap == h.(free := Minus(h.free, bp)) && KeepsLive(m, mem, Live(h))
      ensures At(mem, bp - WSIZE) == At(old(mem), bp - WSIZE)
      ensures At(mem, bp + n - DSIZE) == At(old(mem), bp + n - DSIZE)
      ensures At(mem, bp + h.blocks[bp].size - DSIZE) == At(old(mem), bp + h.blocks[bp].size - DSIZE)
    {
      hide Rep, KeepsLive, Get, Backed, Live, InvBut, At, Aligned, Sized, Closed, Apart, Distinct, OnBlocks, Minus,
        IsLink;
      ghost var m1 := mem;
      RemoveBlock(bp, bp);
      LiveBlocks(heap, h);
      KeepsLiveStep(m, m1, mem, Live(h));
      TagsAreNotLinks(h.blocks, h.brk, bp, n);
      TagsAreNotLinks(h.blocks, h.brk, bp, h.blocks[bp].size);
    }

    method PlaceBlock(bp: int, asize: int)
      requires Represents(NULL) && Placeable(heap, bp, asize)
      modifies words, `mem, `start, `heap
      ensures Valid() && heap == Place(old(heap), bp, asize)
      ensures KeepsLive(old(mem), mem, Live(old(heap)))
    {
      hide Rep, Listed, KeepsLive, Get, Backed, Live, InvBut, SizeOf, At, Aligned, WordAligned, Coalesce, Retagged,
        Carved, TagsWritten, Tiling, Minus, IsLink, OnlyLinks, Within;
      ghost var m, h := mem, heap;
      PlaceableBlock(h, bp, asize);
      WithinWhole(h, bp);
      ReadBlock(m, start, h, NULL, bp);
      AlignedWords(bp);
      var size := SizeOf(Get(Header(bp)));
      var remblockSize := size - asize;
      if remblockSize >= MIN_BLOCKSIZE {
        TagsWrittenRep(m, start, h, NULL, bp, asize, Pack(asize, 1));
        WriteTags(bp, asize, 1);
        RemovePlaced(bp, asize, m, h);
        CarvedRep(mem, start, h, bp, asize);
        heap := Carved(h, bp, asize);
        TagRoundTrip(Block(asize, true));
        PlaceRest(RightBlock(bp), remblockSize, m, h, bp, asize);
      } else {
        TagsWrittenRep(m, start, h, NULL, bp, size, Pack(size, 1));
        WriteTags(bp, size, 1);
        RemovePlaced(bp, asize, m, h);
        WholeRep(mem, start, h, bp, asize);
        heap := Heap(Retagged(h.blocks, bp, true), Minus(h.free, bp), h.brk);
        InvListed(heap);
      }
    }

    /** The free rest of a split block. */
    method PlaceRest(rest: int, size: int, ghost m: seq<Word>, ghost h: Heap, ghost bp: int, ghost n: int)
      requires Represents(rest) && Placeable(h, bp, n) && rest == bp + n
      requires size == h.blocks[bp].size - n >= MIN_BLOCKSIZE
      requires heap == Carved(h, bp, n) && Pending(heap, rest) && heap.blocks[rest] == Block(size, false)
      requires Live(heap) == Live(h)[bp := n] && KeepsLive(m, mem, Live(h))
      modifies words, `mem, `start, `heap
      ensures Valid() && heap == Coalesce(Carved(h, bp, n), rest)
      ensures KeepsLive(m, mem, Live(h))
    {
      hide Rep, Listed, KeepsLive, Get, Backed, Live, InvBut, SizeOf, At, Aligned, WordAligned, Coalesce, Retagged,
        Carved, TagsWritten, Tiling, Minus, IsLink, OnlyLinks, Within;
      ghost var m1, h1 := mem, heap;
      PlaceableBlock(h, bp, n);
      WithinWhole(heap, rest);
      TagsWrittenRep(m1, start, heap, rest, rest, size, Pack(size, 0));
      WriteTags(rest, size, 0);
      RepComplete(mem, start, heap, rest);
      ghost var m2 := mem;
      var _ := CoalesceBlock(rest);
      InvListed(heap);
      FreeNotLive(h, bp, n);
      KeepsLiveStep(m1, m2, mem, Live(h1));
      KeepsLiveShrink(m1, mem, Live(h1), Live(h));
      KeepsLiveStep(m, m1, mem, Live(h));
    }

    /** extend_heap */
    method ExtendHeap(count: int) returns (bp: int)
      requires Represents(NULL) && InvBut(heap, NULL) && 0 <= count
      requires MIN_BLOCKSIZE <= build.ExtendBytes(count) < SIZE_T_MOD && Aligned(build.ExtendBytes(count))
      requires ToInt(build.ExtendBytes(count)) < 0 || base + brk + build.ExtendBytes(count) < SIZE_T_MOD
      modifies words, `mem, `start, `heap, `brk
      ensures if old(brk) + build.ExtendBytes(count) <= MAX_HEAP
        then Valid() && heap == Extend(old(heap), build.ExtendBytes(count)) && bp == heap.free[0]
        else (
          && Represents(NULL) && bp == NULL
          && heap == old(heap) && mem == old(mem) && brk == old(brk) && start == old(start))
      ensures KeepsLive(old(mem), mem, Live(old(heap)))
    {
      hide Rep, Listed, KeepsLive, Get, Live, InvBut, SizeOf, Aligned, WordAligned, Coalesce, Grown, Tiling, Backed;
      ghost var m, h := mem, heap;
      KeepsLiveRefl(m, Live(h));
      InvButListed(h);
      var size;
      if count % 2 == 1 {
        size := (count + 1) * WSIZE;
      } else {
        size := count * WSIZE;
      }
      if build.TestCopy? && size < MIN_BLOCKSIZE {
        size := MIN_BLOCKSIZE;
      }
      assert size == build.ExtendBytes(count);
      BreakInside();
      bp := Sbrk(ToInt(size));
      if bp == -1 {
        return NULL;
      }
      GrownPending(h, size);
      AlignedWords(bp);
      AlignedSum(bp, size);
      AlignedWords(bp + size);
      TagRoundTrip(Block(size, false));
      ZeroAligned();
      TagRoundTrip(Block(0, true));
      WriteTags(bp, size, 0);
      Put(Header(RightBlock(bp)), Pack(0, 1));
      heap := Grown(h, size);
      GrownRep(m, start, h, size, Pack(size, 0), Pack(0, 1));
      ghost var m1 := mem;
      bp := CoalesceBlock(bp);
      InvListed(heap);
      KeepsLiveStep(m, m1, mem, Live(h));
    }

    /** mm_malloc */
    method Malloc(size: int) returns (bp: int)
      requires Valid() && IsSizeT(size) && CanAsk(size)
      modifies words, `mem, `start, `heap, `brk
      ensures Valid() && (heap, bp) == HeapSpec.Malloc(build, old(heap), size)
      ensures KeepsLive(old(mem), mem, Live(old(heap)))
      ensures bp == NULL ==> mem == old(mem) && heap == old(heap) && brk == old(brk) && start == old(start)
    {
      hide Rep, Listed, KeepsLive, Get, Live, InvBut, SizeOf, At, Aligned, WordAligned, Coalesce, Extend, Place,
        SomeFit, FitFrom, Backed, Tiling;
      ghost var m, h := mem, heap;
      KeepsLiveRefl(m, Live(h));
      BlockSizeAligned(size);
      var aligned := (size + 7) % SIZE_T_MOD - (size + 7) % SIZE_T_MOD % 8;
      var newsize := (aligned + DSIZE) % SIZE_T_MOD;
      newsize := if newsize > MIN_BLOCKSIZE then newsize else MIN_BLOCKSIZE;
      MallocFits(h, newsize);
      if size == 0 {
        return NULL;
      }
      bp := FindFreeBlock(newsize);
      if bp != NULL {
        PlaceBlock(bp, newsize);
        return;
      }
      var extendsize := if newsize > build.Chunk() then newsize else build.Chunk();
      GrowBytesFit(build, newsize);
      FirstFitComplete(h, newsize);
      bp := ExtendHeap(extendsize / WSIZE);
      if h.brk + build.GrowBytes(newsize) <= MAX_HEAP { NotNull(heap, bp); }
      if bp == NULL {
        return;
      }
      ExtendFits(h, build.GrowBytes(newsize), newsize);
      ExtendLive(h, build.GrowBytes(newsize));
      ghost var m1 := mem;
      PlaceBlock(bp, newsize);
      KeepsLiveStep(m, m1, mem, Live(h));
    }

    // ---------- mm_init ----------

    /** mm_init, on an empty heap whose word left of the first block still holds no size: nothing here
        writes it, and coalesce reads it. */
    method Init() returns (result: int)
      requires Backed() && brk == 0 && SizeOf(At(mem, FIRST - DSIZE)) == 0
      modifies words, `mem, `start, `heap, `brk
      ensures result == 0 && Valid()
      ensures var n := if build.FreeList? then 32 else 24;
        heap == Heap(map[FIRST := Block(n, false)], [FIRST], FIRST + n)
    {
      hide Get, Backed, Coalesce, InvBut, KeepsLive, Listed, Rep, Base;
      BreakInside();
      var heap_listp := Sbrk(2 * MIN_BLOCKSIZE);
      WritePrologue(heap_listp);
      FirstExtension(build);
      BreakInside();
      var bp := ExtendHeap(build.FirstWords());
      result := if bp == NULL then -1 else 0;
    }

    /** The words that mm_init writes. */
    method WritePrologue(heap_listp: int)
      requires Backed() && heap_listp == 0 && brk == 2 * MIN_BLOCKSIZE && SizeOf(At(mem, FIRST - DSIZE)) == 0
      modifies words, `mem, `start, `heap
      ensures Represents(NULL) && heap == Heap(map[], [], FIRST) && InvBut(heap, NULL)
    {
      hide Get, Backed, Coalesce, InvBut, KeepsLive, Listed, At, SizeOf, Rep, WordAligned;
      ConstantsAligned();
      BreakInside();
      Put(heap_listp, 0);
      Put(heap_listp + WSIZE, Pack(MIN_BLOCKSIZE, 1));
      Put(heap_listp + DSIZE, 0);
      Put(heap_listp + DSIZE + WSIZE, 0);
      Put(heap_listp + MIN_BLOCKSIZE, Pack(MIN_BLOCKSIZE, 1));
      Put(heap_listp + WSIZE + MIN_BLOCKSIZE, Pack(0, 1));
      start := heap_listp + DSIZE;
      heap := Heap(map[], [], FIRST);
      PrologueWritten(old(mem));
      EmptyRep(mem, start);
    }

    // ---------- Live payloads ----------

    /** A client stores a word into a live payload. */
    method Store(ghost b: int, p: int, v: Word)
      requires Valid() && InPayload(Live(heap), b, p) && WordAligned(p)
      modifies words, `mem
      ensures Valid() && KeepsLive(old(mem), mem, Live(heap) - {b})
      ensures forall q {:trigger At(mem, q)} :: At(mem, q) == if q == p then v else At(old(mem), q)
    {
      hide Rep, Listed, KeepsLive, Get, Live, InvBut, Aligned, WordAligned, InPayload;
      PayloadWrittenRep(mem, start, heap, b, p, v);
      PayloadInside(heap, b, p);
      Put(p, v);
    }

    /** A byte of a live payload. */
    method GetByte(ghost b: int, p: int) returns (v: int)
      requires Valid() && b in Live(heap) && b <= p < b + Live(heap)[b] - DSIZE
      ensures v == ByteAt(mem, p)
    {
      hide Rep, Listed, KeepsLive, Get, Live, InvBut, Aligned, At, ByteOf, Backed;
      LiveBounds(heap, b);
      AlignedWords(b);
      ByteInWord(mem, b, p - b);
      ByteInside(b, p);
      v := ByteOf(Get(p - p % WSIZE), p % WSIZE);
    }

    /** memcpy of n bytes into a live payload: whole words, then the low-order bytes of the last one. */
    method Memcpy(dst: int, src: int, n: int)
      requires Valid() && dst in Live(heap) && 0 <= n <= Live(heap)[dst] - DSIZE
      requires Aligned(src) && 0 <= src && src + n <= brk && (src + n <= dst || dst + Live(heap)[dst] <= src)
      modifies words, `mem
      ensures Valid() && KeepsLive(old(mem), mem, Live(heap) - {dst})
      ensures BytesCopied(old(mem), mem, dst, src, n)
    {
      hide Rep, Listed, KeepsLive, Get, Live, InvBut, At, Aligned, WordAligned, Backed, BytesCopied, ByteAt, ByteOf,
        LowBytes;
      LiveBounds(heap, dst);
      AlignedWords(dst);
      AlignedWords(src);
      KeepsLiveRefl(mem, Live(heap) - {dst});
      ZeroAligned();
      AlignedWords(0);
      ghost var m0 := mem;
      var i := 0;
      while i + WSIZE <= n
        invariant 0 <= i <= n && WordAligned(i)
        invariant Valid() && KeepsLive(m0, mem, Live(heap) - {dst})
        invariant forall p {:trigger At(mem, p)} :: p < dst || dst + i <= p ==> At(mem, p) == At(m0, p)
        invariant WordsCopied(m0, mem, dst, src, i)
      {
        WordSum(dst, i);
        WordSum(src, i);
        CopyWord(dst, src, i, Get(src + i), m0);
        WordSum(i, i);
        i := i + WSIZE;
      }
      if i < n {
        CopyTail(dst, src, i, n, m0);
      }
      CopiedBytes(m0, mem, dst, src, i, n);
    }

    /** One whole word. */
    method CopyWord(dst: int, src: int, i: int, w: Word, ghost m0: seq<Word>)
      requires Valid() && dst in Live(heap) && 0 <= i && i + WSIZE <= Live(heap)[dst] - DSIZE
      requires WordAligned(i) && WordAligned(dst + i)
      requires KeepsLive(m0, mem, Live(heap) - {dst}) && w == At(m0, src + i)
      requires WordsCopied(m0, mem, dst, src, i)
      modifies words, `mem
      ensures Valid() && KeepsLive(m0, mem, Live(heap) - {dst})
      ensures forall p {:trigger At(mem, p)} :: p != dst + i ==> At(mem, p) == At(old(mem), p)
      ensures WordsCopied(m0, mem, dst, src, i + WSIZE)
    {
      hide Rep, Listed, KeepsLive, Get, Live, InvBut, Aligned, WordAligned, Backed, WordsCopied;
      ghost var m1 := mem;
      PayloadInside(heap, dst, dst + i);
      InvListed(heap);
      Store(dst, dst + i, w);
      KeepsLiveStep(m0, m1, mem, Live(heap) - {dst});
      NextCopied(m0, m1, mem, dst, src, i);
    }

    /** The bytes that do not fill a word; the rest of the word stays. */
    method CopyTail(dst: int, src: int, i: int, n: int, ghost m0: seq<Word>)
      requires Valid() && dst in Live(heap) && 0 <= i < n < i + WSIZE && n <= Live(heap)[dst] - DSIZE
      requires WordAligned(i) && Aligned(src) && 0 <= src && src + n <= brk && At(mem, src + i) == At(m0, src + i)
      requires KeepsLive(m0, mem, Live(heap) - {dst}) && WordsCopied(m0, mem, dst, src, i)
      modifies words, `mem
      ensures Valid() && KeepsLive(m0, mem, Live(heap) - {dst})
      ensures WordsCopied(m0, mem, dst, src, i)
      ensures forall k {:trigger ByteOf(At(mem, dst + i), k)} :: 0 <= k < n - i ==>
        ByteOf(At(mem, dst + i), k) == ByteOf(At(m0, src + i), k)
    {
      hide Rep, Listed, KeepsLive, Get, Live, InvBut, Aligned, WordAligned, Backed, ByteOf, LowBytes;
      LiveBounds(heap, dst);
      InvButListed(heap);
      AlignedWords(dst);
      AlignedWords(src);
      AlignedWords(brk);
      AlignedSum(dst, Live(heap)[dst]);
      AlignedWords(dst + Live(heap)[dst]);
      WordSum(dst, i);
      WordSum(src, i);
      WordRoom(src + i, brk);
      WordRoom(dst + i, dst + Live(heap)[dst] - DSIZE);
      ghost var m1 := mem;
      ghost var o, v := At(mem, dst + i), At(mem, src + i);
      forall k | 0 <= k < n - i ensures ByteOf(LowBytes(o, v, n - i), k) == ByteOf(v, k) {
        LowBytesOf(o, v, n - i, k);
      }
      Store(dst, dst + i, LowBytes(Get(dst + i), Get(src + i), n - i));
      KeepsLiveStep(m0, m1, mem, Live(heap) - {dst});
    }

    /** memset of n bytes of a live payload. */
    method Memset(dst: int, b: int, n: int)
      requires Valid() && dst in Live(heap) && 0 <= n <= Live(heap)[dst] - DSIZE && IsByte(b)
      modifies words, `mem
      ensures Valid() && KeepsLive(old(mem), mem, Live(heap) - {dst})
      ensures BytesFilled(mem, dst, n, b)
    {
      hide Rep, Listed, KeepsLive, Get, Live, InvBut, At, Aligned, WordAligned, Backed, BytesFilled, ByteAt, ByteOf,
        LowBytes, IsByte, Repeated;
      LiveBounds(heap, dst);
      AlignedWords(dst);
      KeepsLiveRefl(mem, Live(heap) - {dst});
      ZeroAligned();
      AlignedWords(0);
      ghost var m0 := mem;
      var w := Repeated(b);
      var i := 0;
      while i + WSIZE <= n
        invariant 0 <= i <= n && WordAligned(i)
        invariant Valid() && KeepsLive(m0, mem, Live(heap) - {dst})
        invariant WordsFilled(mem, dst, i, w)
      {
        WordSum(dst, i);
        WordSum(i, i);
        FillWord(dst, i, w, m0);
        i := i + WSIZE;
      }
      if i < n {
        FillTail(dst, i, n, w, m0);
      }
      FilledBytes(mem, dst, i, n, w, b);
    }

    /** One whole word. */
    method FillWord(dst: int, i: int, w: Word, ghost m0: seq<Word>)
      requires Valid() && dst in Live(heap) && 0 <= i && i + WSIZE <= Live(heap)[dst] - DSIZE
      requires WordAligned(i) && WordAligned(dst + i)
      requires KeepsLive(m0, mem, Live(heap) - {dst}) && WordsFilled(mem, dst, i, w)
      modifies words, `mem
      ensures Valid() && KeepsLive(m0, mem, Live(heap) - {dst})
      ensures WordsFilled(mem, dst, i + WSIZE, w)
    {
      hide Rep, Listed, KeepsLive, Get, Live, InvBut, Aligned, WordAligned, Backed, WordsFilled;
      ghost var m1 := mem;
      PayloadInside(heap, dst, dst + i);
      InvListed(heap);
      Store(dst, dst + i, w);
      KeepsLiveStep(m0, m1, mem, Live(heap) - {dst});
      NextFilled(m1, mem, dst, i, w);
    }

    /** The bytes that do not fill a word. */
    method FillTail(dst: int, i: int, n: int, w: Word, ghost m0: seq<Word>)
      requires Valid() && dst in Live(heap) && 0 <= i < n < i + WSIZE && n <= Live(heap)[dst] - DSIZE && WordAligned(i)
      requires KeepsLive(m0, mem, Live(heap) - {dst}) && WordsFilled(mem, dst, i, w)
      modifies words, `mem
      ensures Valid() && KeepsLive(m0, mem, Live(heap) - {dst})
      ensures WordsFilled(mem, dst, i, w)
      ensures forall k {:trigger ByteOf(At(mem, dst + i), k)} :: 0 <= k < n - i ==>
        ByteOf(At(mem, dst + i), k) == ByteOf(w, k)
    {
      hide Rep, Listed, KeepsLive, Get, Live, InvBut, Aligned, WordAligned, Backed, ByteOf, LowBytes;
      LiveBounds(heap, dst);
      InvButListed(heap);
      AlignedWords(dst);
      AlignedSum(dst, Live(heap)[dst]);
      AlignedWords(dst + Live(heap)[dst]);
      WordSum(dst, i);
      WordRoom(dst + i, dst + Live(heap)[dst] - DSIZE);
      ghost var m1 := mem;
      ghost var o := At(mem, dst + i);
      forall k | 0 <= k < n - i ensures ByteOf(LowBytes(o, w, n - i), k) == ByteOf(w, k) {
        LowBytesOf(o, w, n - i, k);
      }
      Store(dst, dst + i, LowBytes(Get(dst + i), w, n - i));
      KeepsLiveStep(m0, m1, mem, Live(heap) - {dst});
    }

    // ---------- mm_realloc ----------

    /** The end of mm_realloc's shrinking path. */
    method ShrinkBlock(ptr: int, oldsize: int, size: int)
      requires Valid() && Cuttable(heap, ptr, size) && oldsize == heap.blocks[ptr].size
      modifies words, `mem, `start, `heap
      ensures Valid() && heap == Release(Cut(old(heap), ptr, size), ptr + size)
      ensures Live(heap) == Live(old(heap))[ptr := size] && KeepsLive(old(mem), mem, Live(heap))
    {
      hide Rep, Listed, KeepsLive, Get, Live, InvBut, SizeOf, Aligned, WordAligned, Coalesce, Backed, Tiling, Release,
        Cut, Within;
      ghost var m, h := mem, heap;
      WithinWhole(h, ptr);
      CutKeeps(h, ptr, size);
      InvListed(Cut(h, ptr, size));
      AlignedSum(ptr, size);
      AlignedSum(oldsize, size);
      AlignedWords(ptr + size);
      TagRoundTrip(Block(size, true));
      TagRoundTrip(Block(oldsize - size, true));
      WithinWhole(Cut(h, ptr, size), ptr + size);
      CutRep(m, start, h, ptr, size, Pack(size, 1), Pack(oldsize - size, 1));
      WriteTags(ptr, size, 1);
      Put(Header(RightBlock(ptr)), Pack(oldsize - size, 1));
      heap := Cut(h, ptr, size);
      ghost var m1 := mem;
      Free(RightBlock(ptr));
      ReleaseLive(Cut(h, ptr, size), ptr + size);
      CutLive(Live(h), ptr, size, oldsize - size);
      KeepsLiveStep(m, m1, mem, Live(h)[ptr := size]);
    }

    /** mm_realloc's allocating path. */
    method MoveBlock(ptr: int, oldsize: int, size: int) returns (newptr: int)
      requires Valid() && IsSizeT(size) && CanAsk(size) && ptr in Live(heap)
      requires oldsize == Live(heap)[ptr] < BlockSize(size)
      modifies words, `mem, `start, `heap, `brk
      ensures Valid() && (heap, newptr) == HeapSpec.Realloc(build, old(heap), ptr, size)
      ensures KeepsLive(old(mem), mem, Live(old(heap)) - {ptr})
      ensures newptr == NULL ==> mem == old(mem) && heap == old(heap) && brk == old(brk) && start == old(start)
      ensures newptr != NULL ==>
        newptr in Live(heap) && BytesCopied(old(mem), mem, newptr, ptr, Min(oldsize - DSIZE, size))
      ensures newptr != NULL ==> size <= Live(heap)[newptr] - DSIZE
    {
      hide Rep, Listed, KeepsLive, Get, Live, InvBut, SizeOf, Aligned, WordAligned, Coalesce, Backed, Tiling, Release,
        BytesCopied, HeapSpec.Malloc, At;
      ghost var m, h := mem, heap;
      InvListed(h);
      LiveBounds(h, ptr);
      BlockSizeFits(size);
      KeepsLiveRefl(m, Live(h) - {ptr});
      MallocLive(build, h, size);
      newptr := Malloc(size);
      if newptr == NULL {
        return;
      }
      var n := oldsize;
      if size < oldsize {
        n := size;
      }
      ghost var m1, g, L1 := mem, heap, Live(heap);
      MovePlan(h, heap, ptr, newptr, size);
      LiveBounds(g, newptr);
      LiveBounds(g, ptr);
      Memcpy(newptr, ptr, n);
      ghost var m2 := mem;
      ExemptRep(mem, start, heap, ptr);
      ReadBlock(mem, start, heap, NULL, ptr);
      Free(ptr);
      ReleaseLive(g, ptr);
      MovedBytes(m, m1, m2, mem, Live(h), L1, ptr, newptr, n);
    }

    /** mm_realloc of a block, to a positive size that adjusts to asize. */
    method ResizeBlock(ptr: int, size: int, asize: int) returns (r: int)
      requires Valid() && IsSizeT(size) && CanAsk(size) && ptr in Live(heap) && size != 0 && asize == BlockSize(size)
      modifies words, `mem, `start, `heap, `brk
      ensures Valid() && (heap, r) == HeapSpec.Realloc(build, old(heap), ptr, size)
      ensures KeepsLive(old(mem), mem, Live(old(heap)) - {ptr})
      ensures r == NULL ==> mem == old(mem) && heap == old(heap) && brk == old(brk) && start == old(start)
      ensures r != NULL ==> r in Live(heap) && (size <= SIZE_T_MOD - 16 ==> size <= Live(heap)[r] - DSIZE)
      ensures r != NULL ==>
        BytesCopied(old(mem), mem, r, ptr, Min(Min(Live(old(heap))[ptr], Live(heap)[r]) - DSIZE, size))
    {
      hide Rep, Listed, KeepsLive, Get, Live, InvBut, SizeOf, Aligned, WordAligned, Coalesce, Backed, Tiling, Release,
        BytesCopied, HeapSpec.Malloc, At, BlockSize;
      ghost var m, h := mem, heap;
      InvListed(h);
      BlockSizeAligned(size);
      BlockSizeFits(size);
      KeepsLiveRefl(m, Live(h));
      KeepsLiveRefl(m, Live(h) - {ptr});
      LiveBounds(h, ptr);
      ReadBlock(m, start, h, NULL, ptr);
      AlignedWords(ptr);
      var oldsize := SizeOf(Get(Header(ptr)));
      LiveBytes(m, m, Live(h), ptr);
      if asize == oldsize {
        BytesCopiedPrefix(m, m, ptr, ptr, oldsize - DSIZE, Min(oldsize - DSIZE, size));
        return ptr;
      }
      if asize <= oldsize {
        if oldsize - asize <= MIN_BLOCKSIZE {
          BytesCopiedPrefix(m, m, ptr, ptr, oldsize - DSIZE, Min(oldsize - DSIZE, size));
          return ptr;
        }
        ShrinkBlock(ptr, oldsize, asize);
        KeepsLiveShrink(m, mem, Live(heap), Live(h) - {ptr});
        LiveBytes(m, mem, Live(heap), ptr);
        BytesCopiedPrefix(m, mem, ptr, ptr, asize - DSIZE, Min(asize - DSIZE, size));
        return ptr;
      }
      r := MoveBlock(ptr, oldsize, size);
    }

    /** mm_realloc */
    method Realloc(ptr: int, size: int) returns (r: int)
      requires Valid() && IsSizeT(size) && CanAsk(size) && (ptr == NULL || ptr in Live(heap))
      modifies words, `mem, `start, `heap, `brk
      ensures Valid() && (heap, r) == HeapSpec.Realloc(build, old(heap), ptr, size)
      ensures KeepsLive(old(mem), mem, Live(old(heap)) - {ptr})
      ensures ptr != NULL && size != 0 && r == NULL ==>
        mem == old(mem) && heap == old(heap) && brk == old(brk) && start == old(start)
      ensures r != NULL ==> r in Live(heap)
      ensures ptr != NULL && r != NULL ==>
        BytesCopied(old(mem), mem, r, ptr, Min(Min(Live(old(heap))[ptr], Live(heap)[r]) - DSIZE, size))
      ensures r != NULL ==> (size <= SIZE_T_MOD - 16 ==> size <= Live(heap)[r] - DSIZE)
    {
      hide Rep, Listed, KeepsLive, Get, Live, InvBut, SizeOf, Aligned, WordAligned, Coalesce, Backed, Tiling, Release,
        BytesCopied, HeapSpec.Malloc, At, CanAsk;
      ghost var m, h := mem, heap;
      InvListed(h);
      BlockSizeAligned(size);
      BlockSizeFits(size);
      MallocLive(build, h, size);
      KeepsLiveRefl(m, Live(h));
      KeepsLiveRefl(m, Live(h) - {ptr});
      var aligned := (size + 7) % SIZE_T_MOD - (size + 7) % SIZE_T_MOD % 8;
      var asize := (aligned + DSIZE) % SIZE_T_MOD;
      asize := if asize > MIN_BLOCKSIZE then asize else MIN_BLOCKSIZE;
      if size == 0 {
        if ptr != NULL {
          FreeLive(ptr);
        }
        return NULL;
      }
      if ptr == NULL {
        r := Malloc(size);
        KeepsLiveShrink(m, mem, Live(h), Live(h) - {ptr});
        return;
      }
      r := ResizeBlock(ptr, size, asize);
    }

    /** free of a live block, from any state between two operations. */
    method FreeLive(bp: int)
      requires Valid() && bp in Live(heap)
      modifies words, `mem, `start, `heap
      ensures Valid() && bp in old(heap).blocks && heap == Release(old(heap), bp)
      ensures Live(heap) == Live(old(heap)) - {bp}
      ensures KeepsLive(old(mem), mem, Live(heap))
    {
      hide Rep, Listed, KeepsLive, Get, Live, InvBut, Aligned, Backed, Tiling, Release, At;
      ghost var h := heap;
      LiveBounds(h, bp);
      ExemptRep(mem, start, h, bp);
      ReadBlock(mem, start, h, NULL, bp);
      ReleaseLive(h, bp);
      Free(bp);
    }
  }
}
