/** What the words of memory say on their own: the blocks met by following header sizes, and the
    list met by following links, are exactly those of the heap that memory represents. */
module HeapDecode {
  import opened Sequences
  import opened HeapShape
  import opened HeapSpec
  import opened HeapTheorems
  import opened HeapMemory
  import opened Words

  /** Blocks from address p up to the break, sizes and allocated bits read from the headers. */
  ghost function ReadBlocks(m: seq<Word>, brk: int, p: int): seq<(int, Block)>
    decreases brk - p
  {
    var w := At(m, p - WSIZE);
    if p >= brk || SizeOf(w) <= 0 then []
    else [(p, Block(SizeOf(w), IsAlloc(w)))] + ReadBlocks(m, brk, p + SizeOf(w))
  }

  /** At most k blocks of the free list from p on, older links read from memory, up to the first
      block whose header says allocated. */
  ghost function ReadList(m: seq<Word>, p: int, k: nat): seq<int>
    decreases k
  {
    if k == 0 || IsAlloc(At(m, p - WSIZE)) then [] else [p] + ReadList(m, At(m, p + DSIZE), k - 1)
  }

  ghost function Labelled(B: Blocks, W: seq<int>): seq<(int, Block)>
    requires forall i :: 0 <= i < |W| ==> W[i] in B
  {
    seq(|W|, i requires 0 <= i < |W| => (W[i], B[W[i]]))
  }

  lemma WalkInBlocks(B: Blocks, brk: int, b: int)
    requires Tiling(B, brk) && (b in B || b == brk)
    ensures forall i :: 0 <= i < |Walk(B, brk, b)| ==> Walk(B, brk, b)[i] in B
  {
    hide Sized, Closed, Apart, Walk;
    forall i | 0 <= i < |Walk(B, brk, b)| ensures Walk(B, brk, b)[i] in B { WalkMember(B, brk, b, Walk(B, brk, b)[i]); }
  }

  lemma {:induction false} ReadBlocksFrom(m: seq<Word>, start: int, h: Heap, b: int)
    requires Rep(m, start, h, NULL) && Tiling(h.blocks, h.brk) && (b in h.blocks || b == h.brk)
    ensures (forall i :: 0 <= i < |Walk(h.blocks, h.brk, b)| ==> Walk(h.blocks, h.brk, b)[i] in h.blocks)
    ensures ReadBlocks(m, h.brk, b) == Labelled(h.blocks, Walk(h.blocks, h.brk, b))
    decreases h.brk - b
  {
    hide Sized, Apart, Rep, At, SizeOf, IsAlloc;
    WalkInBlocks(h.blocks, h.brk, b);
    if b != h.brk {
      InsideHeap(h.blocks, h.brk, b);
      assert Abuts(h.blocks, h.brk, b);
      ReadTags(m, start, h, NULL, b);
      ReadBlocksFrom(m, start, h, b + h.blocks[b].size);
    }
  }

  /** Between two operations, walking the headers in memory from the first block meets exactly the
      blocks of the heap, in order up to the break, and every footer equals its header. */
  lemma MemoryTiles(m: seq<Word>, start: int, h: Heap)
    requires Rep(m, start, h, NULL) && Inv(h)
    ensures var R := ReadBlocks(m, h.brk, FIRST);
      && (forall b {:trigger h.blocks[b]} :: b in h.blocks ==> (b, h.blocks[b]) in R)
      && (forall i {:trigger R[i]} :: 0 <= i < |R| ==> SameBlock(m, h.blocks, R[i].0, R[i].1))
  {
    hide Sized, Apart, Distinct, FreeIs, NoFreePair, Walk, Rep, At, SizeOf, IsAlloc, ReadBlocks, SameBlock;
    var R := ReadBlocks(m, h.brk, FIRST);
    var W := Walk(h.blocks, h.brk, FIRST);
    ReadBlocksFrom(m, start, h, FIRST);
    Conservation(h);
    forall i {:trigger R[i]} | 0 <= i < |R| ensures SameBlock(m, h.blocks, R[i].0, R[i].1) {
      ReadsSame(m, start, h, W[i]);
    }
    forall b {:trigger h.blocks[b]} | b in h.blocks ensures (b, h.blocks[b]) in R {
      var i :| 0 <= i < |W| && W[i] == b;
      assert R[i] == (b, h.blocks[b]);
    }
  }

  /** The words of a heap between two operations: the tags of the prologue and of every block, its size
      plus 1 if it is allocated, the epilogue, and the head of the list. */
  lemma MemoryWords(m: seq<Word>, start: int, h: Heap)
    requires Rep(m, start, h, NULL) && Inv(h)
    ensures At(m, 4) == 25 && At(m, 24) == 25 && At(m, h.brk - 4) == 1
    ensures start == if h.free == [] then 8 else h.free[0]
    ensures forall b {:trigger h.blocks[b]} :: b in h.blocks ==>
      var w := h.blocks[b].size + if h.blocks[b].alloc then 1 else 0;
      At(m, b - 4) == w && At(m, b + h.blocks[b].size - 8) == w
  {
    hide InvBut, Linked, At, Tagged, Tiling, Distinct, FreeIs, NoFreePair;
    InvParts(h);
    forall b {:trigger h.blocks[b]} | b in h.blocks
      ensures var w := h.blocks[b].size + if h.blocks[b].alloc then 1 else 0;
        At(m, b - 4) == w && At(m, b + h.blocks[b].size - 8) == w
    {
      BlockBounds(h.blocks, h.brk, b);
      TagWords(m, h.blocks, b);
    }
  }

  lemma TagWords(m: seq<Word>, B: Blocks, b: int)
    requires Tagged(m, B, NULL) && b in B && b != NULL
    ensures var w := B[b].size + if B[b].alloc then 1 else 0; At(m, b - 4) == w && At(m, b + B[b].size - 8) == w
  {
    hide At;
  }

  ghost predicate SameBlock(m: seq<Word>, B: Blocks, b: int, k: Block) {
    b in B && B[b] == k && At(m, b - WSIZE) == At(m, b + k.size - DSIZE)
  }

  lemma ReadsSame(m: seq<Word>, start: int, h: Heap, b: int)
    requires Rep(m, start, h, NULL) && Inv(h) && b in h.blocks
    ensures SameBlock(m, h.blocks, b, h.blocks[b])
  {
    hide Sized, Closed, Apart, Distinct, FreeIs, NoFreePair, Rep, At, SizeOf, IsAlloc;
    InsideHeap(h.blocks, h.brk, b);
    ReadTags(m, start, h, NULL, b);
  }

  lemma {:induction false} ReadListFrom(m: seq<Word>, start: int, h: Heap, i: nat, k: nat)
    requires Rep(m, start, h, NULL) && Listed(h) && i <= |h.free| && |h.free| - i <= k
    ensures ReadList(m, Node(h.free, i), k) == h.free[i..]
    decreases k
  {
    hide Rep, Listed, At, IsAlloc, WordAligned, Aligned;
    ListTags(m, start, h, i);
    if i < |h.free| {
      ReadListFrom(m, start, h, i + 1, k - 1);
    }
  }

  /** Following older links in memory from start visits exactly the blocks whose headers say free,
      each once. */
  lemma MemoryList(m: seq<Word>, start: int, h: Heap, k: nat)
    requires Rep(m, start, h, NULL) && Inv(h) && |h.free| <= k
    ensures ReadList(m, start, k) == h.free && Distinct(h.free)
    ensures forall b {:trigger h.blocks[b]} :: b in h.blocks ==> (b in h.free <==> !IsAlloc(At(m, b - WSIZE)))
  {
    hide InvBut, Rep, Listed, At, IsAlloc, SizeOf, ReadList, Distinct;
    InvListed(h);
    ReadListFrom(m, start, h, 0, k);
    ListTags(m, start, h, 0);
    InvDistinct(h);
    forall b {:trigger h.blocks[b]} | b in h.blocks ensures b in h.free <==> !IsAlloc(At(m, b - WSIZE)) {
      NoNullBlock(h);
      ReadBlock(m, start, h, NULL, b);
      ListedIffFree(h, b);
    }
  }

  lemma InvDistinct(h: Heap)
    requires Inv(h)
    ensures Distinct(h.free)
  {
  }

  lemma ListedIffFree(h: Heap, b: int)
    requires Inv(h) && b in h.blocks
    ensures b in h.free <==> !h.blocks[b].alloc
  {
    hide Tiling, Distinct, NoFreePair;
    NoNullBlock(h);
  }

  /** Newer links are the inverse of older links; the newest block has none and the oldest leads to
      the prologue. */
  lemma MemoryLinks(m: seq<Word>, start: int, h: Heap, i: nat)
    requires Rep(m, start, h, NULL) && Inv(h) && i < |h.free|
    ensures At(m, h.free[i]) == if i == 0 then NULL else h.free[i - 1]
    ensures At(m, h.free[i] + DSIZE) == if i + 1 == |h.free| then PROLOGUE else h.free[i + 1]
  {
    hide InvBut, Rep, Listed, At;
    InvListed(h);
    ReadLinks(m, start, h, NULL, i);
  }
}
