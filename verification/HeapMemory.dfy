/** How the heap lies in memory: header and footer words around every block, and the free list
    threaded through the payloads of free blocks. */
module HeapMemory {
  import opened Sequences
  import opened HeapShape
  import opened HeapSpec
  import opened HeapSafety
  import opened Words

  // ---------- Tag words ----------

  function Tag(b: Block): int { Pack(b.size, if b.alloc then 1 else 0) }

  lemma TagRoundTrip(b: Block)
    requires 0 <= b.size < SIZE_T_MOD && Aligned(b.size)
    ensures 0 <= Tag(b) < SIZE_T_MOD
    ensures SizeOf(Tag(b)) == b.size && IsAlloc(Tag(b)) == b.alloc
  {
    TagBits(b.size);
  }

  lemma PackedSize(size: int, alloc: int)
    requires 0 <= size < SIZE_T_MOD && Aligned(size) && 0 <= alloc <= 1
    ensures 0 <= Pack(size, alloc) < SIZE_T_MOD && SizeOf(Pack(size, alloc)) == size
  {
    TagBits(size);
  }

  /** Every header and footer holds its block's tag, those of block x aside. */
  ghost predicate Tagged(m: seq<Word>, B: Blocks, x: int) {
    forall b {:trigger B[b]} :: b in B && b != x ==>
      At(m, b - WSIZE) == Tag(B[b]) && At(m, b + B[b].size - DSIZE) == Tag(B[b])
  }

  /** The words that mm_init writes and nothing overwrites, and no size left of the first block. */
  ghost predicate Base(m: seq<Word>) {
    && |m| == MAX_HEAP
    && At(m, PROLOGUE - WSIZE) == Tag(Block(MIN_BLOCKSIZE, true))
    && At(m, PROLOGUE + MIN_BLOCKSIZE - DSIZE) == Tag(Block(MIN_BLOCKSIZE, true))
    && SizeOf(At(m, FIRST - DSIZE)) == 0
  }

  // ---------- The threaded list ----------

  /** The prologue block ends the list. */
  function Node(F: seq<int>, i: int): int {
    if 0 <= i < |F| then F[i] else PROLOGUE
  }

  /** The word at a node's address leads to the next newer node, the one 8 bytes on to the next older. */
  ghost predicate Linked(m: seq<Word>, F: seq<int>, i: int) {
    && At(m, Node(F, i)) == (if i == 0 then NULL else Node(F, i - 1))
    && (i < |F| ==> At(m, Node(F, i) + DSIZE) == Node(F, i + 1))
  }

  ghost predicate Chain(m: seq<Word>, start: int, F: seq<int>) {
    && start == Node(F, 0)
    && forall i {:trigger Linked(m, F, i)} :: 0 <= i <= |F| ==> Linked(m, F, i)
  }

  /** Memory m with list head start represents heap h; the tags of block x are exempt. */
  ghost predicate Rep(m: seq<Word>, start: int, h: Heap, x: int) {
    && Base(m)
    && Tagged(m, h.blocks, x)
    && (FIRST < h.brk ==> At(m, h.brk - WSIZE) == Tag(Block(0, true)))
    && Chain(m, start, h.free)
  }

  // ---------- Separation ----------

  /** No word of a live payload differs. */
  ghost predicate KeepsLive(m: seq<Word>, m': seq<Word>, L: map<int, int>) {
    forall b, p {:trigger L[b], At(m', p)} :: b in L && b <= p < b + L[b] - DSIZE ==> At(m', p) == At(m, p)
  }

  ghost predicate IsNode(B: Blocks, a: int) { a == PROLOGUE || (a in B && !B[a].alloc) }

  /** A link word: the first or third word of a free payload or of the prologue's. */
  ghost predicate IsLink(B: Blocks, p: int) { IsNode(B, p) || IsNode(B, p - DSIZE) }

  lemma LinkWriteTagged(m: seq<Word>, B: Blocks, brk: int, x: int, p: int, v: Word)
    requires Sized(B, brk) && Apart(B) && Tagged(m, B, x) && IsLink(B, p) && |m| == MAX_HEAP && 0 <= p < |m|
    ensures Tagged(m[p := v], B, x)
  {
    hide Aligned, WordAligned;
  }

  lemma LinkWriteLive(m: seq<Word>, h: Heap, p: int, v: Word)
    requires Sized(h.blocks, h.brk) && Apart(h.blocks) && IsLink(h.blocks, p) && 0 <= p < |m|
    ensures KeepsLive(m, m[p := v], Live(h))
  {
    hide Aligned, WordAligned;
  }

  /** Distinct nodes lie far enough apart that their link words differ. */
  ghost predicate Separate(F: seq<int>) {
    forall i, j {:trigger Node(F, i), Node(F, j)} :: 0 <= i < j <= |F| ==>
      Node(F, i) - Node(F, j) > DSIZE || Node(F, j) - Node(F, i) > DSIZE
  }

  lemma NodesSeparate(B: Blocks, brk: int, F: seq<int>)
    requires Sized(B, brk) && Apart(B) && Distinct(F) && OnBlocks(B, F)
    ensures Separate(F)
  {
    forall i, j | 0 <= i < j <= |F|
      ensures Node(F, i) - Node(F, j) > DSIZE || Node(F, j) - Node(F, i) > DSIZE
    {
      assert F[i] in B && FIRST <= F[i];
      if j < |F| {
        assert F[j] in B;
        ApartPair(B, if F[i] < F[j] then F[i] else F[j], if F[i] < F[j] then F[j] else F[i]);
      }
    }
  }

  // ---------- insertBlock ----------

  function Pushed(m: seq<Word>, start: int, bp: int): seq<Word>
    requires 0 <= bp && bp + DSIZE < |m| && 0 <= start < |m| && start < SIZE_T_MOD && bp < SIZE_T_MOD
  {
    m[bp + DSIZE := start][start := bp][bp := NULL]
  }

  lemma PushedChain(m: seq<Word>, start: int, F: seq<int>, bp: int)
    requires |m| == MAX_HEAP && Chain(m, start, F)
    requires forall i {:trigger Node(F, i)} :: 0 <= i <= |F| ==> PROLOGUE <= Node(F, i) < MAX_HEAP - DSIZE
    requires FIRST <= bp < MAX_HEAP - DSIZE
    requires Separate([bp] + F)
    ensures Chain(Pushed(m, start, bp), bp, [bp] + F)
  {
    var G, m' := [bp] + F, Pushed(m, start, bp);
    forall i | 0 <= i <= |G| ensures Linked(m', G, i) {
      assert Node(G, 0) == bp && Node(G, 1) == start;
      if i > 0 {
        assert Node(G, i) == Node(F, i - 1) && Linked(m, F, i - 1);
        assert Node(G, i + 1) == Node(F, i);
        if i > 1 { assert Node(G, i - 1) == Node(F, i - 2); }
      }
    }
  }

  // ---------- removeBlock ----------

  function Unlinked(m: seq<Word>, newer: int, older: int): seq<Word>
    requires 0 <= newer && newer + DSIZE < |m| && 0 <= older < |m| && newer < SIZE_T_MOD && older < SIZE_T_MOD
  {
    (if newer != NULL then m[newer + DSIZE := older] else m)[older := newer]
  }

  lemma UnlinkedChain(m: seq<Word>, start: int, F: seq<int>, k: nat, newer: int, older: int)
    requires |m| == MAX_HEAP && Chain(m, start, F) && k < |F| && Separate(F)
    requires forall i {:trigger Node(F, i)} :: 0 <= i <= |F| ==> PROLOGUE <= Node(F, i) < MAX_HEAP - DSIZE
    requires newer == (if k == 0 then NULL else Node(F, k - 1)) && older == Node(F, k + 1)
    ensures Chain(Unlinked(m, newer, older), if newer != NULL then start else older, F[..k] + F[k + 1..])
  {
    var G, m' := F[..k] + F[k + 1..], Unlinked(m, newer, older);
    forall i | 0 <= i <= |G| ensures Linked(m', G, i) {
      var j := if i < k then i else i + 1;
      assert Linked(m, F, j);
      UnlinkedLink(m, F, k, newer, older, i);
    }
    assert Node(G, 0) == if k == 0 then Node(F, 1) else Node(F, 0);
  }

  lemma UnlinkedLink(m: seq<Word>, F: seq<int>, k: nat, newer: int, older: int, i: nat)
    requires |m| == MAX_HEAP && k < |F| && i < |F| && Separate(F)
    requires forall i {:trigger Node(F, i)} :: 0 <= i <= |F| ==> PROLOGUE <= Node(F, i) < MAX_HEAP - DSIZE
    requires newer == (if k == 0 then NULL else Node(F, k - 1)) && older == Node(F, k + 1)
    requires Linked(m, F, if i < k then i else i + 1)
    ensures Linked(Unlinked(m, newer, older), F[..k] + F[k + 1..], i)
  {
    var G := F[..k] + F[k + 1..];
    assert Node(G, i) == Node(F, if i < k then i else i + 1);
    assert Node(G, i + 1) == Node(F, if i + 1 < k then i + 1 else i + 2);
    if i > 0 { assert Node(G, i - 1) == Node(F, if i - 1 < k then i - 1 else i); }
  }

  // ---------- The operations on memory keep the representation ----------

  ghost predicate Listed(h: Heap) {
    Sized(h.blocks, h.brk) && Apart(h.blocks) && Distinct(h.free) && OnBlocks(h.blocks, h.free)
  }

  lemma NodesInHeap(h: Heap)
    requires Listed(h)
    ensures Separate(h.free)
    ensures forall i {:trigger Node(h.free, i)} :: 0 <= i <= |h.free| ==> IsNode(h.blocks, Node(h.free, i))
    ensures forall i {:trigger Node(h.free, i)} :: 0 <= i <= |h.free| ==> PROLOGUE <= Node(h.free, i) < MAX_HEAP - DSIZE
  {
    NodesSeparate(h.blocks, h.brk, h.free);
    hide Separate, Apart, Distinct;
    forall i | 0 <= i < |h.free| ensures FIRST <= h.free[i] && h.free[i] + 2 * DSIZE < MAX_HEAP {
      assert h.free[i] in h.blocks;
      InsideHeap(h.blocks, h.brk, h.free[i]);
    }
  }

  /** All of Rep but the chain. */
  ghost predicate Framed(m: seq<Word>, h: Heap, x: int) {
    && Base(m)
    && Tagged(m, h.blocks, x)
    && (FIRST < h.brk ==> At(m, h.brk - WSIZE) == Tag(Block(0, true)))
  }

  lemma RepFramed(m: seq<Word>, start: int, h: Heap, x: int)
    requires Rep(m, start, h, x)
    ensures Framed(m, h, x) && Chain(m, start, h.free) && |m| == MAX_HEAP && start == Node(h.free, 0)
  {
    hide Tagged, Linked, At;
  }

  lemma ListedParts(h: Heap)
    requires Listed(h)
    ensures Sized(h.blocks, h.brk) && Apart(h.blocks) && h.brk <= MAX_HEAP
  {
    hide Apart, Aligned, Distinct, OnBlocks;
  }

  /** The words of the prologue, of the gap and of the epilogue do not differ. */
  ghost predicate SameFrame(m: seq<Word>, m': seq<Word>, brk: int) {
    && |m'| == |m|
    && At(m', PROLOGUE - WSIZE) == At(m, PROLOGUE - WSIZE)
    && At(m', PROLOGUE + MIN_BLOCKSIZE - DSIZE) == At(m, PROLOGUE + MIN_BLOCKSIZE - DSIZE)
    && At(m', FIRST - DSIZE) == At(m, FIRST - DSIZE)
    && At(m', brk - WSIZE) == At(m, brk - WSIZE)
  }

  lemma FramedKept(m: seq<Word>, m': seq<Word>, h: Heap, x: int, y: int)
    requires Framed(m, h, x) && SameFrame(m, m', h.brk) && Tagged(m', h.blocks, y)
    ensures Framed(m', h, y)
  {
    hide At, SizeOf, Tag, Tagged;
  }

  lemma WordWritten(m: seq<Word>, p: int, v: Word)
    requires 0 <= p < |m|
    ensures forall q {:trigger At(m[p := v], q)} :: At(m[p := v], q) == if q == p then v else At(m, q)
  {
  }

  lemma FrameKept(m: seq<Word>, brk: int, p: int, v: Word)
    requires 0 <= p < |m| && p != PROLOGUE - WSIZE && p != PROLOGUE + MIN_BLOCKSIZE - DSIZE
    requires p != FIRST - DSIZE && p != brk - WSIZE
    ensures SameFrame(m, m[p := v], brk)
  {
    hide At;
    WordWritten(m, p, v);
  }

  lemma FrameKeptStep(m: seq<Word>, m': seq<Word>, m'': seq<Word>, brk: int)
    requires SameFrame(m, m', brk) && SameFrame(m', m'', brk)
    ensures SameFrame(m, m'', brk)
  {
    hide At;
  }

  lemma LinksInside(B: Blocks, brk: int, p: int)
    requires Sized(B, brk) && IsLink(B, p)
    ensures PROLOGUE <= p && p != PROLOGUE + MIN_BLOCKSIZE - DSIZE && p != FIRST - DSIZE && p != brk - WSIZE
  {
    hide Aligned;
  }

  lemma FramedParts(m: seq<Word>, h: Heap, x: int)
    requires Framed(m, h, x)
    ensures |m| == MAX_HEAP && Tagged(m, h.blocks, x)
  {
    hide Tagged, At;
  }

  lemma LinkWriteFramed(m: seq<Word>, h: Heap, x: int, p: int, v: Word)
    requires Sized(h.blocks, h.brk) && Apart(h.blocks) && Framed(m, h, x) && IsLink(h.blocks, p) && 0 <= p < |m|
    ensures Framed(m[p := v], h, x)
    ensures KeepsLive(m, m[p := v], Live(h))
  {
    hide Sized, Apart, Base, Tagged, KeepsLive, IsLink, At, Framed, SameFrame;
    FramedParts(m, h, x);
    LinkWriteLive(m, h, p, v);
    LinksInside(h.blocks, h.brk, p);
    FrameKept(m, h.brk, p, v);
    LinkWriteTagged(m, h.blocks, h.brk, x, p, v);
    FramedKept(m, m[p := v], h, x, x);
  }

  lemma KeepsLiveStep(m0: seq<Word>, m1: seq<Word>, m2: seq<Word>, L: map<int, int>)
    requires KeepsLive(m0, m1, L) && KeepsLive(m1, m2, L)
    ensures KeepsLive(m0, m2, L)
  {
    forall b, p {:trigger L[b], At(m2, p)} | b in L && b <= p < b + L[b] - DSIZE ensures At(m2, p) == At(m0, p) {
      assert At(m1, p) == At(m0, p);
    }
  }

  lemma KeepsLiveShrink(m: seq<Word>, m': seq<Word>, L: map<int, int>, K: map<int, int>)
    requires KeepsLive(m, m', L) && (forall b {:trigger K[b]} :: b in K ==> b in L && L[b] == K[b])
    ensures KeepsLive(m, m', K)
  {
  }

  lemma PushedRep(m: seq<Word>, start: int, h: Heap, x: int, bp: int)
    requires Rep(m, start, h, x) && Listed(h.(free := [bp] + h.free)) && Listed(h)
    requires FIRST <= bp < MAX_HEAP - DSIZE && PROLOGUE <= start < MAX_HEAP - DSIZE
    ensures Rep(Pushed(m, start, bp), bp, h.(free := [bp] + h.free), x)
    ensures KeepsLive(m, Pushed(m, start, bp), Live(h))
  {
    hide Rep, Listed, Sized, Apart, Framed, Chain, IsNode, IsLink, KeepsLive, Separate, Aligned, WordAligned, At;
    RepFramed(m, start, h, x);
    var m1 := m[bp + DSIZE := start];
    var m2 := m1[start := bp];
    var m3 := m2[bp := NULL];
    ListedParts(h);
    NodesInHeap(h);
    NodesInHeap(h.(free := [bp] + h.free));
    assert IsNode(h.blocks, Node([bp] + h.free, 0));
    assert IsNode(h.blocks, Node(h.free, 0));
    PushedChain(m, start, h.free, bp);
    NodeLinks(h.blocks, bp);
    NodeLinks(h.blocks, start);
    LinkWriteFramed(m, h, x, bp + DSIZE, start);
    LinkWriteFramed(m1, h, x, start, bp);
    LinkWriteFramed(m2, h, x, bp, NULL);
    KeepsLiveStep(m, m1, m2, Live(h));
    KeepsLiveStep(m, m2, m3, Live(h));
    FramedRep(m3, bp, h, [bp] + h.free, x);
  }

  lemma NodeLinks(B: Blocks, a: int)
    requires IsNode(B, a)
    ensures IsLink(B, a) && IsLink(B, a + DSIZE)
  {
  }

  lemma FramedRep(m: seq<Word>, start: int, h: Heap, F: seq<int>, x: int)
    requires Framed(m, h, x) && Chain(m, start, F)
    ensures Rep(m, start, h.(free := F), x)
  {
  }

  /** Only link words differ. */
  ghost predicate OnlyLinks(m: seq<Word>, m': seq<Word>, B: Blocks) {
    forall p {:trigger At(m', p)} :: !IsLink(B, p) ==> At(m', p) == At(m, p)
  }

  lemma UnlinkedOnlyLinks(m: seq<Word>, h: Heap, newer: int, older: int)
    requires |m| == MAX_HEAP && 0 <= newer < MAX_HEAP - DSIZE && 0 <= older < MAX_HEAP
    requires IsNode(h.blocks, older) && (newer != NULL ==> IsNode(h.blocks, newer))
    ensures OnlyLinks(m, Unlinked(m, newer, older), h.blocks)
  {
    hide IsNode;
  }

  /** The tags of a block are not link words, nor are those of the first part of a split block. */
  lemma TagsAreNotLinks(B: Blocks, brk: int, b: int, n: int)
    requires Sized(B, brk) && Apart(B) && b in B && MIN_BLOCKSIZE <= n <= B[b].size
    ensures !IsLink(B, b - WSIZE) && !IsLink(B, b + n - DSIZE)
  {
  }

  lemma UnlinkedFramed(m: seq<Word>, h: Heap, x: int, newer: int, older: int)
    requires Framed(m, h, x) && Sized(h.blocks, h.brk) && Apart(h.blocks)
    requires 0 <= newer < MAX_HEAP - DSIZE && 0 <= older < MAX_HEAP
    requires IsNode(h.blocks, older) && (newer != NULL ==> IsNode(h.blocks, newer))
    ensures Framed(Unlinked(m, newer, older), h, x) && KeepsLive(m, Unlinked(m, newer, older), Live(h))
  {
    hide Framed, Sized, Apart, KeepsLive, IsLink, IsNode, At;
    FramedParts(m, h, x);
    NodeLinks(h.blocks, older);
    var m1 := if newer != NULL then m[newer + DSIZE := older] else m;
    if newer != NULL {
      NodeLinks(h.blocks, newer);
      LinkWriteFramed(m, h, x, newer + DSIZE, older);
    } else {
      KeepsLiveRefl(m, Live(h));
    }
    LinkWriteFramed(m1, h, x, older, newer);
    KeepsLiveStep(m, m1, m1[older := newer], Live(h));
  }

  lemma MinusAtFree(h: Heap, k: nat)
    requires Listed(h) && k < |h.free|
    ensures Minus(h.free, h.free[k]) == h.free[..k] + h.free[k + 1..]
  {
    hide Sized, Apart, OnBlocks;
    MinusAt(h.free, k);
  }

  lemma UnlinkedRep(m: seq<Word>, start: int, h: Heap, x: int, k: nat, newer: int, older: int)
    requires Rep(m, start, h, x) && Listed(h) && k < |h.free|
    requires newer == (if k == 0 then NULL else Node(h.free, k - 1)) && older == Node(h.free, k + 1)
    requires 0 <= newer < MAX_HEAP - DSIZE && PROLOGUE <= older < MAX_HEAP - DSIZE
    ensures var m', start' := Unlinked(m, newer, older), if newer != NULL then start else older;
      Rep(m', start', h.(free := Minus(h.free, h.free[k])), x) && KeepsLive(m, m', Live(h))
      && OnlyLinks(m, m', h.blocks)
  {
    hide Rep, Listed, Sized, Apart, Framed, Chain, IsNode, IsLink, KeepsLive, Separate, Aligned, WordAligned, At, Base,
      Tagged, Linked, Distinct, OnBlocks, OnlyLinks, Unlinked;
    RepFramed(m, start, h, x);
    ListedParts(h);
    NodesInHeap(h);
    assert IsNode(h.blocks, older) && (newer != NULL ==> IsNode(h.blocks, newer));
    UnlinkedFramed(m, h, x, newer, older);
    UnlinkedOnlyLinks(m, h, newer, older);
    MinusAtFree(h, k);
    UnlinkedChain(m, start, h.free, k, newer, older);
    FramedRep(Unlinked(m, newer, older), if newer != NULL then start else older, h, Minus(h.free, h.free[k]), x);
  }

  lemma KeepsLiveRefl(m: seq<Word>, L: map<int, int>)
    ensures KeepsLive(m, m, L)
  {
  }

  /** No link word differs. */
  ghost predicate LinksKept(m: seq<Word>, m': seq<Word>, B: Blocks) {
    forall p {:trigger At(m', p)} :: IsLink(B, p) ==> At(m', p) == At(m, p)
  }

  lemma ChainKept(m: seq<Word>, m': seq<Word>, start: int, h: Heap)
    requires Listed(h) && Chain(m, start, h.free) && LinksKept(m, m', h.blocks)
    ensures Chain(m', start, h.free)
  {
    hide Listed, At;
    NodesInHeap(h);
    var F := h.free;
    forall i | 0 <= i <= |F| ensures Linked(m', F, i) {
      assert Linked(m, F, i);
      assert IsNode(h.blocks, Node(F, i));
    }
  }

  /** Memory m after w is written as the tags of a block of n bytes at b. */
  function TagsWritten(m: seq<Word>, b: int, n: int, w: Word): seq<Word>
    requires WSIZE <= b && DSIZE <= n && b + n <= |m|
  {
    m[b - WSIZE := w][b + n - DSIZE := w]
  }

  /** Tag words for the first n bytes of block b, or all of them. */
  ghost predicate Within(h: Heap, b: int, n: int) {
    && Sized(h.blocks, h.brk) && Apart(h.blocks)
    && b in h.blocks && MIN_BLOCKSIZE <= n <= h.blocks[b].size
  }

  lemma ListedBlock(h: Heap, b: int)
    requires Sized(h.blocks, h.brk) && b in h.blocks
    ensures FIRST <= b && b + MIN_BLOCKSIZE <= b + h.blocks[b].size <= h.brk <= MAX_HEAP
  {
    hide Aligned;
  }

  lemma TagsWrittenFramed(m: seq<Word>, h: Heap, x: int, b: int, n: int, w: Word)
    requires Within(h, b, n) && Framed(m, h, x) && (x == b || x == NULL)
    ensures b + n <= |m|
    ensures Framed(TagsWritten(m, b, n, w), h, b)
  {
    hide Apart, Tagged, Sized, Framed, SameFrame, At;
    FramedParts(m, h, x);
    ListedBlock(h, b);
    InsideHeap(h.blocks, h.brk, b);
    TagsWrittenTagged(m, h.blocks, h.brk, x, b, n, w);
    var m1 := m[b - WSIZE := w];
    FrameKept(m, h.brk, b - WSIZE, w);
    FrameKept(m1, h.brk, b + n - DSIZE, w);
    FrameKeptStep(m, m1, TagsWritten(m, b, n, w), h.brk);
    FramedKept(m, TagsWritten(m, b, n, w), h, x, b);
  }

  lemma TagsWrittenTagged(m: seq<Word>, B: Blocks, brk: int, x: int, b: int, n: int, w: Word)
    requires Sized(B, brk) && Apart(B) && |m| == MAX_HEAP && b in B && MIN_BLOCKSIZE <= n <= B[b].size
    requires Tagged(m, B, x) && (x == b || x == NULL)
    ensures Tagged(TagsWritten(m, b, n, w), B, b)
  {
    hide Aligned, WordAligned;
  }

  lemma TagsWrittenLive(m: seq<Word>, h: Heap, b: int, n: int, w: Word)
    requires Within(h, b, n) && |m| == MAX_HEAP
    ensures b + n <= |m|
    ensures KeepsLive(m, TagsWritten(m, b, n, w), Live(h)[b := n])
  {
    hide Aligned, At;
    ListedBlock(h, b);
    WordWritten(m, b - WSIZE, w);
    WordWritten(m[b - WSIZE := w], b + n - DSIZE, w);
  }

  lemma TagsWrittenLinks(m: seq<Word>, h: Heap, b: int, n: int, w: Word)
    requires Within(h, b, n) && |m| == MAX_HEAP
    ensures b + n <= |m|
    ensures LinksKept(m, TagsWritten(m, b, n, w), h.blocks)
  {
    hide IsLink;
    TagsAreNotLinks(h.blocks, h.brk, b, n);
  }

  /** Writing tags inside block b makes b the exempt block. */
  lemma TagsWrittenRep(m: seq<Word>, start: int, h: Heap, x: int, b: int, n: int, w: Word)
    requires Rep(m, start, h, x) && Listed(h) && Within(h, b, n) && (x == b || x == NULL)
    ensures b + n <= |m|
    ensures var m' := TagsWritten(m, b, n, w);
      && Rep(m', start, h, b) && KeepsLive(m, m', Live(h)[b := n])
      && (!h.blocks[b].alloc || n == h.blocks[b].size ==> KeepsLive(m, m', Live(h)))
      && At(m', b - WSIZE) == w && At(m', b + n - DSIZE) == w
  {
    hide Rep, Framed, Listed, Aligned, WordAligned, Sized, Apart, Tagged, Chain, KeepsLive, Distinct, OnBlocks, At,
      LinksKept;
    RepFramed(m, start, h, x);
    ListedBlock(h, b);
    TagsWrittenLinks(m, h, b, n, w);
    ChainKept(m, TagsWritten(m, b, n, w), start, h);
    TagsWrittenFramed(m, h, x, b, n, w);
    TagsWrittenLive(m, h, b, n, w);
    FramedRep(TagsWritten(m, b, n, w), start, h, h.free, b);
    WordWritten(m, b - WSIZE, w);
    WordWritten(m[b - WSIZE := w], b + n - DSIZE, w);
    if !h.blocks[b].alloc || n == h.blocks[b].size {
      KeepsLiveShrink(m, TagsWritten(m, b, n, w), Live(h)[b := n], Live(h));
    }
  }

  /** The exempt block's tags are right after all. */
  lemma RepComplete(m: seq<Word>, start: int, h: Heap, b: int)
    requires Rep(m, start, h, b) && b in h.blocks
    requires At(m, b - WSIZE) == Tag(h.blocks[b]) && At(m, b + h.blocks[b].size - DSIZE) == Tag(h.blocks[b])
    ensures Rep(m, start, h, NULL)
  {
    hide Chain, Base;
  }

  // ---------- Changing the blocks under an exempt block ----------

  lemma RetaggedRep(m: seq<Word>, start: int, h: Heap, b: int, alloc: bool)
    requires Rep(m, start, h, b) && b in h.blocks
    ensures Rep(m, start, h.(blocks := Retagged(h.blocks, b, alloc)), b)
  {
    hide Chain, Base;
  }

  lemma ExemptRep(m: seq<Word>, start: int, h: Heap, b: int)
    requires Rep(m, start, h, NULL) && Listed(h)
    ensures Rep(m, start, h, b)
  {
    hide Chain, Base, Apart, Distinct, OnBlocks, Aligned;
  }

  lemma DividedRep(m: seq<Word>, start: int, h: Heap, b: int, n: int)
    requires Rep(m, start, h, b) && b in h.blocks && n != 0
    requires At(m, b - WSIZE) == Tag(Block(n, true)) && At(m, b + n - DSIZE) == Tag(Block(n, true))
    ensures Rep(m, start, h.(blocks := Divided(h.blocks, b, n)), b + n)
  {
    hide Chain, Base;
  }

  /** What the header and footer words of a block say. */
  lemma ReadTags(m: seq<Word>, start: int, h: Heap, x: int, b: int)
    requires Rep(m, start, h, x) && Sized(h.blocks, h.brk) && b in h.blocks && b != x
    ensures FIRST <= b && Aligned(b) && MIN_BLOCKSIZE <= h.blocks[b].size && Aligned(h.blocks[b].size)
    ensures b + h.blocks[b].size <= h.brk <= MAX_HEAP
    ensures SizeOf(At(m, b - WSIZE)) == h.blocks[b].size && IsAlloc(At(m, b - WSIZE)) == h.blocks[b].alloc
    ensures At(m, b + h.blocks[b].size - DSIZE) == At(m, b - WSIZE)
  {
    hide Chain, Base;
    TagRoundTrip(h.blocks[b]);
    hide Tag, SizeOf, IsAlloc;
  }

  // ---------- Growing the heap ----------

  /** Memory m after the header, footer and epilogue words of a new last block are written. */
  function GrownMemory(m: seq<Word>, brk: int, size: int, w: Word, epilogue: Word): seq<Word>
    requires WSIZE <= brk && DSIZE <= size && brk + size <= |m|
  {
    m[brk - WSIZE := w][brk + size - DSIZE := w][brk + size - WSIZE := epilogue]
  }

  lemma GrownTagged(m: seq<Word>, h: Heap, size: int, w: Word, epilogue: Word)
    requires Sized(h.blocks, h.brk) && |m| == MAX_HEAP && Tagged(m, h.blocks, NULL)
    requires MIN_BLOCKSIZE <= size && h.brk + size <= MAX_HEAP && w == Tag(Block(size, false))
    ensures Tagged(GrownMemory(m, h.brk, size, w, epilogue), Grown(h, size).blocks, NULL)
  {
    hide Aligned, WordAligned;
  }

  lemma GrownLinks(m: seq<Word>, h: Heap, size: int, w: Word, epilogue: Word)
    requires Sized(h.blocks, h.brk) && |m| == MAX_HEAP
    requires MIN_BLOCKSIZE <= size && h.brk + size <= MAX_HEAP
    ensures LinksKept(m, GrownMemory(m, h.brk, size, w, epilogue), h.blocks)
  {
  }

  lemma GrownLive(m: seq<Word>, h: Heap, size: int, w: Word, epilogue: Word)
    requires Sized(h.blocks, h.brk) && |m| == MAX_HEAP
    requires MIN_BLOCKSIZE <= size && h.brk + size <= MAX_HEAP
    ensures KeepsLive(m, GrownMemory(m, h.brk, size, w, epilogue), Live(h))
  {
  }

  lemma GrownRep(m: seq<Word>, start: int, h: Heap, size: int, w: Word, epilogue: Word)
    requires Rep(m, start, h, NULL) && Listed(h)
    requires MIN_BLOCKSIZE <= size && h.brk + size <= MAX_HEAP
    requires w == Tag(Block(size, false)) && epilogue == Tag(Block(0, true))
    ensures var m' := GrownMemory(m, h.brk, size, w, epilogue);
      Rep(m', start, Grown(h, size), NULL) && KeepsLive(m, m', Live(h))
  {
    hide Tagged, Chain, KeepsLive, Apart, Distinct, OnBlocks;
    GrownTagged(m, h, size, w, epilogue);
    GrownLinks(m, h, size, w, epilogue);
    ChainKept(m, GrownMemory(m, h.brk, size, w, epilogue), start, h);
    GrownLive(m, h, size, w, epilogue);
  }

  /** Every node is an aligned address with both of its link words inside the heap. */
  lemma ReadNode(m: seq<Word>, start: int, h: Heap, x: int, i: int)
    requires Rep(m, start, h, x) && Listed(h) && 0 <= i <= |h.free|
    ensures start == Node(h.free, 0)
    ensures var a := Node(h.free, i);
      PROLOGUE <= a && Aligned(a) && a + 2 * DSIZE < h.brk <= MAX_HEAP && Linked(m, h.free, i)
  {
    hide Base, Tagged, Apart, Distinct;
    if i < |h.free| {
      InsideHeap(h.blocks, h.brk, h.free[i]);
    }
  }

  lemma ListedWithout(h: Heap, f: int)
    requires Listed(h) && f in h.free
    ensures Listed(h.(free := Minus(h.free, f)))
  {
    MinusMembers(h.free, f);
    var G := Minus(h.free, f);
    hide Sized, Apart, Distinct, Minus;
    forall i | 0 <= i < |G| ensures G[i] in h.blocks && !h.blocks[G[i]].alloc {
      assert G[i] in G;
      var j :| 0 <= j < |h.free| && h.free[j] == G[i];
    }
  }

  ghost predicate LinkSpace(a: int, brk: int) { PROLOGUE <= a && Aligned(a) && a + 2 * DSIZE < brk <= MAX_HEAP }

  /** What the links of a listed block say. */
  lemma ReadLinks(m: seq<Word>, start: int, h: Heap, x: int, k: nat)
    requires Rep(m, start, h, x) && Listed(h) && k < |h.free|
    ensures var bp := h.free[k]; var newer, older := At(m, bp), At(m, bp + DSIZE);
      && LinkSpace(bp, h.brk) && LinkSpace(older, h.brk)
      && newer == (if k == 0 then NULL else Node(h.free, k - 1))
      && older == Node(h.free, k + 1)
      && (newer != NULL ==> LinkSpace(newer, h.brk) && newer != bp && newer + DSIZE != bp)
  {
    hide Rep;
    ReadNode(m, start, h, x, k);
    ReadNode(m, start, h, x, k + 1);
    if k > 0 {
      ReadNode(m, start, h, x, k - 1);
      NodesInHeap(h);
      hide Listed;
      assert Node(h.free, k) == h.free[k];
    }
  }

  // ---------- What coalesce reads and leaves ----------

  /** The footer word left of a block tells whether its left neighbour is free, and where it is. */
  ghost predicate LeftReading(m: seq<Word>, h: Heap, bp: int) {
    var left := bp - SizeOf(At(m, bp - DSIZE));
    var f := left + SizeOf(At(m, left - WSIZE)) - DSIZE;
    && FIRST <= left <= bp && Aligned(left) && Aligned(f) && 0 <= f && f + WSIZE <= h.brk
    && ((IsAlloc(At(m, f)) || left == bp) <==> FreeLeft(h.blocks, bp) == bp)
    && (FreeLeft(h.blocks, bp) != bp ==> left == FreeLeft(h.blocks, bp))
  }

  lemma LeftReadsFirst(m: seq<Word>, start: int, h: Heap)
    requires Rep(m, start, h, NULL) && Tiling(h.blocks, h.brk) && FIRST in h.blocks
    ensures LeftReading(m, h, FIRST)
  {
    hide Sized, Closed, Apart, SizeOf, IsAlloc, Tag, FreeLeft, Aligned, Chain, Tagged;
    InsideHeap(h.blocks, h.brk, FIRST);
    NoLeftOfFirst(h.blocks, h.brk);
    SizeOfZero();
    ReadTags(m, start, h, NULL, FIRST);
    AlignedSum(FIRST, h.blocks[FIRST].size);
    AlignedSum(FIRST + h.blocks[FIRST].size, DSIZE);
  }

  lemma LeftReadsInner(m: seq<Word>, start: int, h: Heap, bp: int, l: int)
    requires Rep(m, start, h, NULL) && Tiling(h.blocks, h.brk)
    requires bp in h.blocks && l in h.blocks && l + h.blocks[l].size == bp
    ensures LeftReading(m, h, bp)
  {
    hide Sized, Closed, Apart, Rep, SizeOf, IsAlloc, Tag, FreeLeft, Aligned, At;
    FreeLeftIs(h.blocks, h.brk, l, bp);
    InsideHeap(h.blocks, h.brk, l);
    InsideHeap(h.blocks, h.brk, bp);
    ReadTags(m, start, h, NULL, l);
    ReadTags(m, start, h, NULL, bp);
    SizeOfZero();
    AlignedSum(bp, DSIZE);
  }

  lemma LeftReads(m: seq<Word>, start: int, h: Heap, bp: int)
    requires Rep(m, start, h, NULL) && Tiling(h.blocks, h.brk) && bp in h.blocks
    ensures LeftReading(m, h, bp)
  {
    hide Sized, Closed, Apart, Rep, LeftReading;
    InsideHeap(h.blocks, h.brk, bp);
    if bp == FIRST {
      LeftReadsFirst(m, start, h);
    } else {
      var l := LeftNeighbour(h.blocks, h.brk, bp);
      LeftReadsInner(m, start, h, bp, l);
    }
  }

  ghost predicate FreeRight(B: Blocks, bp: int)
    requires bp in B
  {
    bp + B[bp].size in B && !B[bp + B[bp].size].alloc
  }

  lemma EpilogueWord(m: seq<Word>, start: int, h: Heap)
    requires Rep(m, start, h, NULL) && FIRST < h.brk
    ensures IsAlloc(At(m, h.brk - WSIZE))
  {
    hide Chain, Base, Tagged, IsAlloc, SizeOf, Aligned;
    SizeOfZero();
    TagRoundTrip(Block(0, true));
  }

  /** A block's header tells where it ends, and the word there, the epilogue's if the block is the
      last, whether its right neighbour is free. */
  lemma RightReads(m: seq<Word>, start: int, h: Heap, bp: int)
    requires Rep(m, start, h, NULL) && Tiling(h.blocks, h.brk) && bp in h.blocks && FIRST < h.brk
    ensures SizeOf(At(m, bp - WSIZE)) == h.blocks[bp].size && Aligned(bp) && FIRST <= bp < h.brk
    ensures Aligned(bp + h.blocks[bp].size) && FIRST <= bp + h.blocks[bp].size <= h.brk
    ensures IsAlloc(At(m, bp + h.blocks[bp].size - WSIZE)) <==> !FreeRight(h.blocks, bp)
  {
    hide Sized, Apart, Rep, At, SizeOf, IsAlloc, Tag, Aligned;
    var r := bp + h.blocks[bp].size;
    InsideHeap(h.blocks, h.brk, bp);
    ReadTags(m, start, h, NULL, bp);
    AlignedSum(bp, h.blocks[bp].size);
    assert Abuts(h.blocks, h.brk, bp);
    if r in h.blocks {
      InsideHeap(h.blocks, h.brk, r);
      ReadTags(m, start, h, NULL, r);
    } else {
      EpilogueWord(m, start, h);
    }
  }

  ghost function Absorbed(h: Heap, bp: int): Heap
    requires bp in h.blocks
  {
    AbsorbRight(AbsorbLeft(h, bp), FreeLeft(h.blocks, bp))
  }

  lemma AbsorbLeftShape(h: Heap, bp: int)
    requires Tiling(h.blocks, h.brk) && bp in h.blocks && !h.blocks[bp].alloc
    ensures var l, r, g := FreeLeft(h.blocks, bp), bp + h.blocks[bp].size, AbsorbLeft(h, bp);
      && l in g.blocks
      && g.blocks[l] == Block((if l != bp then h.blocks[l].size else 0) + h.blocks[bp].size, false)
      && l + g.blocks[l].size == r && (r in g.blocks <==> r in h.blocks)
      && (r in h.blocks ==> g.blocks[r] == h.blocks[r])
      && g.free == (if l != bp then Minus(h.free, l) else h.free) && (l == bp ==> g == h)
  {
    hide Tiling, Minus, FreeLeft;
    var l, r := FreeLeft(h.blocks, bp), bp + h.blocks[bp].size;
    BlockBounds(h.blocks, h.brk, bp);
    if l != bp { BlockBounds(h.blocks, h.brk, l); }
  }

  lemma AbsorbRightShape(g: Heap, l: int)
    requires l in g.blocks && !g.blocks[l].alloc
    ensures var r := l + g.blocks[l].size; var k := AbsorbRight(g, l);
      && l in k.blocks
      && (FreeRight(g.blocks, l) ==>
        k.blocks[l] == Block(g.blocks[l].size + g.blocks[r].size, false) && k.free == Minus(g.free, r))
      && (!FreeRight(g.blocks, l) ==> k == g)
  {
    hide Minus;
  }

  /** The free neighbours of a pending block are on the list, the right one also without the left. */
  lemma NeighboursListed(h: Heap, bp: int)
    requires Pending(h, bp)
    ensures var l, r := FreeLeft(h.blocks, bp), bp + h.blocks[bp].size;
      && (l != bp ==> l in h.free)
      && (FreeRight(h.blocks, bp) ==> r in h.free && (l != bp ==> r in Minus(h.free, l)))
  {
    hide InvBut, Tiling, Minus, FreeLeft, FreeIs, Distinct, NoFreePair;
    var l, r := FreeLeft(h.blocks, bp), bp + h.blocks[bp].size;
    PendingParts(h, bp);
    BlockBounds(h.blocks, h.brk, bp);
    if l != bp {
      OnlyOnList(h.blocks, h.free, bp, l);
      BlockBounds(h.blocks, h.brk, l);
      MinusMembers(h.free, l);
    }
    if FreeRight(h.blocks, bp) {
      OnlyOnList(h.blocks, h.free, bp, r);
    }
  }

  lemma AbsorbedShape(h: Heap, bp: int)
    requires Pending(h, bp)
    ensures var l, F := FreeLeft(h.blocks, bp), h.free;
      var r := bp + h.blocks[bp].size;
      var F1 := if l != bp then Minus(F, l) else F;
      && Absorbed(h, bp).free == (if FreeRight(h.blocks, bp) then Minus(F1, r) else F1)
      && (l != bp ==> l in F) && (FreeRight(h.blocks, bp) ==> r in F1 && r in F)
      && l in Absorbed(h, bp).blocks
      && Absorbed(h, bp).blocks[l] == Block(
           (if l != bp then h.blocks[l].size else 0) + h.blocks[bp].size
           + (if FreeRight(h.blocks, bp) then h.blocks[r].size else 0), false)
      && (l == bp && !FreeRight(h.blocks, bp) ==> Absorbed(h, bp) == h)
  {
    hide InvBut, Tiling, Minus, FreeLeft, FreeIs, Distinct, NoFreePair, AbsorbLeft, AbsorbRight;
    PendingParts(h, bp);
    AbsorbLeftShape(h, bp);
    AbsorbRightShape(AbsorbLeft(h, bp), FreeLeft(h.blocks, bp));
    NeighboursListed(h, bp);
  }

  lemma FirstListed(h: Heap)
    requires Listed(h) && h.free != []
    ensures h.free[0] in h.blocks && !h.blocks[h.free[0]].alloc
    ensures FIRST <= h.free[0] && h.free[0] + 2 * DSIZE < h.brk <= MAX_HEAP && Aligned(h.free[0])
  {
    hide Apart, Distinct, Aligned;
    InsideHeap(h.blocks, h.brk, h.free[0]);
  }

  lemma AbsorbedKeeps(h: Heap, bp: int)
    requires Pending(h, bp) && FIRST < h.brk
    ensures Pending(Absorbed(h, bp), FreeLeft(h.blocks, bp))
    ensures Coalesce(h, bp) == Absorbed(h, bp).(free := [FreeLeft(h.blocks, bp)] + Absorbed(h, bp).free)
    ensures Inv(Coalesce(h, bp))
    ensures Live(Absorbed(h, bp)) == Live(h) && Live(Coalesce(h, bp)) == Live(h)
  {
    hide InvBut, NoFreeLeft, NoFreeRight, FreeLeft, AbsorbLeft, AbsorbRight, Live;
    var l := FreeLeft(h.blocks, bp);
    AbsorbLeftKeeps(h, bp);
    AbsorbRightKeeps(AbsorbLeft(h, bp), l);
    CoalesceKeeps(h, bp);
    AbsorbLeftLive(h, bp);
    AbsorbRightLive(AbsorbLeft(h, bp), l);
    CoalesceLive(h, bp);
    AbsorbedBrk(h, bp);
  }

  lemma AbsorbedBrk(h: Heap, bp: int)
    requires bp in h.blocks
    ensures Absorbed(h, bp).brk == h.brk
  {
  }

  /** The memory left by the removals represents the merged block, its tags aside. */
  lemma AbsorbedRep(m: seq<Word>, start: int, h: Heap, bp: int)
    requires Pending(h, bp) && Rep(m, start, h.(free := Absorbed(h, bp).free), NULL)
    ensures Rep(m, start, Absorbed(h, bp), FreeLeft(h.blocks, bp))
  {
    hide Sized, Closed, Apart, Chain, Base, Minus, Distinct, NoFreePair, Tagged, Absorbed, FreeLeft;
    AbsorbedBrk(h, bp);
    if NULL in h.blocks { InsideHeap(h.blocks, h.brk, NULL); }
    AbsorbedElsewhere(h, bp);
    TaggedElsewhere(m, h.blocks, Absorbed(h, bp).blocks, FreeLeft(h.blocks, bp));
  }

  lemma TaggedElsewhere(m: seq<Word>, B: Blocks, C: Blocks, x: int)
    requires Tagged(m, B, NULL) && NULL !in B
    requires forall b {:trigger C[b]} :: b in C && b != x ==> b in B && C[b] == B[b]
    ensures Tagged(m, C, x)
  {
  }

  lemma AbsorbedElsewhere(h: Heap, bp: int)
    requires bp in h.blocks
    ensures forall b {:trigger Absorbed(h, bp).blocks[b]} ::
      b in Absorbed(h, bp).blocks && b != FreeLeft(h.blocks, bp) ==>
      b in h.blocks && Absorbed(h, bp).blocks[b] == h.blocks[b]
  {
    hide FreeLeft, Absorbed;
    var C, l := Absorbed(h, bp).blocks, FreeLeft(h.blocks, bp);
    forall b {:trigger C[b]} | b in C && b != l ensures b in h.blocks && C[b] == h.blocks[b] {
      AbsorbedAt(h, bp, b);
    }
  }

  lemma AbsorbedAt(h: Heap, bp: int, b: int)
    requires bp in h.blocks && b in Absorbed(h, bp).blocks && b != FreeLeft(h.blocks, bp)
    ensures b in h.blocks && Absorbed(h, bp).blocks[b] == h.blocks[b]
  {
    hide FreeLeft, Minus, AbsorbLeft, AbsorbRight;
    AbsorbRightElsewhere(AbsorbLeft(h, bp), FreeLeft(h.blocks, bp), b);
    AbsorbLeftElsewhere(h, bp, b);
  }

  lemma AbsorbLeftElsewhere(h: Heap, bp: int, b: int)
    requires bp in h.blocks && b in AbsorbLeft(h, bp).blocks && b != FreeLeft(h.blocks, bp)
    ensures b in h.blocks && AbsorbLeft(h, bp).blocks[b] == h.blocks[b]
  {
  }

  lemma AbsorbRightElsewhere(h: Heap, l: int, b: int)
    requires l in h.blocks && b in AbsorbRight(h, l).blocks && b != l
    ensures b in h.blocks && AbsorbRight(h, l).blocks[b] == h.blocks[b]
  {
  }

  lemma PendingListed(h: Heap, x: int)
    requires Pending(h, x)
    ensures Listed(h) && x in h.blocks
  {
    OnList(h.blocks, h.free, x);
    hide Sized, Closed, Apart, Distinct, NoFreePair;
  }

  lemma PendingPushed(h: Heap, x: int)
    requires Pending(h, x)
    ensures Listed(h.(free := [x] + h.free))
  {
    hide Sized, Closed, Apart, NoFreePair;
    OnList(h.blocks, h.free, x);
    assert x !in h.free;
  }

  lemma LiveBlocks(h: Heap, g: Heap)
    requires h.blocks == g.blocks
    ensures Live(h) == Live(g)
  {
  }

  lemma WithinWhole(h: Heap, b: int)
    requires Listed(h) && b in h.blocks
    ensures Within(h, b, h.blocks[b].size)
    ensures FIRST <= b && Aligned(b) && Aligned(h.blocks[b].size) && b + h.blocks[b].size <= h.brk <= MAX_HEAP
    ensures MIN_BLOCKSIZE <= h.blocks[b].size
  {
    hide Apart, Distinct, OnBlocks, Aligned;
  }

  lemma InvListed(h: Heap)
    requires Inv(h)
    ensures Listed(h) && OnBlocks(h.blocks, h.free)
  {
    OnList(h.blocks, h.free, NULL);
    hide Sized, Closed, Apart, Distinct, NoFreePair;
  }

  // ---------- Freeing and placing ----------

  /** The header of a block about to be freed; its footer may be stale. */
  lemma FreedHeader(m: seq<Word>, start: int, h: Heap, bp: int)
    requires Rep(m, start, h, bp) && Listed(h) && bp in h.blocks && At(m, bp - WSIZE) == Tag(h.blocks[bp])
    ensures SizeOf(At(m, bp - WSIZE)) == h.blocks[bp].size
  {
    hide Apart, Distinct, OnBlocks, Base, Tagged, Chain, SizeOf, IsAlloc, Tag, At;
    WithinWhole(h, bp);
    TagRoundTrip(h.blocks[bp]);
  }

  lemma FreedTags(m: seq<Word>, start: int, h: Heap, bp: int)
    requires Rep(m, start, h, bp) && Inv(h) && bp in h.blocks && h.blocks[bp].alloc
    ensures 0 <= bp - WSIZE && bp + h.blocks[bp].size <= |m|
    ensures 0 <= Pack(h.blocks[bp].size, 0) < SIZE_T_MOD
    ensures var size := h.blocks[bp].size;
      var m', g := TagsWritten(m, bp, size, Pack(size, 0)), h.(blocks := Retagged(h.blocks, bp, false));
      Rep(m', start, g, NULL) && Pending(g, bp) && Listed(g) && KeepsLive(m, m', Live(g)) && Live(g) == Live(h) - {bp}
  {
    hide InvBut, Rep, Listed, KeepsLive, TagsWritten, Within, Aligned, At;
    ReleaseKeeps(h, bp);
    InvListed(h);
    WithinWhole(h, bp);
    var g := h.(blocks := Retagged(h.blocks, bp, false));
    PendingListed(g, bp);
    RetaggedRep(m, start, h, bp, false);
    WithinWhole(g, bp);
    TagsWrittenRep(m, start, g, bp, bp, h.blocks[bp].size, Pack(h.blocks[bp].size, 0));
    RepComplete(TagsWritten(m, bp, h.blocks[bp].size, Pack(h.blocks[bp].size, 0)), start, g, bp);
    assert Live(g) == Live(h) - {bp};
  }

  lemma PlaceableBlock(h: Heap, bp: int, n: int)
    requires Placeable(h, bp, n)
    ensures Listed(h) && !h.blocks[bp].alloc && bp != NULL
    ensures Within(h, bp, n) && Within(h, bp, h.blocks[bp].size)
  {
    hide InvBut, Listed, Within;
    InvListed(h);
    OnListMember(h, bp);
    WithinWhole(h, bp);
    WithinPart(h, bp, n);
  }

  lemma OnListMember(h: Heap, bp: int)
    requires Listed(h) && bp in h.free
    ensures bp in h.blocks && !h.blocks[bp].alloc
  {
    hide Sized, Apart, Distinct;
  }

  lemma WithinPart(h: Heap, b: int, n: int)
    requires Listed(h) && b in h.blocks && MIN_BLOCKSIZE <= n <= h.blocks[b].size
    ensures Within(h, b, n)
  {
    hide Sized, Apart, Distinct, OnBlocks;
  }

  /** After the allocated tags are written and bp is off the list, memory represents the split. */
  lemma CarvedRep(m: seq<Word>, start: int, h: Heap, bp: int, n: int)
    requires Placeable(h, bp, n) && h.blocks[bp].size - n >= MIN_BLOCKSIZE
    requires Rep(m, start, h.(free := Minus(h.free, bp)), bp)
    requires At(m, bp - WSIZE) == Pack(n, 1) && At(m, bp + n - DSIZE) == Pack(n, 1)
    ensures Rep(m, start, Carved(h, bp, n), bp + n) && Pending(Carved(h, bp, n), bp + n) && Listed(Carved(h, bp, n))
    ensures Live(Carved(h, bp, n)) == Live(h)[bp := n]
    ensures Carved(h, bp, n).brk == h.brk && Carved(h, bp, n).blocks[bp + n] == Block(h.blocks[bp].size - n, false)
  {
    hide InvBut, Rep, Listed, Aligned, At, Minus, Tiling, Live;
    DividedPending(h, bp, n);
    PlaceableBlock(h, bp, n);
    CarvedLive(h, bp, n);
    DividedRep(m, start, h.(free := Minus(h.free, bp)), bp, n);
    PendingListed(Carved(h, bp, n), bp + n);
    CarvedBrk(h, bp, n);
  }

  lemma CarvedLive(h: Heap, bp: int, n: int)
    requires bp in h.blocks && !h.blocks[bp].alloc && bp + n !in h.blocks
    ensures Live(Carved(h, bp, n)) == Live(h)[bp := n]
  {
  }

  lemma WholeRep(m: seq<Word>, start: int, h: Heap, bp: int, n: int)
    requires Placeable(h, bp, n)
    requires Rep(m, start, h.(free := Minus(h.free, bp)), bp)
    requires At(m, bp - WSIZE) == Pack(h.blocks[bp].size, 1)
    requires At(m, bp + h.blocks[bp].size - DSIZE) == Pack(h.blocks[bp].size, 1)
    ensures var g := Heap(Retagged(h.blocks, bp, true), Minus(h.free, bp), h.brk);
      Rep(m, start, g, NULL) && Inv(g) && Live(g) == Live(h)[bp := h.blocks[bp].size]
  {
    hide InvBut, Rep, Aligned, At, Minus;
    RetaggedPlaced(h, bp, n);
    RetaggedRep(m, start, h.(free := Minus(h.free, bp)), bp, true);
    RepComplete(m, start, Heap(Retagged(h.blocks, bp, true), Minus(h.free, bp), h.brk), bp);
  }

  lemma FreeNotLive(h: Heap, bp: int, k: int)
    requires bp in h.blocks && !h.blocks[bp].alloc
    ensures Live(h)[bp := k] - {bp} == Live(h)
    ensures bp !in Live(h)
  {
  }

  /** What the first-fit search reads at the i-th node of the list. */
  lemma ListTags(m: seq<Word>, start: int, h: Heap, i: int)
    requires Rep(m, start, h, NULL) && Listed(h) && 0 <= i <= |h.free|
    ensures Node(h.free, 0) == start
    ensures var bp := Node(h.free, i);
      && WordAligned(bp - WSIZE) && WordAligned(bp + DSIZE) && WSIZE <= bp && bp + 2 * DSIZE < h.brk
      && (IsAlloc(At(m, bp - WSIZE)) <==> i == |h.free|)
      && (i < |h.free| ==>
          && bp == h.free[i] && bp in h.blocks
          && SizeOf(At(m, bp - WSIZE)) == h.blocks[bp].size
          && At(m, bp + DSIZE) == Node(h.free, i + 1))
  {
    hide Rep, Listed, At, SizeOf, IsAlloc, Aligned, WordAligned, Tag;
    ReadNode(m, start, h, NULL, i);
    AlignedWords(Node(h.free, i));
    if i < |h.free| {
      OnListMember(h, h.free[i]);
      WithinWhole(h, h.free[i]);
      ReadTags(m, start, h, NULL, h.free[i]);
    } else {
      PrologueTag(m, start, h);
    }
  }

  lemma PrologueTag(m: seq<Word>, start: int, h: Heap)
    requires Rep(m, start, h, NULL)
    ensures IsAlloc(At(m, PROLOGUE - WSIZE))
  {
    hide Chain, Tagged, IsAlloc, SizeOf, Tag, Aligned;
    AlignedSum(0, 0);
    TagRoundTrip(Block(MIN_BLOCKSIZE, true));
  }

  lemma ReadBlock(m: seq<Word>, start: int, h: Heap, x: int, b: int)
    requires Rep(m, start, h, x) && Listed(h) && b in h.blocks && b != x
    ensures SizeOf(At(m, b - WSIZE)) == h.blocks[b].size && IsAlloc(At(m, b - WSIZE)) == h.blocks[b].alloc
    ensures At(m, b - WSIZE) == Tag(h.blocks[b]) && At(m, b + h.blocks[b].size - DSIZE) == Tag(h.blocks[b])
  {
    hide Apart, Distinct, OnBlocks, Base, Chain, SizeOf, IsAlloc, Tag, Aligned, At;
    ReadTags(m, start, h, x, b);
  }

  lemma GrownSameLive(h: Heap, size: int)
    requires h.brk !in h.blocks
    ensures Live(Grown(h, size)) == Live(h)
  {
  }

  lemma GrownPending(h: Heap, size: int)
    requires CanGrow(h, size)
    ensures Listed(h) && FIRST <= h.brk && Aligned(h.brk)
    ensures Grown(h, size).brk == h.brk + size && FIRST < h.brk + size
    ensures Pending(Grown(h, size), h.brk) && Listed(Grown(h, size)) && Live(Grown(h, size)) == Live(h)
  {
    hide InvBut, Tiling, Aligned, WordAligned, Pending, Listed, Live, Extend;
    ExtendKeeps(h, size);
    BreakIsFree(h);
    PendingListed(Grown(h, size), h.brk);
    InvButListed(h);
    GrownSameLive(h, size);
  }

  lemma InvButListed(h: Heap)
    requires InvBut(h, NULL)
    ensures Listed(h) && FIRST <= h.brk && Aligned(h.brk)
  {
    hide Closed, Apart, Distinct, NoFreePair, Aligned;
    OnList(h.blocks, h.free, NULL);
  }

  // ---------- The empty heap ----------

  lemma EmptyRep(m: seq<Word>, start: int)
    requires |m| == MAX_HEAP && start == PROLOGUE && At(m, PROLOGUE) == NULL
    requires At(m, PROLOGUE - WSIZE) == Pack(MIN_BLOCKSIZE, 1)
    requires At(m, PROLOGUE + MIN_BLOCKSIZE - DSIZE) == Pack(MIN_BLOCKSIZE, 1)
    requires SizeOf(At(m, FIRST - DSIZE)) == 0
    ensures Rep(m, start, Heap(map[], [], FIRST), NULL)
    ensures Listed(Heap(map[], [], FIRST)) && InvBut(Heap(map[], [], FIRST), NULL)
  {
  }

  lemma FirstExtension(c: Build)
    ensures var n := c.ExtendBytes(c.FirstWords()); n == (if c.FreeList? then 32 else 24) && Aligned(n)
    ensures var n := c.ExtendBytes(c.FirstWords());
      Extend(Heap(map[], [], FIRST), n) == Heap(map[FIRST := Block(n, false)], [FIRST], FIRST + n)
  {
    hide Tiling, Distinct, FreeIs, NoFreePair;
  }

  // ---------- mm_realloc ----------

  /** The header of a new last part of a block is written before its footer. */
  lemma HeaderWrittenRep(m: seq<Word>, start: int, h: Heap, b: int, w: Word)
    requires Rep(m, start, h, b) && Listed(h) && b in h.blocks
    ensures 0 <= b - WSIZE < |m|
    ensures Rep(m[b - WSIZE := w], start, h, b) && KeepsLive(m, m[b - WSIZE := w], Live(h))
  {
    hide Rep, Framed, Listed, Chain, KeepsLive, Tagged, Sized, Apart, OnBlocks, Distinct, Aligned, WordAligned, At,
      LinksKept, SameFrame;
    RepFramed(m, start, h, b);
    ListedParts(h);
    ListedBlock(h, b);
    FramedParts(m, h, b);
    HeaderWrittenTagged(m, h, b, w);
    HeaderWrittenLive(m, h, b, w);
    HeaderWrittenLinks(m, h, b, w);
    FrameKept(m, h.brk, b - WSIZE, w);
    FramedKept(m, m[b - WSIZE := w], h, b, b);
    ChainKept(m, m[b - WSIZE := w], start, h);
    FramedRep(m[b - WSIZE := w], start, h, h.free, b);
  }

  lemma HeaderWrittenTagged(m: seq<Word>, h: Heap, b: int, w: Word)
    requires Sized(h.blocks, h.brk) && Apart(h.blocks) && |m| == MAX_HEAP && b in h.blocks && Tagged(m, h.blocks, b)
    ensures 0 <= b - WSIZE < |m| && Tagged(m[b - WSIZE := w], h.blocks, b)
  {
    hide Aligned, WordAligned;
  }

  lemma HeaderWrittenLinks(m: seq<Word>, h: Heap, b: int, w: Word)
    requires Sized(h.blocks, h.brk) && Apart(h.blocks) && |m| == MAX_HEAP && b in h.blocks
    ensures 0 <= b - WSIZE < |m| && LinksKept(m, m[b - WSIZE := w], h.blocks)
  {
    hide IsLink;
    TagsAreNotLinks(h.blocks, h.brk, b, h.blocks[b].size);
  }

  lemma HeaderWrittenLive(m: seq<Word>, h: Heap, b: int, w: Word)
    requires Sized(h.blocks, h.brk) && Apart(h.blocks) && |m| == MAX_HEAP && b in h.blocks
    ensures 0 <= b - WSIZE < |m| && KeepsLive(m, m[b - WSIZE := w], Live(h))
  {
  }

  // ---------- Writing to a live payload ----------

  ghost predicate InPayload(L: map<int, int>, b: int, p: int) {
    b in L && b <= p < b + L[b] - DSIZE
  }

  lemma PayloadWrittenRep(m: seq<Word>, start: int, h: Heap, b: int, p: int, v: Word)
    requires Rep(m, start, h, NULL) && Listed(h) && InPayload(Live(h), b, p)
    ensures 0 <= p < |m|
    ensures Rep(m[p := v], start, h, NULL) && KeepsLive(m, m[p := v], Live(h) - {b})
  {
    hide Rep, Framed, Listed, Chain, KeepsLive, Tagged, Sized, Apart, OnBlocks, Distinct, Aligned, WordAligned, At,
      LinksKept, SameFrame;
    RepFramed(m, start, h, NULL);
    ListedParts(h);
    ListedBlock(h, b);
    FramedParts(m, h, NULL);
    PayloadWrittenTagged(m, h, b, p, v);
    PayloadWrittenLive(m, h, b, p, v);
    PayloadWrittenLinks(m, h, b, p, v);
    FrameKept(m, h.brk, p, v);
    FramedKept(m, m[p := v], h, NULL, NULL);
    ChainKept(m, m[p := v], start, h);
    FramedRep(m[p := v], start, h, h.free, NULL);
  }

  lemma PayloadWrittenTagged(m: seq<Word>, h: Heap, b: int, p: int, v: Word)
    requires Sized(h.blocks, h.brk) && Apart(h.blocks) && |m| == MAX_HEAP && InPayload(Live(h), b, p)
    requires Tagged(m, h.blocks, NULL)
    ensures 0 <= p < |m| && Tagged(m[p := v], h.blocks, NULL)
  {
    hide Sized, Apart, Aligned, WordAligned, At;
    ListedBlock(h, b);
    WordWritten(m, p, v);
    forall c {:trigger h.blocks[c]} | c in h.blocks && c != NULL
      ensures p != c - WSIZE && p != c + h.blocks[c].size - DSIZE
    {
      ListedBlock(h, c);
      if c < b { ApartPair(h.blocks, c, b); }
      if b < c { ApartPair(h.blocks, b, c); }
    }
  }

  lemma PayloadWrittenLinks(m: seq<Word>, h: Heap, b: int, p: int, v: Word)
    requires Sized(h.blocks, h.brk) && Apart(h.blocks) && |m| == MAX_HEAP && InPayload(Live(h), b, p)
    ensures 0 <= p < |m| && LinksKept(m, m[p := v], h.blocks)
  {
  }

  lemma PayloadWrittenLive(m: seq<Word>, h: Heap, b: int, p: int, v: Word)
    requires Sized(h.blocks, h.brk) && Apart(h.blocks) && |m| == MAX_HEAP && InPayload(Live(h), b, p)
    ensures 0 <= p < |m| && KeepsLive(m, m[p := v], Live(h) - {b})
  {
  }

  /** Memory after mm_realloc has tagged the part it keeps and headed the part it gives back. */
  lemma CutRep(m: seq<Word>, start: int, h: Heap, ptr: int, n: int, w: Word, v: Word)
    requires Cuttable(h, ptr, n) && Rep(m, start, h, NULL)
    requires w == Pack(n, 1) && v == Pack(h.blocks[ptr].size - n, 1)
    ensures Listed(h) && 0 <= ptr - WSIZE && ptr + n <= |m|
    ensures var m' := TagsWritten(m, ptr, n, w)[ptr + n - WSIZE := v]; var g := Cut(h, ptr, n);
      && Rep(m', start, g, ptr + n) && Listed(g) && At(m', ptr + n - WSIZE) == Tag(g.blocks[ptr + n])
      && KeepsLive(m, m', Live(h)[ptr := n])
  {
    hide Rep, InvBut, Tagged, Chain, KeepsLive, Sized, Apart, Tiling, OnBlocks, Distinct, TagsWritten, Cut, Divided,
      Retagged, Within, Live, Listed;
    InvListed(h);
    CutKeeps(h, ptr, n);
    var g := Cut(h, ptr, n);
    InvListed(g);
    WithinWhole(h, ptr);
    WithinPart(h, ptr, n);
    TagsWrittenRep(m, start, h, NULL, ptr, n, w);
    var m1 := TagsWritten(m, ptr, n, w);
    CutRepBlocks(m1, start, h, ptr, n);
    HeaderWrittenRep(m1, start, g, ptr + n, v);
    var m2 := m1[ptr + n - WSIZE := v];
    KeepsLiveShrink(m1, m2, Live(g), Live(h)[ptr := n]);
    KeepsLiveStep(m, m1, m2, Live(h)[ptr := n]);
  }

  lemma CutRepBlocks(m: seq<Word>, start: int, h: Heap, ptr: int, n: int)
    requires Rep(m, start, h, ptr) && ptr in h.blocks && n != 0
    requires At(m, ptr - WSIZE) == Pack(n, 1) && At(m, ptr + n - DSIZE) == Pack(n, 1)
    ensures Rep(m, start, Cut(h, ptr, n), ptr + n)
  {
    hide Chain, Base, Divided, Tagged;
    DividedRep(m, start, h, ptr, n);
    RetaggedRep(m, start, h.(blocks := Divided(h.blocks, ptr, n)), ptr + n, true);
  }

  lemma PayloadInside(h: Heap, b: int, p: int)
    requires Listed(h) && InPayload(Live(h), b, p) && WordAligned(p)
    ensures FIRST <= p && p + WSIZE <= h.brk <= MAX_HEAP
  {
    hide Apart, Distinct, OnBlocks;
    InsideHeap(h.blocks, h.brk, b);
  }

  lemma LiveBounds(h: Heap, b: int)
    requires Listed(h) && b in Live(h)
    ensures b in h.blocks && h.blocks[b] == Block(Live(h)[b], true)
    ensures FIRST <= b && Aligned(b) && Aligned(Live(h)[b]) && MIN_BLOCKSIZE <= Live(h)[b]
    ensures b + Live(h)[b] <= h.brk <= MAX_HEAP
  {
    hide Apart, Distinct, OnBlocks, Aligned;
  }

  lemma LiveBytes(m: seq<Word>, m': seq<Word>, L: map<int, int>, b: int)
    requires KeepsLive(m, m', L) && b in L && Aligned(b)
    ensures BytesCopied(m, m', b, b, L[b] - DSIZE)
  {
    hide ByteOf, At;
    forall a {:trigger ByteAt(m', a)} | b <= a < b + L[b] - DSIZE ensures ByteAt(m', a) == ByteAt(m, b + (a - b)) {
      ByteInWord(m, b, a - b);
      ByteInWord(m', b, a - b);
      var p := b + ((a - b) - (a - b) % WSIZE);
      assert At(m', p) == At(m, p);
    }
  }

  /** The two live blocks of a moving mm_realloc do not overlap. */
  lemma MovePlan(h: Heap, g: Heap, ptr: int, r: int, n: int)
    requires Inv(g) && ptr in Live(h) && r !in Live(h) && r in Live(g) && Live(g) == Live(h)[r := Live(g)[r]]
    ensures ptr in Live(g) && Live(g)[ptr] == Live(h)[ptr] && ptr in g.blocks
    ensures g.blocks[ptr] == Block(Live(h)[ptr], true)
    ensures ptr + Live(h)[ptr] <= r || r + Live(g)[r] <= ptr
    ensures Listed(g)
  {
    hide Sized, Closed, Apart, FreeIs, NoFreePair, Distinct, Listed, Live, Aligned;
    InvListed(g);
    LiveBounds(g, r);
    LiveBounds(g, ptr);
    if ptr < r { ApartPair(g.blocks, ptr, r); } else { ApartPair(g.blocks, r, ptr); }
  }

  /** The data follows the block: old payload, copy, and what freeing the old block leaves. */
  lemma MovedBytes(m0: seq<Word>, m1: seq<Word>, m2: seq<Word>, m3: seq<Word>, L0: map<int, int>, L1: map<int, int>,
                   ptr: int, r: int, n: int)
    requires KeepsLive(m0, m1, L0) && KeepsLive(m1, m2, L1 - {r}) && KeepsLive(m2, m3, L1 - {ptr})
    requires ptr in L0 && r !in L0 && r in L1 && L1 == L0[r := L1[r]] && Aligned(ptr) && Aligned(r)
    requires BytesCopied(m1, m2, r, ptr, n) && n <= L1[r] - DSIZE
    ensures KeepsLive(m0, m3, L0 - {ptr})
    ensures forall k :: k <= n && k <= L0[ptr] - DSIZE ==> BytesCopied(m0, m3, r, ptr, k)
  {
    hide KeepsLive, BytesCopied, Aligned;
    KeepsLiveShrink(m0, m1, L0, L0 - {ptr});
    KeepsLiveShrink(m1, m2, L1 - {r}, L0 - {ptr});
    KeepsLiveShrink(m2, m3, L1 - {ptr}, L0 - {ptr});
    KeepsLiveStep(m0, m1, m2, L0 - {ptr});
    KeepsLiveStep(m0, m2, m3, L0 - {ptr});
    LiveBytes(m0, m1, L0, ptr);
    LiveBytes(m2, m3, L1 - {ptr}, r);
    forall k | k <= n && k <= L0[ptr] - DSIZE ensures BytesCopied(m0, m3, r, ptr, k) {
      BytesCopiedPrefix(m1, m2, r, ptr, n, k);
      BytesCopiedTrans(m0, m1, m2, ptr, ptr, r, L0[ptr] - DSIZE, k);
      BytesCopiedPrefix(m2, m3, r, r, L1[r] - DSIZE, k);
      BytesCopiedTrans(m0, m2, m3, ptr, r, r, k, k);
    }
  }
}
