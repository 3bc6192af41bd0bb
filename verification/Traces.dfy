/** What the malloc driver keeps about a trace: for every block that is live, the slot of its
    index holds the block's address and size, and its bytes hold the index. */
module Traces {
  import opened Sequences
  import opened HeapShape
  import opened HeapSpec
  import opened HeapTheorems
  import opened HeapMemory
  import opened Words

  datatype Operation = ALLOC(index: int, size: int) | REALLOC(index: int, size: int) | FREE(index: int)

  /** A trace for num_ids blocks, given the live indices, most recently listed first: positive
      int sizes, an index allocated only while it is not live, resized and freed only while it is. */
  ghost predicate WellFormed(ops: seq<Operation>, num_ids: int, live: seq<int>) {
    ops == [] || (
      match ops[0]
      case ALLOC(i, size) =>
        0 <= i < num_ids && 0 < size < SIZE_T_MOD / 2 && i !in live && WellFormed(ops[1..], num_ids, [i] + live)
      case REALLOC(i, size) =>
        i in live && 0 < size < SIZE_T_MOD / 2 && WellFormed(ops[1..], num_ids, [i] + Minus(live, i))
      case FREE(i) => i in live && WellFormed(ops[1..], num_ids, Minus(live, i))
    )
  }

  /** The live indices after a trace. */
  ghost function LiveAfter(ops: seq<Operation>, live: seq<int>): seq<int> {
    if ops == [] then live
    else
      match ops[0]
      case ALLOC(i, size) => LiveAfter(ops[1..], [i] + live)
      case REALLOC(i, size) => LiveAfter(ops[1..], [i] + Minus(live, i))
      case FREE(i) => LiveAfter(ops[1..], Minus(live, i))
  }

  lemma {:induction false} LiveAfterStep(ops: seq<Operation>, n: nat, live: seq<int>)
    requires n < |ops|
    ensures LiveAfter(ops[..n + 1], live) == LiveAfter([ops[n]], LiveAfter(ops[..n], live))
  {
    if n > 0 {
      assert ops[..n + 1][1..] == ops[1..][..n] && ops[..n][1..] == ops[1..][..n - 1];
      match ops[0]
      case ALLOC(i, size) => LiveAfterStep(ops[1..], n - 1, [i] + live);
      case REALLOC(i, size) => LiveAfterStep(ops[1..], n - 1, [i] + Minus(live, i));
      case FREE(i) => LiveAfterStep(ops[1..], n - 1, Minus(live, i));
    } else {
      assert ops[..1] == [ops[0]] && ops[..0] == [];
    }
  }

  // ---------- Slots ----------

  /** Slot i describes a live block with room for its size. */
  ghost predicate Slot(L: map<int, int>, P: seq<int>, S: seq<int>, i: int) {
    0 <= i < |P| && i < |S| && P[i] in L && 0 < S[i] <= L[P[i]] - DSIZE
  }

  ghost predicate AllSlots(L: map<int, int>, P: seq<int>, S: seq<int>, live: seq<int>) {
    forall k {:trigger live[k]} :: 0 <= k < |live| ==> Slot(L, P, S, live[k])
  }

  ghost predicate OneSlotEach(P: seq<int>, live: seq<int>) {
    forall j, k {:trigger live[j], live[k]} :: 0 <= j < k < |live| && 0 <= live[j] < |P| && 0 <= live[k] < |P| ==>
      P[live[j]] != P[live[k]]
  }

  /** Block b is the one that some live index names. */
  ghost predicate Named(P: seq<int>, live: seq<int>, b: int) {
    exists k {:trigger live[k]} :: 0 <= k < |live| && 0 <= live[k] < |P| && P[live[k]] == b
  }

  ghost predicate AllNamed(L: map<int, int>, P: seq<int>, live: seq<int>) {
    forall b {:trigger Named(P, live, b)} :: b in L ==> Named(P, live, b)
  }

  /** The live indices name exactly the live blocks, each once. */
  ghost predicate Slots(L: map<int, int>, P: seq<int>, S: seq<int>, live: seq<int>) {
    |P| == |S| && Distinct(live) && AllSlots(L, P, S, live) && OneSlotEach(P, live) && AllNamed(L, P, live)
  }

  lemma SlotsAlloc(L: map<int, int>, L': map<int, int>, P: seq<int>, S: seq<int>, live: seq<int>, i: int, r: int,
                   size: int)
    requires Slots(L, P, S, live) && 0 <= i < |P| && i !in live
    requires r !in L && r in L' && L' == L[r := L'[r]] && 0 < size <= L'[r] - DSIZE
    ensures Slots(L', P[i := r], S[i := size], [i] + live)
  {
    hide OneSlotEach, AllNamed, Named;
    forall k | 0 <= k < |live| ensures live[k] != i { assert live[k] in live; }
    AllocSeparate(L, P, S, live, i, r);
    AllocNamed(L, L', P, live, i, r);
  }

  lemma AllocSeparate(L: map<int, int>, P: seq<int>, S: seq<int>, live: seq<int>, i: int, r: int)
    requires AllSlots(L, P, S, live) && OneSlotEach(P, live) && 0 <= i < |P| && i !in live && r !in L
    ensures OneSlotEach(P[i := r], [i] + live)
  {
    forall k | 0 <= k < |live| ensures live[k] != i { assert live[k] in live; }
  }

  lemma AllocNamed(L: map<int, int>, L': map<int, int>, P: seq<int>, live: seq<int>, i: int, r: int)
    requires AllNamed(L, P, live) && 0 <= i < |P| && i !in live && r in L' && L' == L[r := L'[r]]
    ensures AllNamed(L', P[i := r], [i] + live)
  {
    hide Named;
    forall b {:trigger Named(P[i := r], [i] + live, b)} | b in L' ensures Named(P[i := r], [i] + live, b) {
      if b == r { NamedFirst(P, live, i, r); } else { NamedLater(P, live, i, r, b); }
    }
  }

  lemma NamedFirst(P: seq<int>, live: seq<int>, i: int, r: int)
    requires 0 <= i < |P|
    ensures Named(P[i := r], [i] + live, r)
  {
    assert ([i] + live)[0] == i;
  }

  lemma NamedLater(P: seq<int>, live: seq<int>, i: int, r: int, b: int)
    requires Named(P, live, b) && 0 <= i < |P| && i !in live
    ensures Named(P[i := r], [i] + live, b)
  {
    var k :| 0 <= k < |live| && 0 <= live[k] < |P| && P[live[k]] == b;
    assert live[k] in live;
    assert ([i] + live)[k + 1] == live[k];
  }

  lemma SlotsFree(L: map<int, int>, P: seq<int>, S: seq<int>, live: seq<int>, i: int)
    requires Slots(L, P, S, live) && i in live
    ensures Slot(L, P, S, i) && Slots(L - {P[i]}, P, S, Minus(live, i))
  {
    hide Named, AllNamed, Minus, OneSlotEach;
    var j :| 0 <= j < |live| && live[j] == i;
    MinusMembers(live, i);
    FreeSlots(L, P, S, live, j);
    FreeNamed(L, P, S, live, j);
  }

  lemma FreeSlots(L: map<int, int>, P: seq<int>, S: seq<int>, live: seq<int>, j: nat)
    requires Distinct(live) && AllSlots(L, P, S, live) && OneSlotEach(P, live) && j < |live|
    ensures Slot(L, P, S, live[j])
    ensures AllSlots(L - {P[live[j]]}, P, S, Minus(live, live[j]))
    ensures OneSlotEach(P, Minus(live, live[j]))
  {
    hide Minus, Distinct;
    MinusAt(live, j);
    FreeAllSlots(L, P, S, live, j);
    FreeSeparate(P, live, j);
  }

  lemma FreeAllSlots(L: map<int, int>, P: seq<int>, S: seq<int>, live: seq<int>, j: nat)
    requires AllSlots(L, P, S, live) && OneSlotEach(P, live) && j < |live|
    ensures Slot(L, P, S, live[j]) && AllSlots(L - {P[live[j]]}, P, S, live[..j] + live[j + 1..])
  {
    var M := live[..j] + live[j + 1..];
    forall k | 0 <= k < |M| ensures Slot(L - {P[live[j]]}, P, S, M[k]) {
      var k' := if k < j then k else k + 1;
      assert M[k] == live[k'] && P[live[k']] != P[live[j]];
    }
  }

  lemma FreeSeparate(P: seq<int>, live: seq<int>, j: nat)
    requires OneSlotEach(P, live) && j < |live|
    ensures OneSlotEach(P, live[..j] + live[j + 1..])
  {
    var M := live[..j] + live[j + 1..];
    forall a, b {:trigger M[a], M[b]} | 0 <= a < b < |M| && 0 <= M[a] < |P| && 0 <= M[b] < |P|
      ensures P[M[a]] != P[M[b]]
    {
      assert M[a] == live[if a < j then a else a + 1] && M[b] == live[if b < j then b else b + 1];
    }
  }

  lemma FreeNamed(L: map<int, int>, P: seq<int>, S: seq<int>, live: seq<int>, j: nat)
    requires Distinct(live) && AllNamed(L, P, live) && j < |live| && 0 <= live[j] < |P|
    ensures AllNamed(L - {P[live[j]]}, P, Minus(live, live[j]))
  {
    MinusAt(live, j);
    hide Minus, Distinct, AllNamed;
    var M := live[..j] + live[j + 1..];
    forall b {:trigger Named(P, M, b)} | b in L && b != P[live[j]] ensures Named(P, M, b) {
      NamedIn(L, P, live, b);
      NamedStill(P, live, j, b);
    }
    NamedOut(L, P, M, P[live[j]]);
  }

  lemma NamedStill(P: seq<int>, live: seq<int>, j: nat, b: int)
    requires j < |live| && 0 <= live[j] < |P| && Named(P, live, b) && b != P[live[j]]
    ensures Named(P, live[..j] + live[j + 1..], b)
  {
    var M := live[..j] + live[j + 1..];
    var k :| 0 <= k < |live| && 0 <= live[k] < |P| && P[live[k]] == b;
    assert M[if k < j then k else k - 1] == live[k];
  }

  lemma NamedIn(L: map<int, int>, P: seq<int>, live: seq<int>, b: int)
    requires AllNamed(L, P, live) && b in L
    ensures Named(P, live, b)
  {
  }

  lemma NamedOut(L: map<int, int>, P: seq<int>, live: seq<int>, p: int)
    requires forall b {:trigger Named(P, live, b)} :: b in L && b != p ==> Named(P, live, b)
    ensures AllNamed(L - {p}, P, live)
  {
    hide Named;
  }

  // ---------- Ranges and contents ----------

  /** The first and last byte of a payload, as the trace asked for it. */
  datatype Range = Range(lo: int, hi: int)

  function RangesOf(P: seq<int>, S: seq<int>, live: seq<int>): (R: seq<Range>)
    ensures |R| == |live|
  {
    if live == [] then []
    else [Range(SlotAt(P, live[0]), SlotAt(P, live[0]) + SlotAt(S, live[0]) - 1)] + RangesOf(P, S, live[1..])
  }

  function SlotAt(P: seq<int>, i: int): int { if 0 <= i < |P| then P[i] else 0 }

  lemma {:induction false} RangesAt(P: seq<int>, S: seq<int>, live: seq<int>, k: nat)
    requires k < |live|
    ensures RangesOf(P, S, live)[k] == Range(SlotAt(P, live[k]), SlotAt(P, live[k]) + SlotAt(S, live[k]) - 1)
  {
    if k > 0 { RangesAt(P, S, live[1..], k - 1); }
  }

  lemma {:induction false} RangesElsewhere(P: seq<int>, S: seq<int>, live: seq<int>, i: int, p: int, s: int)
    requires i !in live && 0 <= i < |P| && |P| == |S|
    ensures RangesOf(P[i := p], S[i := s], live) == RangesOf(P, S, live)
  {
    if live != [] {
      assert live[0] in live;
      RangesElsewhere(P, S, live[1..], i, p, s);
    }
  }

  /** The list without its first range that starts at lo. */
  function RemoveFirst(R: seq<Range>, lo: int): seq<Range> {
    if R == [] then [] else if R[0].lo == lo then R[1..] else [R[0]] + RemoveFirst(R[1..], lo)
  }

  ghost predicate NoneAt(R: seq<Range>, lo: int) {
    forall k {:trigger R[k]} :: 0 <= k < |R| ==> R[k].lo != lo
  }

  /** remove_range takes out the first range at this address, and nothing else. */
  lemma {:induction false} RemoveFirstIs(R: seq<Range>, lo: int, k: nat)
    requires k <= |R| && NoneAt(R[..k], lo) && (k < |R| ==> R[k].lo == lo)
    ensures RemoveFirst(R, lo) == if k == |R| then R else R[..k] + R[k + 1..]
  {
    hide NoneAt;
    if k == 0 {
      if R != [] { assert R[..0] + R[1..] == R[1..]; }
    } else {
      NoneAtRest(R, lo, k);
      RemoveFirstIs(R[1..], lo, k - 1);
      JoinFirst(R, k);
    }
  }

  lemma NoneAtRest(R: seq<Range>, lo: int, k: nat)
    requires 0 < k <= |R| && NoneAt(R[..k], lo)
    ensures R[0].lo != lo && NoneAt(R[1..][..k - 1], lo)
  {
    assert R[..k][0] == R[0] && R[1..][..k - 1] == R[..k][1..];
  }

  lemma JoinFirst<X>(R: seq<X>, k: nat)
    requires 0 < k <= |R|
    ensures [R[0]] + R[1..] == R
    ensures k < |R| ==> [R[0]] + (R[1..][..k - 1] + R[1..][k..]) == R[..k] + R[k + 1..]
  {
  }

  lemma {:induction false} RangesRemove(P: seq<int>, S: seq<int>, live: seq<int>, i: int)
    requires i in live
    requires forall k {:trigger live[k]} :: 0 <= k < |live| && live[k] != i ==> SlotAt(P, live[k]) != SlotAt(P, i)
    ensures RemoveFirst(RangesOf(P, S, live), SlotAt(P, i)) == RangesOf(P, S, Minus(live, i))
  {
    if live[0] != i {
      forall k {:trigger live[1..][k]} | 0 <= k < |live[1..]| && live[1..][k] != i
        ensures SlotAt(P, live[1..][k]) != SlotAt(P, i)
      {
        assert live[1..][k] == live[k + 1];
      }
      RangesRemove(P, S, live[1..], i);
    }
  }

  lemma SlotsRemove(L: map<int, int>, P: seq<int>, S: seq<int>, live: seq<int>, i: int)
    requires Slots(L, P, S, live) && i in live
    ensures 0 <= i < |P| && RemoveFirst(RangesOf(P, S, live), P[i]) == RangesOf(P, S, Minus(live, i))
  {
    hide AllNamed, RemoveFirst, RangesOf, Minus;
    var j :| 0 <= j < |live| && live[j] == i;
    assert Slot(L, P, S, live[j]);
    forall k {:trigger live[k]} | 0 <= k < |live| && live[k] != i ensures SlotAt(P, live[k]) != SlotAt(P, i) {
      assert Slot(L, P, S, live[k]);
    }
    RangesRemove(P, S, live, i);
  }

  /** add_range's overlap test: an end of the new payload lies in the old one. */
  predicate EndInside(lo: int, hi: int, r: Range) {
    (r.lo <= lo <= r.hi) || (r.lo <= hi <= r.hi)
  }

  ghost predicate NoneInside(lo: int, hi: int, R: seq<Range>) {
    forall k {:trigger R[k]} :: 0 <= k < |R| ==> !EndInside(lo, hi, R[k])
  }

  predicate Covers(r: Range, x: int) { r.lo <= x <= r.hi }

  /** The test misses an overlap exactly when the new payload strictly contains the old one. */
  lemma EndTestMisses(n: Range, r: Range)
    requires n.lo <= n.hi && r.lo <= r.hi
    ensures (exists x :: Covers(n, x) && Covers(r, x)) && !EndInside(n.lo, n.hi, r) <==> n.lo < r.lo && r.hi < n.hi
  {
    assert Covers(r, r.lo);
    assert n.lo < r.lo && r.hi < n.hi ==> Covers(n, r.lo);
  }

  /** The range from 48 to 63 passes the test against the one from 56 to 60 that it contains. */
  lemma EndTestMissesOne()
    ensures !EndInside(48, 63, Range(56, 60)) && Covers(Range(48, 63), 58) && Covers(Range(56, 60), 58)
  {
  }

  /** A new live block has neither end in any listed range. */
  lemma NoEndInside(h: Heap, P: seq<int>, S: seq<int>, live: seq<int>, r: int, size: int, k: nat)
    requires Inv(h) && r in Live(h) && 0 < size <= Live(h)[r] - DSIZE && k < |live|
    requires Slot(Live(h), P, S, live[k]) && P[live[k]] != r
    ensures !EndInside(r, r + size - 1, RangesOf(P, S, live)[k])
  {
    hide Sized, Closed, Distinct, FreeIs, NoFreePair, RangesOf;
    RangesAt(P, S, live, k);
    var b := P[live[k]];
    if b < r { ApartPair(h.blocks, b, r); } else { ApartPair(h.blocks, r, b); }
  }

  lemma NewRangeFits(L: map<int, int>, g: Heap, P: seq<int>, S: seq<int>, live: seq<int>, r: int, size: int)
    requires Slots(L, P, S, live) && Inv(g) && r !in L && r in Live(g) && Live(g) == L[r := Live(g)[r]]
    requires 0 < size <= Live(g)[r] - DSIZE
    ensures NoneInside(r, r + size - 1, RangesOf(P, S, live))
    ensures r % 8 == 0 && FIRST <= r && r + size <= g.brk
  {
    hide InvBut, Live, EndInside, Distinct, OneSlotEach, AllNamed, RangesOf;
    forall k | 0 <= k < |live| ensures !EndInside(r, r + size - 1, RangesOf(P, S, live)[k]) {
      assert Slot(L, P, S, live[k]);
      NoEndInside(g, P, S, live, r, size, k);
    }
    NewBounds(g, r, size);
  }

  lemma NewBounds(h: Heap, r: int, size: int)
    requires Inv(h) && r in Live(h) && size <= Live(h)[r] - DSIZE
    ensures r % 8 == 0 && FIRST <= r && r + size <= h.brk
  {
    hide Closed, Apart, Distinct, FreeIs, NoFreePair;
  }

  /** The bytes of every live block hold the low byte of its index. */
  ghost predicate Filled(m: seq<Word>, P: seq<int>, S: seq<int>, live: seq<int>) {
    forall k {:trigger live[k]} :: 0 <= k < |live| ==>
      BytesFilled(m, SlotAt(P, live[k]), SlotAt(S, live[k]), live[k] % 0x100)
  }

  lemma FilledKept(m: seq<Word>, m': seq<Word>, h: Heap, L: map<int, int>, P: seq<int>, S: seq<int>, live: seq<int>)
    requires Filled(m, P, S, live) && KeepsLive(m, m', L) && AllSlots(L, P, S, live)
    requires Listed(h) && (forall b {:trigger b in L} :: b in L ==> b in Live(h))
    ensures Filled(m', P, S, live)
  {
    hide KeepsLive, Listed, Live, BytesFilled, Aligned;
    forall k | 0 <= k < |live| ensures BytesFilled(m', SlotAt(P, live[k]), SlotAt(S, live[k]), live[k] % 0x100) {
      var b, n := P[live[k]], S[live[k]];
      assert Slot(L, P, S, live[k]);
      LiveBounds(h, b);
      LiveBytes(m, m', L, b);
      FilledCopied(m, m', b, n, live[k] % 0x100, L[b] - DSIZE);
    }
  }

  lemma FilledCopied(m: seq<Word>, m': seq<Word>, b: int, n: int, v: int, k: int)
    requires BytesFilled(m, b, n, v) && BytesCopied(m, m', b, b, k) && n <= k
    ensures BytesFilled(m', b, n, v)
  {
    hide ByteAt;
  }

  lemma FilledAlloc(m: seq<Word>, P: seq<int>, S: seq<int>, live: seq<int>, i: int, p: int, s: int)
    requires Filled(m, P, S, live) && i !in live && 0 <= i < |P| && |P| == |S| && BytesFilled(m, p, s, i % 0x100)
    ensures Filled(m, P[i := p], S[i := s], [i] + live)
  {
    hide BytesFilled;
    forall k | 0 <= k < |live| ensures live[k] != i { assert live[k] in live; }
  }

  lemma FilledFree(m: seq<Word>, P: seq<int>, S: seq<int>, live: seq<int>, i: int)
    requires Filled(m, P, S, live) && Distinct(live) && i in live
    ensures Filled(m, P, S, Minus(live, i))
  {
    hide BytesFilled, Distinct, Minus;
    var j :| 0 <= j < |live| && live[j] == i;
    MinusAt(live, j);
    var M := live[..j] + live[j + 1..];
    forall k | 0 <= k < |M| ensures BytesFilled(m, SlotAt(P, M[k]), SlotAt(S, M[k]), M[k] % 0x100) {
      assert M[k] == live[if k < j then k else k + 1];
    }
  }

  // ---------- The total that is live ----------

  ghost function Total(S: seq<int>, live: seq<int>): int {
    if live == [] then 0 else SlotAt(S, live[0]) + Total(S, live[1..])
  }

  ghost function Names(P: seq<int>, live: seq<int>): (A: seq<int>)
    ensures |A| == |live| && forall k :: 0 <= k < |A| ==> A[k] == SlotAt(P, live[k])
  {
    if live == [] then [] else [SlotAt(P, live[0])] + Names(P, live[1..])
  }

  lemma {:induction false} BytesWithout(B: Blocks, W: seq<int>, b: int)
    requires b in W
    ensures Bytes(B, W) == SizeAt(B, b) + Bytes(B, Minus(W, b))
  {
    if W[0] != b { BytesWithout(B, W[1..], b); }
  }

  /** The sizes of distinct blocks met on a walk add up to no more than the walk. */
  lemma {:induction false} SomeBytes(B: Blocks, W: seq<int>, A: seq<int>)
    requires Distinct(A) && Distinct(W) && (forall k :: 0 <= k < |A| ==> A[k] in W)
    requires forall b {:trigger B[b]} :: b in B ==> 0 <= B[b].size
    ensures 0 <= Bytes(B, A) <= Bytes(B, W)
    decreases |A| + |W|
  {
    if A == [] {
      if W != [] {
        DistinctTail(W);
        SomeBytes(B, W[1..], A);
      }
    } else {
      BytesWithout(B, W, A[0]);
      MinusMembers(W, A[0]);
      DistinctTail(A);
      WithoutShorter(W, A[0]);
      SomeBytes(B, Minus(W, A[0]), A[1..]);
    }
  }

  lemma DistinctTail(A: seq<int>)
    requires Distinct(A) && A != []
    ensures Distinct(A[1..]) && A[0] !in A[1..]
  {
  }

  lemma WithoutShorter(W: seq<int>, b: int)
    ensures |Minus(W, b)| <= |W|
  {
  }

  lemma {:induction false} TotalBelow(h: Heap, P: seq<int>, S: seq<int>, live: seq<int>)
    requires AllSlots(Live(h), P, S, live)
    ensures Total(S, live) <= Bytes(h.blocks, Names(P, live))
  {
    if live != [] {
      assert Slot(Live(h), P, S, live[0]);
      forall k | 0 <= k < |live[1..]| ensures Slot(Live(h), P, S, live[1..][k]) { assert live[1..][k] == live[k + 1]; }
      TotalBelow(h, P, S, live[1..]);
      assert Names(P, live)[1..] == Names(P, live[1..]);
    }
  }

  /** What is live never adds up to more than the heap less mm_init's 48 bytes. */
  lemma TotalFits(h: Heap, P: seq<int>, S: seq<int>, live: seq<int>)
    requires Inv(h) && Slots(Live(h), P, S, live)
    ensures Total(S, live) <= h.brk - FIRST
  {
    hide Sized, Apart, FreeIs, NoFreePair, AllNamed, Distinct, Walk, Bytes, Live;
    var W, A := Walk(h.blocks, h.brk, FIRST), Names(P, live);
    Conservation(h);
    TotalBelow(h, P, S, live);
    WalkDistinct(W);
    NamesDistinct(h, P, S, live);
    SizesPositive(h);
    SomeBytes(h.blocks, W, A);
  }

  lemma WalkDistinct(W: seq<int>)
    requires forall i, j :: 0 <= i < j < |W| ==> W[i] < W[j]
    ensures Distinct(W)
  {
  }

  lemma NamesDistinct(h: Heap, P: seq<int>, S: seq<int>, live: seq<int>)
    requires AllSlots(Live(h), P, S, live) && OneSlotEach(P, live)
    ensures Distinct(Names(P, live)) && forall k :: 0 <= k < |live| ==> Names(P, live)[k] in h.blocks
  {
    forall k | 0 <= k < |live| ensures Slot(Live(h), P, S, live[k]) { assert live[k] == live[k]; }
  }

  lemma SizesPositive(h: Heap)
    requires Inv(h)
    ensures forall b {:trigger h.blocks[b]} :: b in h.blocks ==> 0 <= h.blocks[b].size
  {
    hide Closed, Apart, Distinct, FreeIs, NoFreePair;
  }

  lemma {:induction false} TotalElsewhere(S: seq<int>, live: seq<int>, i: int, s: int)
    requires i !in live && 0 <= i < |S|
    ensures Total(S[i := s], live) == Total(S, live)
  {
    if live != [] {
      assert live[0] in live;
      TotalElsewhere(S, live[1..], i, s);
    }
  }

  lemma {:induction false} TotalWithout(S: seq<int>, live: seq<int>, i: int)
    requires i in live
    ensures Total(S, live) == SlotAt(S, i) + Total(S, Minus(live, i))
  {
    if live[0] != i { TotalWithout(S, live[1..], i); }
  }

  // ---------- One operation of the trace ----------

  /** Slots, ranges and contents agree on what is live in heap h with memory m. */
  ghost predicate Agree(h: Heap, m: seq<Word>, P: seq<int>, S: seq<int>, R: seq<Range>, live: seq<int>) {
    Slots(Live(h), P, S, live) && R == RangesOf(P, S, live) && Filled(m, P, S, live)
  }

  lemma NewSlot(L: map<int, int>, g: Heap, m: seq<Word>, m1: seq<Word>, m2: seq<Word>, P: seq<int>, S: seq<int>,
                live: seq<int>, i: int, r: int, size: int)
    requires Slots(L, P, S, live) && Filled(m, P, S, live) && 0 <= i < |P| && i !in live && Listed(g)
    requires r !in L && r in Live(g) && Live(g) == L[r := Live(g)[r]] && 0 < size <= Live(g)[r] - DSIZE
    requires KeepsLive(m, m1, L) && KeepsLive(m1, m2, Live(g) - {r}) && BytesFilled(m2, r, size, i % 0x100)
    ensures |P| == |S|
    ensures Agree(g, m2, P[i := r], S[i := size], [Range(r, r + size - 1)] + RangesOf(P, S, live), [i] + live)
  {
    hide Distinct, OneSlotEach, AllNamed, Filled, KeepsLive, Live, Listed, BytesFilled, RangesOf, AllSlots;
    SlotsAlloc(L, Live(g), P, S, live, i, r, size);
    KeepsLiveShrink(m1, m2, Live(g) - {r}, L);
    KeepsLiveStep(m, m1, m2, L);
    FilledKept(m, m2, g, L, P, S, live);
    FilledAlloc(m2, P, S, live, i, r, size);
    RangesElsewhere(P, S, live, i, r, size);
    RangesCons(P[i := r], S[i := size], i, live);
  }

  /** Taking index i off the live list. */
  lemma OldSlot(h: Heap, m: seq<Word>, P: seq<int>, S: seq<int>, R: seq<Range>, live: seq<int>, i: int)
    requires Agree(h, m, P, S, R, live) && i in live
    ensures Slot(Live(h), P, S, i) && |P| == |S| && BytesFilled(m, P[i], S[i], i % 0x100)
    ensures var W := Minus(live, i);
      && Slots(Live(h) - {P[i]}, P, S, W) && Filled(m, P, S, W)
      && RemoveFirst(R, P[i]) == RangesOf(P, S, W) && i !in W
  {
    hide AllNamed, OneSlotEach, AllSlots, RemoveFirst, RangesOf, Minus, Live, BytesFilled;
    SlotsFree(Live(h), P, S, live, i);
    SlotsRemove(Live(h), P, S, live, i);
    FilledFree(m, P, S, live, i);
    MinusMembers(live, i);
    var k :| 0 <= k < |live| && live[k] == i;
    assert BytesFilled(m, SlotAt(P, live[k]), SlotAt(S, live[k]), live[k] % 0x100);
  }

  lemma RangesCons(P: seq<int>, S: seq<int>, i: int, live: seq<int>)
    ensures RangesOf(P, S, [i] + live) == [Range(SlotAt(P, i), SlotAt(P, i) + SlotAt(S, i) - 1)] + RangesOf(P, S, live)
  {
    assert ([i] + live)[1..] == live;
  }

  lemma AgreeFree(h: Heap, g: Heap, m: seq<Word>, m1: seq<Word>, P: seq<int>, S: seq<int>, R: seq<Range>,
                  live: seq<int>, i: int)
    requires Agree(h, m, P, S, R, live) && i in live && Listed(g)
    requires 0 <= i < |P| && Live(g) == Live(h) - {P[i]} && KeepsLive(m, m1, Live(g))
    ensures Agree(g, m1, P, S, RemoveFirst(R, P[i]), Minus(live, i))
  {
    hide OneSlotEach, AllNamed, Filled, KeepsLive, Live, Listed, RangesOf, AllSlots, RemoveFirst, Minus, Agree,
      BytesFilled;
    OldSlot(h, m, P, S, R, live, i);
    KeptSlots(g, m, m1, P, S, Minus(live, i));
  }

  lemma KeptSlots(g: Heap, m: seq<Word>, m1: seq<Word>, P: seq<int>, S: seq<int>, W: seq<int>)
    requires Slots(Live(g), P, S, W) && Filled(m, P, S, W) && Listed(g) && KeepsLive(m, m1, Live(g))
    ensures Agree(g, m1, P, S, RangesOf(P, S, W), W)
  {
    hide OneSlotEach, AllNamed, Filled, KeepsLive, Live, Listed, RangesOf, AllSlots;
    FilledKept(m, m1, g, Live(g), P, S, W);
  }

  // ---------- mm_realloc's data as the driver reads it ----------

  /** A byte read as a plain char, which is signed. */
  function AsChar(b: int): int { if b < 0x80 then b else b - 0x100 }

  /** The driver compares the bytes that mm_realloc kept, read as signed chars, with the low byte of
      the index. */
  ghost predicate DataMatches(m: seq<Word>, p: int, n: int, index: int) {
    forall a {:trigger ByteAt(m, a)} :: p <= a < p + n ==> AsChar(ByteAt(m, a)) == index % 0x100
  }

  /** Although every byte was kept, the comparison fails exactly for the indices whose low byte is
      128 or more. */
  lemma KeptDataMatches(m: seq<Word>, m1: seq<Word>, p: int, r: int, s: int, n: int, k: int, index: int)
    requires BytesFilled(m, p, s, index % 0x100) && BytesCopied(m, m1, r, p, n) && 0 < k <= n && k <= s
    ensures BytesFilled(m1, r, k, index % 0x100)
    ensures DataMatches(m1, r, k, index) <==> index % 0x100 < 0x80
  {
    hide ByteAt;
    forall a {:trigger ByteAt(m1, a)} | r <= a < r + k ensures ByteAt(m1, a) == index % 0x100 {
      assert ByteAt(m1, a) == ByteAt(m, p + (a - r));
    }
    assert ByteAt(m1, r) == index % 0x100;
  }

  /** A byte kept for index 128 is reported as lost. */
  lemma KeptDataReported(m: seq<Word>, p: int)
    requires BytesFilled(m, p, 1, 128)
    ensures !DataMatches(m, p, 1, 128)
  {
    assert ByteAt(m, p + 0) == 128;
  }

  lemma FreshAgrees(c: Build, h: Heap, m: seq<Word>, P: seq<int>, S: seq<int>)
    requires |P| == |S| && (forall b :: b in h.blocks ==> !h.blocks[b].alloc)
    ensures Agree(h, m, P, S, [], [])
  {
  }

  lemma LiveAfterNone(ops: seq<Operation>)
    ensures LiveAfter(ops[..0], []) == [] && ops[0..] == ops
  {
  }

  lemma NextOperation(ops: seq<Operation>, i: nat, num_ids: int, live: seq<int>)
    requires i < |ops| && live == LiveAfter(ops[..i], []) && WellFormed(ops[i..], num_ids, live)
    ensures match ops[i]
      case ALLOC(index, size) =>
        && 0 <= index < num_ids && index !in live && 0 < size < SIZE_T_MOD / 2
        && LiveAfter(ops[..i + 1], []) == [index] + live && WellFormed(ops[i + 1..], num_ids, [index] + live)
      case REALLOC(index, size) =>
        && index in live && 0 < size < SIZE_T_MOD / 2
        && LiveAfter(ops[..i + 1], []) == [index] + Minus(live, index)
        && WellFormed(ops[i + 1..], num_ids, [index] + Minus(live, index))
      case FREE(index) =>
        && index in live
        && LiveAfter(ops[..i + 1], []) == Minus(live, index) && WellFormed(ops[i + 1..], num_ids, Minus(live, index))
  {
    hide Minus;
    LiveAfterStep(ops, i, []);
    assert ops[i..][1..] == ops[i + 1..] && ops[i..][0] == ops[i];
    assert [ops[i]][1..] == [];
  }

  // ---------- The high-water mark ----------

  /** What trace->block_sizes holds after the operations. */
  ghost function SizesAfter(ops: seq<Operation>, S: seq<int>): seq<int> {
    if ops == [] then S
    else
      match ops[0]
      case ALLOC(i, size) => SizesAfter(ops[1..], if 0 <= i < |S| then S[i := size] else S)
      case REALLOC(i, size) => SizesAfter(ops[1..], if 0 <= i < |S| then S[i := size] else S)
      case FREE(i) => SizesAfter(ops[1..], S)
  }

  /** The bytes asked for and live after the first k operations. */
  ghost function TotalAt(ops: seq<Operation>, S: seq<int>, k: nat): int
    requires k <= |ops|
  {
    Total(SizesAfter(ops[..k], S), LiveAfter(ops[..k], []))
  }

  /** The greatest of the live totals up to n. */
  ghost predicate HighWater(ops: seq<Operation>, S: seq<int>, n: nat, high: int)
    requires n <= |ops|
  {
    && (forall k {:trigger TotalAt(ops, S, k)} :: 0 <= k <= n ==> TotalAt(ops, S, k) <= high)
    && exists k {:trigger TotalAt(ops, S, k)} :: 0 <= k <= n && TotalAt(ops, S, k) == high
  }

  lemma FirstWater(ops: seq<Operation>, S: seq<int>)
    ensures HighWater(ops, S, 0, TotalAt(ops, S, 0))
  {
  }

  lemma HigherWater(ops: seq<Operation>, S: seq<int>, n: nat, before: int, high: int)
    requires 0 < n <= |ops| && HighWater(ops, S, n - 1, before)
    requires high == (if TotalAt(ops, S, n) > before then TotalAt(ops, S, n) else before)
      || (high == before && TotalAt(ops, S, n) <= TotalAt(ops, S, n - 1))
    ensures HighWater(ops, S, n, high)
  {
    hide TotalAt;
    var k :| 0 <= k <= n - 1 && TotalAt(ops, S, k) == before;
    assert TotalAt(ops, S, n) <= high && TotalAt(ops, S, k) <= high;
  }

  lemma HighestWater(ops: seq<Operation>, S: seq<int>, high: int)
    requires HighWater(ops, S, |ops|, high)
    ensures (forall k {:trigger TotalAt(ops, S, k)} :: 0 <= k <= |ops| ==> TotalAt(ops, S, k) <= high)
    ensures exists k {:trigger TotalAt(ops, S, k)} :: 0 <= k <= |ops| && TotalAt(ops, S, k) == high
  {
  }

  lemma {:induction false} SizesAfterStep(ops: seq<Operation>, n: nat, S: seq<int>)
    requires n < |ops|
    ensures SizesAfter(ops[..n + 1], S) == SizesAfter([ops[n]], SizesAfter(ops[..n], S))
  {
    if n > 0 {
      assert ops[..n + 1][1..] == ops[1..][..n] && ops[..n][1..] == ops[1..][..n - 1];
      match ops[0]
      case ALLOC(i, size) => SizesAfterStep(ops[1..], n - 1, if 0 <= i < |S| then S[i := size] else S);
      case REALLOC(i, size) => SizesAfterStep(ops[1..], n - 1, if 0 <= i < |S| then S[i := size] else S);
      case FREE(i) => SizesAfterStep(ops[1..], n - 1, S);
    } else {
      assert ops[..1] == [ops[0]] && ops[..0] == [];
    }
  }

  lemma NoSizes(S: seq<int>)
    ensures SizesAfter([], S) == S
  {
  }

  lemma SizesNext(ops: seq<Operation>, n: nat, S: seq<int>)
    requires n < |ops|
    ensures var T, i := SizesAfter(ops[..n], S), ops[n].index;
      SizesAfter(ops[..n + 1], S) == if ops[n].FREE? || i < 0 || i >= |T| then T else T[i := ops[n].size]
  {
    SizesAfterStep(ops, n, S);
    assert [ops[n]][1..] == [];
  }

  // ---------- What a trace leaves ----------

  /** Operation k, of the first n, gave an index the block that it still has. */
  ghost predicate Gave(ops: seq<Operation>, n: nat, k: nat, i: int)
    requires n <= |ops|
  {
    k < n && ops[k].index == i && !ops[k].FREE? && forall j {:trigger ops[j]} :: k < j < n ==> ops[j].index != i
  }

  lemma {:induction false} LiveUpTo(ops: seq<Operation>, num_ids: int, i: int, n: nat)
    requires WellFormed(ops, num_ids, []) && n <= |ops|
    ensures var live := LiveAfter(ops[..n], []);
      && Distinct(live) && WellFormed(ops[n..], num_ids, live)
      && (forall j {:trigger live[j]} :: 0 <= j < |live| ==> 0 <= live[j] < num_ids)
      && (i in live <==> exists k {:trigger Gave(ops, n, k, i)} :: 0 <= k < n && Gave(ops, n, k, i))
  {
    hide WellFormed, LiveAfter, Minus;
    if n == 0 {
      LiveAfterNone(ops);
      assert ops[..0] == [] && ops[0..] == ops;
    } else {
      var m, live := n - 1, LiveAfter(ops[..n - 1], []);
      LiveUpTo(ops, num_ids, i, m);
      NextOperation(ops, m, num_ids, live);
      if ops[m].index in live { MinusMembers(live, ops[m].index); }
      StillInRange(live, ops[m].index, LiveAfter(ops[..n], []), num_ids);
      if ops[m].index == i {
        if !ops[m].FREE? { assert Gave(ops, n, m, i); }
      } else {
        forall k: nat | k < n ensures Gave(ops, n, k, i) <==> k < m && Gave(ops, m, k, i) {
          GaveStill(ops, m, k, i);
        }
        if i in live {
          var k :| 0 <= k < m && Gave(ops, m, k, i);
          assert Gave(ops, n, k, i);
        }
      }
    }
  }

  lemma StillInRange(live: seq<int>, x: int, next: seq<int>, num_ids: int)
    requires forall j {:trigger live[j]} :: 0 <= j < |live| ==> 0 <= live[j] < num_ids
    requires forall y {:trigger y in next} :: y in next ==> y in live || (y == x && 0 <= x < num_ids)
    ensures forall j {:trigger next[j]} :: 0 <= j < |next| ==> 0 <= next[j] < num_ids
  {
    forall j {:trigger next[j]} | 0 <= j < |next| ensures 0 <= next[j] < num_ids { assert next[j] in next; }
  }

  lemma GaveStill(ops: seq<Operation>, m: nat, k: nat, i: int)
    requires k <= m < |ops| && ops[m].index != i
    ensures Gave(ops, m + 1, k, i) <==> k < m && Gave(ops, m, k, i)
  {
  }

  /** An index is live after a trace if and only if the last operation on it was not to free it. */
  lemma LiveIs(ops: seq<Operation>, num_ids: int, i: int)
    requires WellFormed(ops, num_ids, [])
    ensures Distinct(LiveAfter(ops, []))
    ensures i in LiveAfter(ops, []) <==>
      exists k {:trigger ops[k]} :: 0 <= k < |ops| && ops[k].index == i && !ops[k].FREE?
        && (forall j {:trigger ops[j]} :: k < j < |ops| ==> ops[j].index != i)
  {
    hide WellFormed, LiveAfter;
    LiveUpTo(ops, num_ids, i, |ops|);
    assert ops[..|ops|] == ops;
    if i in LiveAfter(ops, []) {
      var k :| 0 <= k < |ops| && Gave(ops, |ops|, k, i);
      assert ops[k].index == i;
    }
    if k :| 0 <= k < |ops| && ops[k].index == i && !ops[k].FREE? && forall j :: k < j < |ops| ==> ops[j].index != i {
      assert Gave(ops, |ops|, k, i);
    }
  }

  /** The size recorded for an index is that of the last request on it that gave it one. */
  lemma SizeIs(ops: seq<Operation>, S: seq<int>, k: nat)
    requires k < |ops| && !ops[k].FREE? && 0 <= ops[k].index < |S|
    requires forall j {:trigger ops[j]} :: k < j < |ops| && ops[j].index == ops[k].index ==> ops[j].FREE?
    ensures |SizesAfter(ops, S)| == |S| && SizesAfter(ops, S)[ops[k].index] == ops[k].size
  {
    SizeUpTo(ops, S, k, |ops|);
    assert ops[..|ops|] == ops;
  }

  lemma {:induction false} SizeUpTo(ops: seq<Operation>, S: seq<int>, k: nat, n: nat)
    requires k < n <= |ops| && !ops[k].FREE? && 0 <= ops[k].index < |S|
    requires forall j {:trigger ops[j]} :: k < j < n && ops[j].index == ops[k].index ==> ops[j].FREE?
    ensures |SizesAfter(ops[..n], S)| == |S| && SizesAfter(ops[..n], S)[ops[k].index] == ops[k].size
  {
    hide SizesAfter;
    SizesNext(ops, n - 1, S);
    SizesLength(ops[..n - 1], S);
    if k < n - 1 { SizeUpTo(ops, S, k, n - 1); }
  }

  lemma {:induction false} SizesLength(ops: seq<Operation>, S: seq<int>)
    ensures |SizesAfter(ops, S)| == |S|
    decreases |ops|
  {
    if ops != [] {
      match ops[0]
      case ALLOC(i, size) => SizesLength(ops[1..], if 0 <= i < |S| then S[i := size] else S);
      case REALLOC(i, size) => SizesLength(ops[1..], if 0 <= i < |S| then S[i := size] else S);
      case FREE(i) => SizesLength(ops[1..], S);
    }
  }

  lemma TotalResize(S: seq<int>, live: seq<int>, i: int, size: int)
    requires i in live && Distinct(live) && 0 <= i < |S|
    ensures Total(S[i := size], [i] + Minus(live, i)) == Total(S, live) - S[i] + size
  {
    var W := Minus(live, i);
    MinusMembers(live, i);
    TotalWithout(S, live, i);
    TotalElsewhere(S, W, i, size);
    assert ([i] + W)[1..] == W;
  }

  /** What an operation adds to the live total, given the recorded sizes. */
  function Change(op: Operation, S: seq<int>): int {
    match op
    case ALLOC(_, size) => size
    case REALLOC(i, size) => size - SlotAt(S, i)
    case FREE(i) => -SlotAt(S, i)
  }

  lemma TotalStep(ops: seq<Operation>, S0: seq<int>, k: nat, num_ids: int, live: seq<int>, S: seq<int>)
    requires k < |ops| && live == LiveAfter(ops[..k], []) && S == SizesAfter(ops[..k], S0) && |S| == num_ids
    requires WellFormed(ops[k..], num_ids, live) && Distinct(live)
    requires (forall j :: 0 <= j < |live| ==> 0 <= live[j] < |S|)
    ensures TotalAt(ops, S0, k + 1) == Total(S, live) + Change(ops[k], S)
    ensures SizesAfter(ops[..k + 1], S0) == SizesAfter([ops[k]], S)
  {
    hide WellFormed, LiveAfter, Minus, Distinct;
    NextOperation(ops, k, num_ids, live);
    SizesAfterStep(ops, k, S0);
    var op := ops[k];
    assert [op][1..] == [];
    if op.FREE? {
      TotalWithout(S, live, op.index);
    } else {
      assert 0 <= op.index < |S|;
      if op.ALLOC? {
        TotalElsewhere(S, live, op.index, op.size);
        assert ([op.index] + live)[1..] == live;
      } else {
        TotalResize(S, live, op.index, op.size);
      }
    }
  }

  /** The total starts at nothing; an allocation adds its size, a free takes off the size recorded for its
      index, and a resize does both. */
  lemma TotalMoves(ops: seq<Operation>, num_ids: int, S0: seq<int>, k: nat)
    requires WellFormed(ops, num_ids, []) && |S0| == num_ids && k < |ops|
    ensures TotalAt(ops, S0, 0) == 0
    ensures var T, op := SizesAfter(ops[..k], S0), ops[k];
      && |T| == num_ids && 0 <= op.index < |T|
      && TotalAt(ops, S0, k + 1) - TotalAt(ops, S0, k) ==
         (if op.FREE? then 0 else op.size) - (if op.ALLOC? then 0 else T[op.index])
  {
    hide WellFormed, LiveAfter, SizesAfter, Total;
    TotalStart(ops, S0);
    LiveUpTo(ops, num_ids, 0, k);
    var live, T := LiveAfter(ops[..k], []), SizesAfter(ops[..k], S0);
    SizesLength(ops[..k], S0);
    NextOperation(ops, k, num_ids, live);
    if ops[k].index in live {
      var j :| 0 <= j < |live| && live[j] == ops[k].index;
    }
    TotalStep(ops, S0, k, num_ids, live, T);
  }

  lemma FreshSlots(h: Heap, P: seq<int>, S: seq<int>)
    requires |P| == |S| && (forall b :: b in h.blocks ==> !h.blocks[b].alloc)
    ensures Slots(Live(h), P, S, [])
  {
  }

  lemma TotalStart(ops: seq<Operation>, S: seq<int>)
    ensures LiveAfter(ops[..0], []) == [] && SizesAfter(ops[..0], S) == S && TotalAt(ops, S, 0) == 0 && ops[0..] == ops
  {
  }

  /** One step of the utilisation pass, in terms of the trace. */
  lemma UtilOperation(L: map<int, int>, P: seq<int>, S: seq<int>, ops: seq<Operation>, S0: seq<int>, i: nat,
                      live: seq<int>)
    requires Slots(L, P, S, live) && i < |ops| && live == LiveAfter(ops[..i], []) && WellFormed(ops[i..], |P|, live)
    requires S == SizesAfter(ops[..i], S0)
    ensures var next := LiveAfter([ops[i]], live);
      && WellFormed([ops[i]], |P|, live)
      && next == LiveAfter(ops[..i + 1], []) && WellFormed(ops[i + 1..], |P|, next)
    ensures SizesAfter([ops[i]], S) == SizesAfter(ops[..i + 1], S0)
    ensures TotalAt(ops, S0, i + 1) == TotalAt(ops, S0, i) + Change(ops[i], S)
    ensures ops[i].FREE? ==> Change(ops[i], S) <= 0
  {
    hide Minus, Distinct, OneSlotEach, AllNamed, SizesAfter, Total;
    NextOperation(ops, i, |P|, live);
    assert ops[i..][0] == ops[i] && [ops[i]][1..] == [] && [ops[i]][0] == ops[i];
    forall j | 0 <= j < |live| ensures 0 <= live[j] < |S| { assert Slot(L, P, S, live[j]); }
    TotalStep(ops, S0, i, |P|, live, S);
    if ops[i].FREE? {
      var j :| 0 <= j < |live| && live[j] == ops[i].index;
      assert Slot(L, P, S, live[j]);
    }
  }
}
