/** The malloc driver's correctness and utilisation passes over a trace. */
module Drivers {
  import opened Sequences
  import opened HeapShape
  import opened HeapSpec
  import opened HeapSafety
  import HeapRuns
  import opened HeapTheorems
  import opened HeapMemory
  import opened Words
  import opened Traces
  import opened Allocators

  /** What eval_mm_valid ends with; every error names the operation it stopped at. */
  datatype Verdict = Passed | InitFailed | MallocFailed(opnum: int) | BadRange(opnum: int) | BadData(opnum: int)

  class Driver {
    const a: Allocator
    const blocks: array<int>        // trace->blocks
    const block_sizes: array<int>   // trace->block_sizes
    var ranges: seq<Range>          // the range list, most recently added first

    constructor (a: Allocator, num_ids: nat)
      ensures this.a == a && fresh(blocks) && fresh(block_sizes) && blocks.Length == num_ids && Disjoint()
      ensures ranges == []
    {
      this.a := a;
      blocks := new int[num_ids];
      block_sizes := new int[num_ids];
      ranges := [];
    }

    /** The trace's arrays are not the heap. */
    ghost predicate Disjoint() {
      && blocks.Length == block_sizes.Length && blocks != block_sizes
      && a.words as object != blocks && a.words as object != block_sizes
    }

    /** add_range: whether the new payload passes the three checks; if so it joins the list. */
    method AddRange(lo: int, size: int) returns (ok: bool)
      requires 0 < size
      modifies `ranges
      ensures var hi := lo + size - 1;
        ok == (lo % 8 == 0 && 0 <= lo < a.brk && 0 <= hi < a.brk && NoneInside(lo, hi, old(ranges)))
      ensures ranges == if ok then [Range(lo, lo + size - 1)] + old(ranges) else old(ranges)
    {
      var hi := lo + size - 1;
      if lo % 8 != 0 {
        return false;
      }
      if lo < 0 || lo > a.brk - 1 || hi < 0 || hi > a.brk - 1 {
        return false;
      }
      var p := 0;
      while p < |ranges|
        invariant 0 <= p <= |ranges|
        invariant forall k {:trigger ranges[k]} :: 0 <= k < p ==> !EndInside(lo, hi, ranges[k])
      {
        if (lo >= ranges[p].lo && lo <= ranges[p].hi) || (hi >= ranges[p].lo && hi <= ranges[p].hi) {
          assert EndInside(lo, hi, ranges[p]);
          return false;
        }
        p := p + 1;
      }
      ranges := [Range(lo, hi)] + ranges;
      return true;
    }

    /** remove_range */
    method RemoveRange(lo: int)
      modifies `ranges
      ensures ranges == RemoveFirst(old(ranges), lo)
    {
      ghost var R := ranges;
      var p := 0;
      while p < |ranges|
        invariant 0 <= p <= |ranges| && ranges == R
        invariant RemoveFirst(R, lo) == R[..p] + RemoveFirst(R[p..], lo)
      {
        if ranges[p].lo == lo {
          ranges := ranges[..p] + ranges[p + 1..];
          return;
        }
        p := p + 1;
      }
    }

    ghost predicate AllAskable(ops: seq<Operation>) {
      forall i {:trigger ops[i]} :: 0 <= i < |ops| ==> ops[i].FREE? || a.Askable(ops[i].size)
    }

    // ---------- eval_mm_valid ----------

    /** The allocator's heap, the slots, the range list and the contents all agree on what is live. */
    ghost predicate Tracks(live: seq<int>)
      reads this, a, a.words, blocks, block_sizes
    {
      Disjoint() && a.Valid() && Agree(a.heap, a.mem, blocks[..], block_sizes[..], ranges, live)
    }

    /** The heap cannot hold a block of this size. */
    ghost predicate Exhausted(size: int)
      reads a
    {
      !SomeFit(a.heap.blocks, BlockSize(size)) && a.brk + a.build.GrowBytes(BlockSize(size)) > MAX_HEAP
    }

    /** The ALLOC case. */
    method ValidAlloc(index: int, size: int, opnum: int, ghost live: seq<int>) returns (v: Verdict)
      requires Tracks(live) && 0 <= index < blocks.Length && index !in live
      requires 0 < size < SIZE_T_MOD / 2 && a.Askable(size)
      modifies this, a, a.words, blocks, block_sizes
      ensures v == Passed || v == MallocFailed(opnum)
      ensures v == Passed ==> Tracks([index] + live) && block_sizes[..] == old(block_sizes[..])[index := size]
      ensures v == MallocFailed(opnum) ==> Exhausted(size) && Tracks(live)
    {
      hide Slots, RangesOf, Filled, KeepsLive, InvBut, Live, Rep, Listed, HeapSpec.Malloc, SomeFit, BlockSize,
        NoneInside, Allocator.Backed, Allocator.Askable, Allocator.CanAsk, BytesFilled;
      ghost var h, m, P, S, R := a.heap, a.mem, blocks[..], block_sizes[..], ranges;
      MallocLive(a.build, h, size);
      MallocComplete(a.build, h, size);
      BlockSizeFits(size);
      a.AskableNow(size);
      var p := a.Malloc(size);
      if p == NULL {
        return MallocFailed(opnum);
      }
      ghost var m1 := a.mem;
      NewRangeFits(Live(h), a.heap, P, S, live, p, size);
      var ok := AddRange(p, size);
      if !ok {
        return BadRange(opnum);
      }
      a.Memset(p, index % 0x100, size);
      NewSlot(Live(h), a.heap, m, m1, a.mem, P, S, live, index, p, size);
      blocks[index] := p;
      block_sizes[index] := size;
      assert blocks[..] == P[index := p] && block_sizes[..] == S[index := size];
      return Passed;
    }

    /** The REALLOC case; the data comparison fails exactly for indices with a low byte of 128 or more. */
    method ValidRealloc(index: int, size: int, opnum: int, ghost live: seq<int>) returns (v: Verdict)
      requires Tracks(live) && index in live && 0 < size < SIZE_T_MOD / 2 && a.Askable(size)
      modifies this, a, a.words, blocks, block_sizes
      ensures v == MallocFailed(opnum) || v == if index % 0x100 < 0x80 then Passed else BadData(opnum)
      ensures v == Passed ==> Tracks([index] + Minus(live, index))
      ensures v == Passed ==>
        0 <= index < block_sizes.Length && block_sizes[..] == old(block_sizes[..])[index := size]
      ensures v == MallocFailed(opnum) ==> Exhausted(size) && Tracks(live)
    {
      hide Agree, Slots, RangesOf, Filled, BytesFilled, BytesCopied, KeepsLive, InvBut, Live, Rep, Listed, RemoveFirst,
        Minus, Allocator.Backed, Allocator.Askable, Allocator.CanAsk, HeapSpec.Realloc, HeapSpec.Malloc, ByteAt,
        DataMatches, BlockSize, SomeFit, NoneInside;
      ghost var h, m, P, S, R := a.heap, a.mem, blocks[..], block_sizes[..], ranges;
      ghost var W := Minus(live, index);
      OldSlot(h, m, P, S, R, live, index);
      HeapRuns.ReallocKeeps(a.build, h, P[index], size);
      HeapRuns.NoNullLive(h);
      var oldp := blocks[index];
      a.AskableNow(size);
      var newp := a.Realloc(oldp, size);
      if newp == NULL {
        HeapRuns.ReallocFails(a.build, h, oldp, size);
        MallocComplete(a.build, h, size);
        return MallocFailed(opnum);
      }
      RemoveRange(oldp);
      NewRangeFits(Live(h) - {oldp}, a.heap, P, S, W, newp, size);
      var ok := AddRange(newp, size);
      if !ok {
        return BadRange(opnum);
      }
      var oldsize := block_sizes[index];
      if size < oldsize {
        oldsize := size;
      }
      ghost var m1 := a.mem;
      ghost var kept := Min(Min(Live(h)[oldp], Live(a.heap)[newp]) - DSIZE, size);
      KeptDataMatches(m, m1, oldp, newp, S[index], kept, oldsize, index);
      var same := CompareData(newp, oldsize, index);
      if !same {
        return BadData(opnum);
      }
      a.Memset(newp, index % 0x100, size);
      NewSlot(Live(h) - {oldp}, a.heap, m, m1, a.mem, P, S, W, index, newp, size);
      blocks[index] := newp;
      block_sizes[index] := size;
      assert blocks[..] == P[index := newp] && block_sizes[..] == S[index := size];
      return Passed;
    }

    /** The byte loop that checks what mm_realloc kept. */
    method CompareData(p: int, n: int, index: int) returns (same: bool)
      requires a.Valid() && p in Live(a.heap) && n <= Live(a.heap)[p] - DSIZE
      ensures same == DataMatches(a.mem, p, n, index)
    {
      var j := 0;
      same := true;
      while j < n
        invariant 0 <= j
        invariant forall x {:trigger ByteAt(a.mem, x)} :: p <= x < p + j && x < p + n ==>
          AsChar(ByteAt(a.mem, x)) == index % 0x100
      {
        var b := a.GetByte(p, p + j);
        if AsChar(b) != index % 0x100 {
          return false;
        }
        j := j + 1;
      }
    }

    /** The FREE case. */
    method ValidFree(index: int, ghost live: seq<int>)
      requires Tracks(live) && index in live
      modifies this, a, a.words, blocks, block_sizes
      ensures Tracks(Minus(live, index)) && block_sizes[..] == old(block_sizes[..])
    {
      hide Agree, Slots, RangesOf, Filled, BytesFilled, KeepsLive, InvBut, Live, Rep, Listed, RemoveFirst, Minus,
        Allocator.Backed;
      ghost var h, m, P, S, R := a.heap, a.mem, blocks[..], block_sizes[..], ranges;
      OldSlot(h, m, P, S, R, live, index);
      var p := blocks[index];
      RemoveRange(p);
      a.FreeLive(p);
      AgreeFree(h, a.heap, m, a.mem, P, S, R, live, index);
    }

    /** eval_mm_valid */
    method EvalValid(ops: seq<Operation>) returns (v: Verdict)
      requires Disjoint() && a.Backed() && SizeOf(At(a.mem, FIRST - DSIZE)) == 0
      requires WellFormed(ops, blocks.Length, []) && AllAskable(ops)
      modifies this, a, a.words, blocks, block_sizes
      ensures v == Passed ==>
        Tracks(LiveAfter(ops, [])) && block_sizes[..] == SizesAfter(ops, old(block_sizes[..]))
      ensures v != Passed ==> (v.MallocFailed? || v.BadData?) && 0 <= v.opnum < |ops|
      ensures forall k {:trigger ops[k]} :: 0 <= k < (if v == Passed then |ops| else v.opnum) ==>
        ops[k].REALLOC? ==> ops[k].index % 0x100 < 0x80
      ensures v.MallocFailed? ==>
        !ops[v.opnum].FREE? && Exhausted(ops[v.opnum].size) && Tracks(LiveAfter(ops[..v.opnum], []))
      ensures v.BadData? ==> ops[v.opnum].REALLOC? && ops[v.opnum].index % 0x100 >= 0x80
    {
      hide Agree, KeepsLive, InvBut, Live, Rep, Listed, Allocator.Backed, Allocator.Askable, Allocator.CanAsk,
        WellFormed, LiveAfter, Minus, SizesAfter;
      ghost var S0 := block_sizes[..];
      NoSizes(S0);
      assert ops[..0] == [];
      a.ResetBrk();
      ranges := [];
      var r := a.Init();
      if r < 0 {
        return InitFailed;
      }
      ghost var live := [];
      FreshAgrees(a.build, a.heap, a.mem, blocks[..], block_sizes[..]);
      LiveAfterNone(ops);
      var i := 0;
      while i < |ops|
        invariant 0 <= i <= |ops| && Tracks(live) && live == LiveAfter(ops[..i], [])
        invariant WellFormed(ops[i..], blocks.Length, live)
        invariant block_sizes[..] == SizesAfter(ops[..i], S0)
        invariant forall k {:trigger ops[k]} :: 0 <= k < i ==> ops[k].REALLOC? ==> ops[k].index % 0x100 < 0x80
      {
        NextOperation(ops, i, blocks.Length, live);
        SizesNext(ops, i, S0);
        match ops[i] {
          case ALLOC(index, size) =>
            v := ValidAlloc(index, size, i, live);
            if v != Passed {
              return;
            }
            live := [index] + live;
          case REALLOC(index, size) =>
            v := ValidRealloc(index, size, i, live);
            if v != Passed {
              return;
            }
            live := [index] + Minus(live, index);
          case FREE(index) =>
            ValidFree(index, live);
            live := Minus(live, index);
        }
        i := i + 1;
      }
      assert ops[..i] == ops;
      return Passed;
    }

    // ---------- eval_mm_util ----------

    ghost predicate Counts(live: seq<int>)
      reads a, a.words, blocks, block_sizes
    {
      Disjoint() && a.Valid() && Slots(Live(a.heap), blocks[..], block_sizes[..], live)
    }

    /** One operation's calls and bookkeeping; returns what it adds to the total, or that the driver gives up. */
    method UtilStep(op: Operation, ghost live: seq<int>) returns (ok: bool, change: int)
      requires Counts(live) && WellFormed([op], blocks.Length, live) && (op.FREE? || a.Askable(op.size))
      modifies this, a, a.words, blocks, block_sizes
      ensures ok ==> Counts(LiveAfter([op], live)) && block_sizes[..] == SizesAfter([op], old(block_sizes[..]))
      ensures ok ==> change == Change(op, old(block_sizes[..])) && old(a.brk) <= a.brk
      ensures ok ==> 0 <= op.index < block_sizes.Length
      ensures ok ==>
        change == (if op.FREE? then 0 else op.size) - (if op.ALLOC? then 0 else old(block_sizes[op.index]))
      ensures !ok ==> !op.FREE? && Exhausted(op.size)
    {
      hide KeepsLive, InvBut, Live, Rep, Listed, Minus, Allocator.Backed, Allocator.Askable, Allocator.CanAsk,
        HeapSpec.Realloc, HeapSpec.Malloc, BlockSize, SomeFit, AllSlots, OneSlotEach, AllNamed, Distinct, Release;
      ghost var h, P, S := a.heap, blocks[..], block_sizes[..];
      assert [op][1..] == [];
      match op {
        case ALLOC(index, size) =>
          MallocLive(a.build, h, size);
          MallocComplete(a.build, h, size);
          HeapRuns.MallocBrk(a.build, h, size);
          BlockSizeFits(size);
          a.AskableNow(size);
          var p := a.Malloc(size);
          if p == NULL {
            return false, 0;
          }
          SlotsAlloc(Live(h), Live(a.heap), P, S, live, index, p, size);
          blocks[index] := p;
          block_sizes[index] := size;
          assert blocks[..] == P[index := p] && block_sizes[..] == S[index := size];
          change := size;
        case REALLOC(index, size) =>
          SlotsFree(Live(h), P, S, live, index);
          HeapRuns.ReallocKeeps(a.build, h, P[index], size);
          HeapRuns.NoNullLive(h);
          HeapRuns.ReallocBrk(a.build, h, P[index], size);
          var oldsize := block_sizes[index];
          a.AskableNow(size);
          var p := a.Realloc(blocks[index], size);
          if p == NULL {
            HeapRuns.ReallocFails(a.build, h, P[index], size);
            MallocComplete(a.build, h, size);
            return false, 0;
          }
          MinusMembers(live, index);
          SlotsAlloc(Live(h) - {P[index]}, Live(a.heap), P, S, Minus(live, index), index, p, size);
          blocks[index] := p;
          block_sizes[index] := size;
          assert blocks[..] == P[index := p] && block_sizes[..] == S[index := size];
          change := size - oldsize;
        case FREE(index) =>
          SlotsFree(Live(h), P, S, live, index);
          HeapRuns.LiveBlock(h, P[index]);
          HeapRuns.ReleaseBrk(h, P[index]);
          change := -block_sizes[index];
          a.FreeLive(blocks[index]);
      }
      ok := true;
    }

    /** eval_mm_util: the high-water mark of the bytes asked for, and its ratio to mem_heapsize(). */
    method EvalUtil(ops: seq<Operation>) returns (ok: bool, max_total_size: int, util: real)
      requires Disjoint() && a.Backed() && SizeOf(At(a.mem, FIRST - DSIZE)) == 0
      requires WellFormed(ops, blocks.Length, []) && AllAskable(ops)
      modifies this, a, a.words, blocks, block_sizes
      ensures ok ==> (forall k {:trigger TotalAt(ops, old(block_sizes[..]), k)} :: 0 <= k <= |ops| ==>
                        TotalAt(ops, old(block_sizes[..]), k) <= max_total_size)
      ensures ok ==> exists k {:trigger TotalAt(ops, old(block_sizes[..]), k)} :: 0 <= k <= |ops|
                        && TotalAt(ops, old(block_sizes[..]), k) == max_total_size
      ensures ok ==> a.Valid() && 0 <= max_total_size <= a.brk - FIRST
      ensures ok ==> util * a.brk as real == max_total_size as real && 0.0 <= util < 1.0
      ensures !ok ==> exists k :: 0 <= k < |ops| && !ops[k].FREE? && Exhausted(ops[k].size)
    {
      hide KeepsLive, InvBut, Live, Rep, Listed, Minus, Allocator.Backed, Allocator.Askable, Allocator.CanAsk,
        WellFormed, LiveAfter, SizesAfter, Slots, Total, Change, HighWater;
      a.ResetBrk();
      var r := a.Init();
      ghost var S0 := block_sizes[..];
      ghost var live := [];
      FreshSlots(a.heap, blocks[..], block_sizes[..]);
      TotalStart(ops, S0);
      FirstWater(ops, S0);
      var total_size, i := 0, 0;
      max_total_size, util := 0, 0.0;
      while i < |ops|
        invariant 0 <= i <= |ops| && Counts(live) && live == LiveAfter(ops[..i], [])
        invariant WellFormed(ops[i..], blocks.Length, live)
        invariant block_sizes[..] == SizesAfter(ops[..i], S0) && total_size == TotalAt(ops, S0, i)
        invariant 0 <= max_total_size <= a.brk - FIRST
        invariant HighWater(ops, S0, i, max_total_size)
      {
        UtilOperation(Live(a.heap), blocks[..], block_sizes[..], ops, S0, i, live);
        var change;
        ok, change := UtilStep(ops[i], live);
        if !ok {
          return;
        }
        live := LiveAfter([ops[i]], live);
        ghost var max_before := max_total_size;
        total_size := total_size + change;
        TotalFits(a.heap, blocks[..], block_sizes[..], live);
        if !ops[i].FREE? {
          max_total_size := if total_size > max_total_size then total_size else max_total_size;
        }
        i := i + 1;
        assert HighWater(ops, S0, i, max_total_size) by { HigherWater(ops, S0, i, max_before, max_total_size); }
      }
      ok := true;
      HighestWater(ops, S0, max_total_size);
      util := max_total_size as real / a.brk as real;
      RatioBelowOne(max_total_size, a.brk);
    }
  }

  lemma RatioBelowOne(part: int, whole: int)
    requires 0 <= part < whole
    ensures 0.0 <= part as real / whole as real < 1.0
  {
  }
}
