/** HASH_SRT: the bottom-up merge sort of the application list, in place. */
module HashSort {
  import opened Sequences
  import opened StableSort
  import opened HashSpec
  import opened HashTables
  import opened Bits
  import L = ListSorts

  type Compare = (Element, Element) -> int

  /** cmpfcn(x, y) <= 0 */
  ghost function LeBy(cmp: Compare): Order<Element> {
    (x: Element, y: Element) => cmp(x, y) <= 0
  }

  /** cmpfcn(x, y) <= 0 is a total preorder of the elements of A. */
  ghost predicate Consistent(cmp: Compare, A: seq<Element>) {
    && (forall x, y {:trigger cmp(x, y)} :: x in A && y in A ==> cmp(x, y) <= 0 || cmp(y, x) <= 0)
    && (forall x, y, z {:trigger cmp(x, y), cmp(y, z)} ::
          x in A && y in A && z in A && cmp(x, y) <= 0 && cmp(y, z) <= 0 ==> cmp(x, z) <= 0)
  }

  lemma ConsistentOrders(cmp: Compare, A: seq<Element>)
    requires Consistent(cmp, A)
    ensures PreorderOn(LeBy(cmp), Nodes(A))
  {
    var le := LeBy(cmp);
    forall x, y {:trigger le(x, y)} | x in A && y in A ensures le(x, y) || le(y, x) {
      assert cmp(x, y) <= 0 || cmp(y, x) <= 0;
    }
    forall x, y, z {:trigger le(x, y), le(y, z)} | x in A && y in A && z in A && le(x, y) && le(y, z)
      ensures le(x, z)
    {
      assert cmp(x, y) <= 0 && cmp(y, z) <= 0;
    }
  }

  /** S is A in the order of cmp; elements that cmp holds equal both ways stand as they stood in A. */
  ghost predicate InOrder(cmp: Compare, A: seq<Element>, S: seq<Element>) {
    && multiset(S) == multiset(A)
    && forall i, j {:trigger S[i], S[j]} :: 0 <= i < j < |S| ==>
      cmp(S[i], S[j]) <= 0 && (cmp(S[j], S[i]) <= 0 ==> Precedes(A, S[i], S[j]))
  }

  lemma SortedBy(cmp: Compare, A: seq<Element>)
    requires Consistent(cmp, A)
    ensures InOrder(cmp, A, Sort(LeBy(cmp), A))
  {
    hide Sort, PreorderOn, Precedes, Consistent;
    ConsistentOrders(cmp, A);
    InNodes(A);
    SortOrders(LeBy(cmp), A, Nodes(A));
    var S := Sort(LeBy(cmp), A);
    forall i, j {:trigger S[i], S[j]} | 0 <= i < j < |S|
      ensures cmp(S[i], S[j]) <= 0 && (cmp(S[j], S[i]) <= 0 ==> Precedes(A, S[i], S[j]))
    {
      assert LeBy(cmp)(S[i], S[j]);
    }
  }

  // ---------- The state of a pass ----------

  /** Nodes i up to j of S still have the links the pass found. */
  ghost predicate Ahead(S: seq<Element>, i: int, j: int)
    reads S
  {
    forall k {:trigger S[k]} :: 0 <= i <= k < j <= |S| ==> S[k].next == NodeAt(S, k + 1)
  }

  ghost predicate Linked(O: seq<Element>, k: int)
    requires 0 <= k < |O| - 1
    reads O
  {
    O[k].next == O[k + 1] && O[k + 1].prev == O[k]
  }

  /** The output so far: linked both ways, nothing before its first node. */
  ghost predicate Output(O: seq<Element>)
    reads O
  {
    && Distinct(O)
    && (O != [] ==> O[0].prev == null)
    && (forall k {:trigger Linked(O, k)} :: 0 <= k < |O| - 1 ==> Linked(O, k))
  }

  /** Output O has been linked; parts [a, m) and [b, |S|) of the input have not been read. */
  ghost predicate Merging(S: seq<Element>, O: seq<Element>, a: int, m: int, b: int, list: Element?, tail: Element?)
    reads S, O
  {
    && 0 <= a <= m <= b <= |S|
    && Distinct(S) && Ahead(S, a, m) && Ahead(S, b, |S|)
    && Output(O) && L.Within(O, S) && L.Avoids(O, S, a, m) && L.Avoids(O, S, b, |S|)
    && list == NodeAt(O, 0) && tail == NodeAt(O, |O| - 1)
  }

  // ---------- One node ----------

  /** The assignments at the end of the merge loop's body. */
  method LinkNext(e: Element, list: Element?, tail: Element?, ghost O: seq<Element>)
    returns (list': Element, tail': Element)
    requires Output(O) && list == NodeAt(O, 0) && tail == NodeAt(O, |O| - 1)
    requires forall k {:trigger O[k]} :: 0 <= k < |O| ==> O[k] != e
    modifies (if tail == null then {} else {tail})`next, e`prev
    ensures Output(O + [e]) && list' == NodeAt(O + [e], 0) && tail' == e
  {
    if tail != null {
      tail.next := e;
      list' := list;
    } else {
      list' := e;
    }
    e.prev := tail;
    tail' := e;
    ghost var Q := O + [e];
    forall k | 0 <= k < |Q| - 1 ensures Linked(Q, k) {
      if k < |O| - 1 { assert old(Linked(O, k)); }
    }
  }

  lemma TailIsOutput(S: seq<Element>, O: seq<Element>, a: int, m: int, b: int, list: Element?, tail: Element?)
    requires Merging(S, O, a, m, b, list, tail)
    ensures tail != null ==> tail in S && forall k {:trigger S[k]} :: (a <= k < m || b <= k < |S|) ==> S[k] != tail
  {
    hide Output, Ahead;
  }

  method Emit(e: Element, list: Element?, tail: Element?, ghost S: seq<Element>, ghost O: seq<Element>,
              ghost a: nat, ghost m: nat, ghost b: nat, ghost a': nat, ghost b': nat)
    returns (list': Element, tail': Element)
    requires Merging(S, O, a, m, b, list, tail)
    requires (a < m && e == S[a] && a' == a + 1 && b' == b) || (b < |S| && e == S[b] && a' == a && b' == b + 1)
    modifies S`next, S`prev
    ensures Merging(S, O + [e], a', m, b', list', tail')
  {
    hide L.Within, L.Avoids, Output, Distinct;
    L.Taken(S, O, a, m, b, a', b', e);
    TailIsOutput(S, O, a, m, b, list, tail);
    list', tail' := LinkNext(e, list, tail, O);
  }

  lemma NextAhead(S: seq<Element>, O: seq<Element>, a: int, m: int, b: int, list: Element?, tail: Element?)
    requires Merging(S, O, a, m, b, list, tail)
    ensures a < m ==> S[a].next == NodeAt(S, a + 1)
    ensures b < |S| ==> S[b].next == NodeAt(S, b + 1)
  {
    hide Output, L.Avoids, L.Within;
  }

  // ---------- Two runs ----------

  /** The merge loop: the run of psize nodes at p and the run of at most qsize nodes at q join the output. */
  method MergeRuns(cmp: Compare, p0: Element, psize0: nat, q0: Element?, insize: nat, list0: Element?, tail0: Element?,
                   ghost S: seq<Element>, ghost O0: seq<Element>, ghost a0: nat)
    returns (q: Element?, list: Element, tail: Element, ghost O: seq<Element>)
    requires Distinct(S) && 0 < insize && 0 < psize0 && |O0| == a0 && a0 + psize0 <= |S|
    requires Merging(S, O0, a0, a0 + psize0, a0 + psize0, list0, tail0)
    requires p0 == S[a0] && q0 == NodeAt(S, a0 + psize0)
    modifies S`next, S`prev
    ensures var m := a0 + psize0; var end := Min(m + insize, |S|);
      && O == O0 + Merge(LeBy(cmp), S[a0..m], S[m..end])
      && Merging(S, O, m, m, end, list, tail) && |O| == end && q == NodeAt(S, end)
  {
    hide Merging, Merge, Distinct, Ahead;
    ghost var le := LeBy(cmp);
    ghost var m := a0 + psize0;
    ghost var end := Min(m + insize, |S|);
    ghost var a, b := a0, m;
    var p: Element? := p0;
    var psize, qsize := psize0, insize;
    q := q0;
    O := O0;
    var first, last := list0, tail0;
    while psize > 0 || (qsize > 0 && q != null)
      invariant a0 <= a <= m <= b <= end && psize == m - a && qsize == m + insize - b
      invariant (a < m ==> p == S[a]) && q == NodeAt(S, b)
      invariant Merging(S, O, a, m, b, first, last) && |O| == a + (b - m)
      invariant O + Merge(le, S[a..m], S[b..end]) == O0 + Merge(le, S[a0..m], S[m..end])
      decreases psize + qsize
    {
      ghost var a', b' := a, b;
      var e: Element;
      NextAhead(S, O, a, m, b, first, last);
      assert a < m ==> S[a..m][0] == S[a] && S[a..m][1..] == S[a + 1..m];
      assert b < end ==> S[b..end][0] == S[b] && S[b..end][1..] == S[b + 1..end];
      if psize == 0 {
        L.EmitSecond(le, O, S[a..m], S[b..end]);
        e := q;
        q := q.next;
        qsize := qsize - 1;
        b' := b + 1;
      } else if qsize == 0 || q == null {
        L.EmitFirst(le, O, S[a..m], S[b..end]);
        e := p;
        p := p.next;
        psize := psize - 1;
        a' := a + 1;
      } else if cmp(p, q) <= 0 {
        L.EmitFirst(le, O, S[a..m], S[b..end]);
        e := p;
        p := p.next;
        psize := psize - 1;
        a' := a + 1;
      } else {
        L.EmitSecond(le, O, S[a..m], S[b..end]);
        e := q;
        q := q.next;
        qsize := qsize - 1;
        b' := b + 1;
      }
      first, last := Emit(e, first, last, S, O, a, m, b, a', b');
      O, a, b := O + [e], a', b';
    }
    NotEmptied(S, O, a, m, b, first, last);
    L.MergeNothing(le, O, S[a..m], S[b..end]);
    list, tail := first, last;
  }

  lemma NotEmptied(S: seq<Element>, O: seq<Element>, a: int, m: int, b: int, list: Element?, tail: Element?)
    requires Merging(S, O, a, m, b, list, tail) && O != []
    ensures list != null && tail != null && list in S && tail in S && list == O[0] && tail == O[|O| - 1]
  {
    hide Output, L.Avoids, Ahead;
  }

  /** The loop that steps q over the first run and counts it. */
  method StepOver(p: Element, insize: nat, ghost S: seq<Element>, ghost a: nat) returns (q: Element?, psize: nat)
    requires a < |S| && p == S[a] && 0 < insize && Ahead(S, a, |S|)
    ensures psize == Min(insize, |S| - a) && q == NodeAt(S, a + psize)
  {
    q := p;
    psize := 0;
    var i := 0;
    while i < insize
      invariant 0 <= i <= insize && psize == i && a + i < |S| + 1 && q == NodeAt(S, a + i) && (i < insize ==> q != null)
      decreases insize - i
    {
      psize := psize + 1;
      q := q.next;
      if q == null {
        break;
      }
      i := i + 1;
    }
  }

  lemma AllAhead(S: seq<Element>, O: seq<Element>, a: int, m: int, list: Element?, tail: Element?)
    requires Merging(S, O, a, a, a, list, tail) && a <= m <= |S|
    ensures Ahead(S, a, |S|) && Merging(S, O, a, m, m, list, tail)
  {
    hide Output, L.Within;
  }

  lemma Rejoin(S: seq<Element>, O: seq<Element>, m: int, b: int, list: Element?, tail: Element?)
    requires Merging(S, O, m, m, b, list, tail)
    ensures Merging(S, O, b, b, b, list, tail)
  {
    hide Output, L.Within;
  }

  /** The body of the pass's loop: the next two runs are found and merged. */
  method MergePair(cmp: Compare, p: Element, insize: nat, list0: Element?, tail0: Element?, ghost S: seq<Element>,
                   ghost O0: seq<Element>, ghost a: nat)
    returns (q: Element?, list: Element, tail: Element, ghost O: seq<Element>)
    requires Distinct(S) && 0 < insize && |O0| == a < |S| && p == S[a]
    requires Merging(S, O0, a, a, a, list0, tail0)
    modifies S`next, S`prev
    ensures var end := Min(a + 2 * insize, |S|);
      && Merging(S, O, end, end, end, list, tail) && |O| == end && q == NodeAt(S, end)
      && O0 + Pass(LeBy(cmp), S[a..], insize) == O + Pass(LeBy(cmp), S[end..], insize)
  {
    hide Pass, Merge, Merging, Ahead, Distinct;
    AllAhead(S, O0, a, a, list0, tail0);
    var q0, psize := StepOver(p, insize, S, a);
    L.PassNext(LeBy(cmp), S, insize, a);
    AllAhead(S, O0, a, a + psize, list0, tail0);
    q, list, tail, O := MergeRuns(cmp, p, psize, q0, insize, list0, tail0, S, O0, a);
    Rejoin(S, O, a + psize, Min(a + psize + insize, |S|), list, tail);
  }

  // ---------- A pass ----------

  lemma NoneRead(S: seq<Element>)
    requires AppList(S) && Distinct(S)
    ensures Merging(S, [], 0, 0, 0, null, null)
  {
    forall k {:trigger S[k]} | 0 <= k < |S| ensures S[k].next == NodeAt(S, k + 1) { assert Joined(S, k); }
  }

  /** _hs_tail->next = NULL */
  method EndOutput(list: Element, tail: Element, ghost S: seq<Element>, ghost O: seq<Element>)
    requires Merging(S, O, |S|, |S|, |S|, list, tail) && O != []
    modifies S`next
    ensures AppList(O) && Distinct(O) && list == O[0] && tail == O[|O| - 1]
  {
    NotEmptied(S, O, |S|, |S|, |S|, list, tail);
    tail.next := null;
    forall k | 0 <= k < |O| ensures Joined(O, k) {
      if k < |O| - 1 { assert old(Linked(O, k)); }
      if k > 0 { assert old(Linked(O, k - 1)); }
    }
  }

  /** The loop of a pass: pairs of runs are merged until the input is read. */
  method MergeAll(cmp: Compare, insize: nat, first: Element, ghost S: seq<Element>)
    returns (list: Element?, tail: Element?, nmerges: nat, ghost O: seq<Element>)
    requires Distinct(S) && Merging(S, [], 0, 0, 0, null, null) && S != [] && first == S[0] && 0 < insize
    modifies S`next, S`prev
    ensures Merging(S, O, |S|, |S|, |S|, list, tail) && O == Pass(LeBy(cmp), S, insize) && |O| == |S|
    ensures 0 < nmerges && L.Span(insize, nmerges - 1) < |S| <= L.Span(insize, nmerges)
  {
    hide Pass, Merge, Merging, Ahead, Distinct, L.Span, Min, LeBy;
    L.SpanStart(insize, |S|);
    O := [];
    ghost var a := 0;
    var p: Element? := first;
    list, tail := null, null;
    nmerges := 0;
    assert S[0..] == S;
    while p != null
      invariant 0 <= a <= |S| && |O| == a && p == NodeAt(S, a)
      invariant Merging(S, O, a, a, a, list, tail)
      invariant O + Pass(LeBy(cmp), S[a..], insize) == Pass(LeBy(cmp), S, insize)
      invariant a == Min(L.Span(insize, nmerges), |S|)
      invariant if nmerges == 0 then a == 0 else L.Span(insize, nmerges - 1) < |S|
      decreases |S| - a
    {
      L.SpanNext(insize, nmerges, a, |S|);
      nmerges := nmerges + 1;
      p, list, tail, O := MergePair(cmp, p, insize, list, tail, S, O, a);
      a := Min(a + 2 * insize, |S|);
    }
    L.SpanEnd(insize, nmerges, a, |S|);
    L.PassNothing(LeBy(cmp), S[a..], insize);
  }

  /** One pass. */
  method SortPass(cmp: Compare, insize: nat, first: Element, ghost S: seq<Element>)
    returns (list: Element, tail: Element, nmerges: nat, ghost O: seq<Element>)
    requires AppList(S) && Distinct(S) && S != [] && first == S[0] && 0 < insize
    modifies S`next, S`prev
    ensures AppList(O) && Distinct(O) && O == Pass(LeBy(cmp), S, insize) && |O| == |S| && list == O[0]
    ensures tail == O[|O| - 1]
    ensures 0 < nmerges && L.Span(insize, nmerges - 1) < |S| <= L.Span(insize, nmerges)
  {
    hide Pass, Merging, Distinct, L.Span, AppList, LeBy;
    NoneRead(S);
    var list0, tail0;
    list0, tail0, nmerges, O := MergeAll(cmp, insize, first, S);
    NotEmptied(S, O, |S|, |S|, |S|, list0, tail0);
    list, tail := list0, tail0;
    EndOutput(list0, tail0, S, O);
  }

  // ---------- The sort ----------

  ghost function Nodes(S: seq<Element>): set<Element> { set x | x in S }

  lemma FromNodes(S: seq<Element>, A: seq<Element>)
    requires From(S, Nodes(A))
    ensures forall k {:trigger S[k]} :: 0 <= k < |S| ==> S[k] in A
  {
  }

  /** The passes of HASH_SRT. */
  method SortElementsOf(first: Element, cmp: Compare, ghost A: seq<Element>)
    returns (list: Element, tail: Element, ghost S: seq<Element>)
    requires AppList(A) && Distinct(A) && A != [] && first == A[0]
    requires Consistent(cmp, A)
    modifies A`next, A`prev
    ensures S == Sort(LeBy(cmp), A) && AppList(S) && |S| == |A| && list == S[0] && tail == S[|S| - 1]
    ensures InOrder(cmp, A, S)
  {
    hide AppList, Distinct, PreorderOn, Sort, Runs, Pass, L.Span, Pow2, From, Consistent, InOrder, LeBy;
    ghost var le, D := LeBy(cmp), Nodes(A);
    ConsistentOrders(cmp, A);
    SortedBy(cmp, A);
    S := A;
    InNodes(A);
    RunsOfOne(le, A);
    RunsLength(le, A, 1);
    list := first;
    var insize := 1;
    var looping := true;
    tail := first;
    while looping
      invariant AppList(S) && Distinct(S) && |S| == |A| && list == S[0] && From(S, D) && 0 < insize
      invariant looping ==> S == Runs(le, A, insize) && (insize == 1 || insize < |A|)
      invariant !looping ==> S == Sort(le, A) && tail == S[|S| - 1]
      decreases looping, |A| - insize
    {
      FromNodes(S, A);
      var nmerges;
      ghost var R := S;
      list, tail, nmerges, S := SortPass(cmp, insize, list, R);
      PassDoubles(le, A, insize, D);
      RunsFrom(le, A, 2 * insize, D);
      RunsLength(le, A, 2 * insize);
      L.SpanStep(insize, nmerges);
      if nmerges <= 1 {
        looping := false;
        RunsOfAll(le, A, 2 * insize);
      }
      insize := insize * 2;
    }
  }

  /** HASH_SRT on the application list A: it becomes the stably sorted list, with its head and tail. */
  method SortList(first: Element, cmp: Compare, ghost A: seq<Element>)
    returns (list: Element, tail: Element, ghost S: seq<Element>)
    requires AppList(A) && Distinct(A) && A != [] && first == A[0]
    requires Consistent(cmp, A)
    modifies A`next, A`prev
    ensures S == Sort(LeBy(cmp), A) && AppList(S) && |S| == |A| && list == S[0] && tail == S[|S| - 1]
    ensures multiset(S) == multiset(A)
    ensures forall i, j {:trigger S[i], S[j]} :: 0 <= i < j < |S| ==>
      cmp(S[i], S[j]) <= 0 && (cmp(S[j], S[i]) <= 0 ==> Precedes(A, S[i], S[j]))
  {
    hide AppList, Distinct, Sort, Precedes, Consistent, LeBy;
    list, tail, S := SortElementsOf(first, cmp, A);
  }

  lemma InNodes(A: seq<Element>)
    ensures From(A, Nodes(A))
  {
  }

  lemma FiledPermuted(h: Hash<Element>, A: seq<Element>, S: seq<Element>, B: seq<seq<Element>>)
    requires Filed(h, A, B) && multiset(S) == multiset(A)
    ensures Filed(h, S, B) && |S| == |A| && forall k {:trigger S[k]} :: 0 <= k < |S| ==> S[k] in A
  {
    assert |S| == |multiset(S)| && |A| == |multiset(A)|;
    forall k {:trigger S[k]} | 0 <= k < |S| ensures S[k] in A {
      assert S[k] in multiset(S) && S[k] in multiset(A);
    }
  }

  /** HASH_SRT: the table is told the new tail, and its chains are not touched. */
  method SortTable(t: Table, first: Element, cmp: Compare, ghost hash: Key -> nat, ghost A: seq<Element>,
                   ghost B: seq<seq<Element>>, ghost M: seq<nat>)
    returns (list: Element, ghost S: seq<Element>)
    requires Holds(t, hash, A, B, M) && AppList(A) && Distinct(A) && A != [] && first == A[0]
    requires Consistent(cmp, A)
    modifies t`tail, A`next, A`prev
    ensures S == Sort(LeBy(cmp), A) && AppList(S) && S != [] && list == S[0] && t.tail == S[|S| - 1]
    ensures Holds(t, hash, S, B, M) && InOrder(cmp, A, S)
  {
    hide Filed, InOrder, Bounded, Pow2, Distinct, Chains, AppList, Sort, PreorderOn, Consistent, Precedes;
    S := Sort(LeBy(cmp), A);
    SortElements(LeBy(cmp), A);
    FiledPermuted(OfKey(hash), A, S, B);
    var tail;
    list, tail, S := SortElementsOf(first, cmp, A);
    label Sorted:
    t.tail := tail;
    KeepsChains(B);
    KeepsAppList@Sorted(S);
  }
}
