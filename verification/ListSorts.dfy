/** list_sort: the bottom-up merge sort of a circular list, in place. */
module ListSorts {
  import opened Sequences
  import opened StableSort
  import opened LinkedLists
  import opened Bits

  type Compare<!T> = (T, T) -> int

  /** Nodes in the order of cmp(a, b) <= 0 on what they are embedded in. */
  ghost function ByItem<T>(cmp: Compare<T>): Order<Node<T>> {
    (x: Node<T>, y: Node<T>) => cmp(x.item, y.item) <= 0
  }

  /** cmp(a, b) <= 0 is a total preorder of what the nodes of S are embedded in. */
  ghost predicate Consistent<T>(cmp: Compare<T>, S: seq<Node<T>>) {
    && (forall x: Node<T>, y: Node<T> {:trigger x in S, y in S} ::
          x in S && y in S ==> cmp(x.item, y.item) <= 0 || cmp(y.item, x.item) <= 0)
    && (forall x: Node<T>, y: Node<T>, z: Node<T> {:trigger x in S, y in S, z in S} ::
          x in S && y in S && z in S && cmp(x.item, y.item) <= 0 && cmp(y.item, z.item) <= 0 ==>
          cmp(x.item, z.item) <= 0)
  }

  /** O is S in the order of cmp; nodes that cmp holds equal both ways stand as they stood in S. */
  ghost predicate InOrder<T>(cmp: Compare<T>, S: seq<Node<T>>, O: seq<Node<T>>) {
    && multiset(O) == multiset(S)
    && forall i, j {:trigger O[i], O[j]} :: 0 <= i < j < |O| ==>
      cmp(O[i].item, O[j].item) <= 0 && (cmp(O[j].item, O[i].item) <= 0 ==> Precedes(S, O[i], O[j]))
  }

  lemma ConsistentOrders<T>(cmp: Compare<T>, S: seq<Node<T>>)
    requires Consistent(cmp, S)
    ensures PreorderOn(ByItem(cmp), Nodes(S))
  {
    var le := ByItem(cmp);
    forall x, y {:trigger le(x, y)} | x in S && y in S ensures le(x, y) || le(y, x) { }
    forall x, y, z {:trigger le(x, y), le(y, z)} | x in S && y in S && z in S && le(x, y) && le(y, z)
      ensures le(x, z)
    { }
  }

  lemma SortedBy<T>(cmp: Compare<T>, S: seq<Node<T>>)
    requires Consistent(cmp, S)
    ensures InOrder(cmp, S, Sort(ByItem(cmp), S))
  {
    hide Sort, PreorderOn, Precedes, Consistent;
    ConsistentOrders(cmp, S);
    assert From(S, Nodes(S));
    SortOrders(ByItem(cmp), S, Nodes(S));
    var O := Sort(ByItem(cmp), S);
    forall i, j {:trigger O[i], O[j]} | 0 <= i < j < |O|
      ensures cmp(O[i].item, O[j].item) <= 0 && (cmp(O[j].item, O[i].item) <= 0 ==> Precedes(S, O[i], O[j]))
    {
      assert ByItem(cmp)(O[i], O[j]);
    }
  }

  // ---------- The state of a pass ----------

  /** Nodes i up to j of S still have the links the pass found. */
  ghost predicate Unread<T>(S: seq<Node<T>>, i: int, j: int)
    reads S
  {
    forall k {:trigger S[k]} :: 0 <= i <= k < j <= |S| ==> S[k].next == After(S, k)
  }

  /** The output so far: linked both ways, nothing before its first node. */
  ghost predicate Chained<T>(O: seq<Node<T>>)
    reads O
  {
    && Distinct(O)
    && (O != [] ==> O[0].prev == null)
    && (forall k {:trigger ChainLink(O, k)} :: 0 <= k < |O| - 1 ==> ChainLink(O, k))
  }

  ghost predicate ChainLink<T>(O: seq<Node<T>>, k: int)
    requires 0 <= k < |O| - 1
    reads O
  {
    O[k].next == O[k + 1] && O[k + 1].prev == O[k]
  }

  ghost predicate Within<X>(O: seq<X>, S: seq<X>) {
    forall k {:trigger O[k]} :: 0 <= k < |O| ==> O[k] in S
  }

  ghost predicate Avoids<X>(O: seq<X>, S: seq<X>, i: int, j: int) {
    forall k, l {:trigger O[k], S[l]} :: 0 <= k < |O| && 0 <= i <= l < j <= |S| ==> O[k] != S[l]
  }

  /** Node i of S, or null past its end. */
  ghost function NodeAt<T>(S: seq<Node<T>>, i: int): Node?<T> {
    if 0 <= i < |S| then S[i] else null
  }

  ghost function Last<X>(O: seq<X>): X
    requires O != []
  {
    O[|O| - 1]
  }

  /** Output O has been linked; parts [a, m) and [b, |S|) of the input have not been read. */
  ghost predicate Between<T>(S: seq<Node<T>>, O: seq<Node<T>>, a: int, m: int, b: int, list: Node?<T>, tail: Node?<T>)
    reads S, O
  {
    && 0 <= a <= m <= b <= |S|
    && Distinct(S) && Unread(S, a, m) && Unread(S, b, |S|)
    && Chained(O) && Within(O, S) && Avoids(O, S, a, m) && Avoids(O, S, b, |S|)
    && list == NodeAt(O, 0) && tail == NodeAt(O, |O| - 1)
  }

  // ---------- Linking one node to the output ----------

  /** The three assignments at the end of the merge loop's body. */
  method LinkNext<T>(e: Node<T>, list: Node?<T>, tail: Node?<T>, ghost O: seq<Node<T>>)
    returns (list': Node<T>, tail': Node<T>)
    requires Chained(O) && list == NodeAt(O, 0) && tail == NodeAt(O, |O| - 1)
    requires forall k {:trigger O[k]} :: 0 <= k < |O| ==> O[k] != e
    modifies (if tail == null then {} else {tail})`next, e`prev
    ensures Chained(O + [e]) && list' == NodeAt(O + [e], 0) && tail' == e
  {
    if tail != null {
      tail.next := e;
      list' := list;
    } else {
      list' := e;
    }
    e.prev := tail;
    tail' := e;
    ghost var Q := O + [e];
    forall k | 0 <= k < |Q| - 1 ensures ChainLink(Q, k) {
      if k < |O| - 1 { assert old(ChainLink(O, k)); }
    }
  }

  /** e, the next unread node of either part, joins the output. */
  lemma Taken<X>(S: seq<X>, O: seq<X>, a: int, m: int, b: int, a': int, b': int, e: X)
    requires 0 <= a <= m <= b <= |S| && Distinct(S) && Within(O, S) && Avoids(O, S, a, m) && Avoids(O, S, b, |S|)
    requires (a < m && e == S[a] && a' == a + 1 && b' == b) || (b < |S| && e == S[b] && a' == a && b' == b + 1)
    ensures Within(O + [e], S) && Avoids(O + [e], S, a', m) && Avoids(O + [e], S, b', |S|)
    ensures forall k {:trigger O[k]} :: 0 <= k < |O| ==> O[k] != e
  {
  }

  /** e, the next unread node of the first part (a' == a + 1) or of the second, joins the output. */
  method Emit<T>(e: Node<T>, list: Node?<T>, tail: Node?<T>, ghost S: seq<Node<T>>, ghost O: seq<Node<T>>,
                 ghost a: nat, ghost m: nat, ghost b: nat, ghost a': nat, ghost b': nat)
    returns (list': Node<T>, tail': Node<T>)
    requires Between(S, O, a, m, b, list, tail)
    requires (a < m && e == S[a] && a' == a + 1 && b' == b) || (b < |S| && e == S[b] && a' == a && b' == b + 1)
    modifies S
    ensures Between(S, O + [e], a', m, b', list', tail')
  {
    hide Within, Avoids, Chained;
    Taken(S, O, a, m, b, a', b', e);
    TailIsOutput(S, O, a, m, b, list, tail);
    list', tail' := LinkNext(e, list, tail, O);
  }

  lemma TailIsOutput<T>(S: seq<Node<T>>, O: seq<Node<T>>, a: int, m: int, b: int, list: Node?<T>, tail: Node?<T>)
    requires Between(S, O, a, m, b, list, tail)
    ensures tail != null ==> tail in S && forall k {:trigger S[k]} :: (a <= k < m || b <= k < |S|) ==> S[k] != tail
  {
    hide Chained, Unread;
  }

  lemma NextUnread<T>(S: seq<Node<T>>, O: seq<Node<T>>, a: int, m: int, b: int, list: Node?<T>, tail: Node?<T>)
    requires Between(S, O, a, m, b, list, tail)
    ensures a < m ==> S[a].next == After(S, a)
    ensures b < |S| ==> S[b].next == After(S, b)
  {
    hide Chained, Avoids, Within;
  }

  /** Past the last node the circle returns to oldhead, which the loop reads as null. */
  lemma AfterOrNull<T>(S: seq<Node<T>>, i: int)
    requires 0 <= i < |S| && Distinct(S)
    ensures (if After(S, i) == S[0] then null else After(S, i)) == NodeAt(S, i + 1)
  {
  }

  lemma EmitFirst<X>(le: Order<X>, O: seq<X>, s: seq<X>, t: seq<X>)
    requires s != [] && (t == [] || le(s[0], t[0]))
    ensures O + Merge(le, s, t) == (O + [s[0]]) + Merge(le, s[1..], t)
  {
  }

  lemma EmitSecond<X>(le: Order<X>, O: seq<X>, s: seq<X>, t: seq<X>)
    requires t != [] && (s == [] || !le(s[0], t[0]))
    ensures O + Merge(le, s, t) == (O + [t[0]]) + Merge(le, s, t[1..])
  {
  }

  /** The merge loop: the run of psize nodes at p and the run of at most qsize nodes at q join the output. */
  method MergeRuns<T>(cmp: Compare<T>, p0: Node<T>, psize0: nat, q0: Node?<T>, insize: nat, oldhead: Node<T>,
                      list0: Node?<T>, tail0: Node?<T>, ghost S: seq<Node<T>>, ghost O0: seq<Node<T>>, ghost a0: nat)
    returns (q: Node?<T>, list: Node<T>, tail: Node<T>, ghost O: seq<Node<T>>, ghost compares: nat)
    requires S != [] && Distinct(S) && oldhead == S[0] && 0 < insize && 0 < psize0 && |O0| == a0 && a0 + psize0 <= |S|
    requires Between(S, O0, a0, a0 + psize0, a0 + psize0, list0, tail0)
    requires p0 == S[a0] && q0 == NodeAt(S, a0 + psize0)
    modifies S
    ensures var m := a0 + psize0; var end := Min(m + insize, |S|);
      && O == O0 + Merge(ByItem(cmp), S[a0..m], S[m..end])
      && Between(S, O, m, m, end, list, tail) && |O| == end
      && q == NodeAt(S, end) && compares < end - a0
  {
    hide Between, Merge, Distinct, After, Unread;
    ghost var le := ByItem(cmp);
    ghost var m := a0 + psize0;
    ghost var end := Min(m + insize, |S|);
    ghost var a, b := a0, m;
    var p: Node?<T> := p0;
    var psize, qsize := psize0, insize;
    q := q0;
    O := O0;
    compares := 0;
    var first, last := list0, tail0;
    while psize > 0 || (qsize > 0 && q != null)
      invariant a0 <= a <= m <= b <= end && psize == m - a && qsize == m + insize - b
      invariant (a < m ==> p == S[a]) && q == NodeAt(S, b)
      invariant Between(S, O, a, m, b, first, last) && |O| == a + (b - m)
      invariant O + Merge(le, S[a..m], S[b..end]) == O0 + Merge(le, S[a0..m], S[m..end])
      invariant compares <= (a - a0) + (b - m) && (a == m && b == end ==> compares < end - a0)
      decreases psize + qsize
    {
      ghost var a', b' := a, b;
      var e: Node<T>;
      NextUnread(S, O, a, m, b, first, last);
      assert a < m ==> S[a..m][0] == S[a] && S[a..m][1..] == S[a + 1..m];
      assert b < end ==> S[b..end][0] == S[b] && S[b..end][1..] == S[b + 1..end];
      if psize == 0 {
        AfterOrNull(S, b);
        EmitSecond(le, O, S[a..m], S[b..end]);
        e := q;
        q := q.next;
        qsize := qsize - 1;
        if q == oldhead { q := null; }
        b' := b + 1;
      } else if qsize == 0 || q == null {
        EmitFirst(le, O, S[a..m], S[b..end]);
        e := p;
        p := p.next;
        psize := psize - 1;
        if p == oldhead { p := null; }
        a' := a + 1;
      } else if cmp(p.item, q.item) <= 0 {
        compares := compares + 1;
        EmitFirst(le, O, S[a..m], S[b..end]);
        e := p;
        p := p.next;
        psize := psize - 1;
        if p == oldhead { p := null; }
        a' := a + 1;
      } else {
        compares := compares + 1;
        AfterOrNull(S, b);
        EmitSecond(le, O, S[a..m], S[b..end]);
        e := q;
        q := q.next;
        qsize := qsize - 1;
        if q == oldhead { q := null; }
        b' := b + 1;
      }
      if a' == a + 1 { AfterOrNull(S, a); }
      first, last := Emit(e, first, last, S, O, a, m, b, a', b');
      O, a, b := O + [e], a', b';
    }
    NotEmptied(S, O, a, m, b, first, last);
    MergeNothing(le, O, S[a..m], S[b..end]);
    list, tail := first, last;
  }

  lemma MergeNothing<X>(le: Order<X>, O: seq<X>, s: seq<X>, t: seq<X>)
    requires s == [] && t == []
    ensures O + Merge(le, s, t) == O
  {
  }

  lemma NotEmptied<T>(S: seq<Node<T>>, O: seq<Node<T>>, a: int, m: int, b: int, list: Node?<T>, tail: Node?<T>)
    requires Between(S, O, a, m, b, list, tail) && O != []
    ensures list != null && tail != null
  {
    hide Chained, Avoids, Within, Unread;
  }

  // ---------- A pass, and the sort ----------

  lemma NextOrNull<T>(S: seq<Node<T>>, a: nat, k: nat)
    requires Distinct(S) && Unread(S, a, |S|) && a <= k < |S|
    ensures (if S[k].next == S[0] then null else S[k].next) == NodeAt(S, k + 1)
  {
    AfterOrNull(S, k);
  }

  /** The loop that steps q over the first run and counts it. */
  method StepOver<T>(p: Node<T>, insize: nat, oldhead: Node<T>, ghost S: seq<Node<T>>, ghost a: nat)
    returns (q: Node?<T>, psize: nat)
    requires a < |S| && Distinct(S) && oldhead == S[0] && p == S[a] && 0 < insize && Unread(S, a, |S|)
    ensures psize == Min(insize, |S| - a) && q == NodeAt(S, a + psize)
  {
    hide Unread, After, Distinct;
    q := p;
    psize := 0;
    var i := 0;
    while i < insize
      invariant 0 <= i <= insize && psize == i && a + i < |S| && q == S[a + i]
      decreases insize - i
    {
      NextOrNull(S, a, a + i);
      psize := psize + 1;
      q := if q.next == oldhead then null else q.next;
      if q == null {
        break;
      }
      i := i + 1;
    }
  }

  lemma WholeUnread<T>(S: seq<Node<T>>)
    requires Circle(S)
    ensures Between<T>(S, [], 0, 0, 0, null, null)
  {
    forall k {:trigger S[k]} | 0 <= k < |S| ensures S[k].next == After(S, k) { assert Link(S, k); }
  }

  /** tail->next = list; list->prev = tail: the output becomes a circle. */
  method CloseOutput<T>(list: Node<T>, tail: Node<T>, ghost S: seq<Node<T>>, ghost O: seq<Node<T>>)
    requires Between(S, O, |S|, |S|, |S|, list, tail) && O != []
    modifies S
    ensures Circle(O)
  {
    EndsAreInput(S, O, list, tail);
    tail.next := list;
    list.prev := tail;
    forall k | 0 <= k < |O| ensures Link(O, k) {
      if k < |O| - 1 { assert old(ChainLink(O, k)); }
    }
  }

  lemma EndsAreInput<T>(S: seq<Node<T>>, O: seq<Node<T>>, list: Node?<T>, tail: Node?<T>)
    requires Between(S, O, |S|, |S|, |S|, list, tail) && O != []
    ensures list != null && tail != null && list in S && tail in S && list == O[0] && tail == Last(O)
  {
    hide Chained, Unread, Avoids;
  }

  lemma PassNext<X>(le: Order<X>, S: seq<X>, w: nat, a: nat)
    requires 0 < w && a < |S|
    ensures var m, end := a + Min(w, |S| - a), Min(a + Min(w, |S| - a) + w, |S|);
      && a < m <= end <= |S|
      && Pass(le, S[a..], w) == Merge(le, S[a..m], S[m..end]) + Pass(le, S[end..], w)
  {
    hide Merge;
    var r := S[a..];
    var m, end := a + Min(w, |S| - a), Min(a + Min(w, |S| - a) + w, |S|);
    assert r[..m - a] == S[a..m] && r[m - a..end - a] == S[m..end] && r[end - a..] == S[end..];
  }

  lemma CircleParts<T>(S: seq<Node<T>>)
    requires Circle(S)
    ensures S != [] && Distinct(S)
  {
  }

  lemma PassNothing<X>(le: Order<X>, s: seq<X>, w: nat)
    requires s == [] && 0 < w
    ensures Pass(le, s, w) == []
  {
  }

  lemma AllUnread<T>(S: seq<Node<T>>, O: seq<Node<T>>, a: int, list: Node?<T>, tail: Node?<T>)
    requires Between(S, O, a, a, a, list, tail)
    ensures Unread(S, a, |S|)
  {
    hide Chained, Avoids, Within;
  }

  /** The first run of the unread input is set apart from the rest. */
  lemma SplitUnread<T>(S: seq<Node<T>>, O: seq<Node<T>>, a: int, m: int, list: Node?<T>, tail: Node?<T>)
    requires Between(S, O, a, a, a, list, tail) && a <= m <= |S|
    ensures Between(S, O, a, m, m, list, tail)
  {
    hide Chained, Within;
  }

  lemma Rejoin<T>(S: seq<Node<T>>, O: seq<Node<T>>, m: int, b: int, list: Node?<T>, tail: Node?<T>)
    requires Between(S, O, m, m, b, list, tail)
    ensures Between(S, O, b, b, b, list, tail)
  {
    hide Chained, Within;
  }

  /** The body of the pass's loop: the next two runs are found and merged. */
  method MergePair<T>(cmp: Compare<T>, p: Node<T>, insize: nat, oldhead: Node<T>, list0: Node?<T>, tail0: Node?<T>,
                      ghost S: seq<Node<T>>, ghost O0: seq<Node<T>>, ghost a: nat)
    returns (q: Node?<T>, list: Node<T>, tail: Node<T>, ghost O: seq<Node<T>>, ghost compares: nat)
    requires S != [] && Distinct(S) && oldhead == S[0] && 0 < insize && |O0| == a < |S| && p == S[a]
    requires Between(S, O0, a, a, a, list0, tail0)
    modifies S
    ensures var end := Min(a + 2 * insize, |S|);
      && Between(S, O, end, end, end, list, tail) && |O| == end && q == NodeAt(S, end)
      && O0 + Pass(ByItem(cmp), S[a..], insize) == O + Pass(ByItem(cmp), S[end..], insize)
      && compares < end - a
  {
    hide Pass, Merge, Between, Unread, After, Distinct;
    AllUnread(S, O0, a, list0, tail0);
    var q0, psize := StepOver(p, insize, oldhead, S, a);
    PassNext(ByItem(cmp), S, insize, a);
    SplitUnread(S, O0, a, a + psize, list0, tail0);
    q, list, tail, O, compares := MergeRuns(cmp, p, psize, q0, insize, oldhead, list0, tail0, S, O0, a);
    Rejoin(S, O, a + psize, Min(a + psize + insize, |S|), list, tail);
  }

  /** The nodes that k merges of two runs of w cover. */
  function Span(w: nat, k: nat): nat { 2 * w * k }

  lemma SpanStep(w: nat, k: nat)
    ensures Span(w, 0) == 0 && Span(w, 1) == 2 * w && Span(w, k + 1) == Span(w, k) + 2 * w
    ensures 0 < w && 1 < k ==> 2 * w <= Span(w, k - 1)
  {
    if 0 < w && 1 < k { assert 2 * w * (k - 1) >= 2 * w * 1; }
  }

  lemma SpanStart(w: nat, n: nat)
    requires 0 < n
    ensures Min(Span(w, 0), n) == 0
  {
    SpanStep(w, 0);
  }

  /** After k merges the pass has come to node a of n, and has not read all of them. */
  lemma SpanNext(w: nat, k: nat, a: nat, n: nat)
    requires a == Min(Span(w, k), n) && a < n
    ensures Span(w, k) < n && Min(a + 2 * w, n) == Min(Span(w, k + 1), n) && a <= Min(a + 2 * w, n) <= n
    ensures 0 < w ==> a < Min(a + 2 * w, n)
  {
    hide Span;
    SpanStep(w, k);
  }

  lemma SpanEnd(w: nat, k: nat, a: nat, n: nat)
    requires a == Min(Span(w, k), n) == n
    ensures n <= Span(w, k)
  {
    hide Span;
  }

  /** One pass: pairs of runs are merged until the input is read. */
  method SortPass<T>(cmp: Compare<T>, insize: nat, first: Node<T>, ghost S: seq<Node<T>>)
    returns (list: Node<T>, nmerges: nat, ghost O: seq<Node<T>>, ghost compares: nat)
    requires Circle(S) && first == S[0] && 0 < insize
    modifies S
    ensures Circle(O) && O == Pass(ByItem(cmp), S, insize) && list == O[0]
    ensures 0 < nmerges && Span(insize, nmerges - 1) < |S| <= Span(insize, nmerges)
    ensures compares + nmerges <= |S|
  {
    hide Pass, Merge, Between, Link, Unread, After, Distinct, Span, Circle, Min;
    CircleParts(S);
    SpanStart(insize, |S|);
    WholeUnread(S);
    ghost var le := ByItem(cmp);
    O := [];
    compares := 0;
    ghost var a := 0;
    var p: Node?<T>, oldhead := first, first;
    var list0: Node?<T>, tail: Node?<T> := null, null;
    nmerges := 0;
    assert S[0..] == S;
    while p != null
      invariant 0 <= a <= |S| && |O| == a && p == NodeAt(S, a)
      invariant Between(S, O, a, a, a, list0, tail)
      invariant O + Pass(le, S[a..], insize) == Pass(le, S, insize)
      invariant a == Min(Span(insize, nmerges), |S|) && (nmerges > 0 ==> Span(insize, nmerges - 1) < |S|)
      invariant (nmerges == 0 ==> a == 0)
      invariant compares + nmerges <= a
      decreases |S| - a
    {
      SpanNext(insize, nmerges, a, |S|);
      nmerges := nmerges + 1;
      ghost var c;
      p, list0, tail, O, c := MergePair(cmp, p, insize, oldhead, list0, tail, S, O, a);
      a, compares := Min(a + 2 * insize, |S|), compares + c;
    }
    SpanEnd(insize, nmerges, a, |S|);
    PassNothing(le, S[a..], insize);
    EndsAreInput(S, O, list0, tail);
    list := list0;
    CloseOutput(list0, tail, S, O);
  }

  ghost function Nodes<T>(S: seq<Node<T>>): set<Node<T>> { set x | x in S }

  /** Relinking the head before the first node and after the last. */
  method RestoreHead<T>(head: Node<T>, list: Node<T>, ghost S: seq<Node<T>>)
    requires Circle(S) && list == S[0] && head !in S
    modifies head, S
    ensures Circle([head] + S)
  {
    assert Link(S, |S| - 1);
    head.next := list;
    head.prev := list.prev;
    list.prev.next := head;
    list.prev := head;
    ghost var C := [head] + S;
    forall i | 0 <= i < |C| ensures Link(C, i) {
      if 0 < i { assert old(Link(S, i - 1)); }
    }
  }

  /** The body of list_sort's outer loop: a pass at width insize turns sorted runs of insize into
      sorted runs of twice that. */
  method DoublingPass<T>(cmp: Compare<T>, insize: nat, first: Node<T>, ghost S: seq<Node<T>>, ghost L: seq<Node<T>>)
    returns (list: Node<T>, nmerges: nat, ghost O: seq<Node<T>>, ghost compares: nat)
    requires Circle(S) && |S| > 0 && first == S[0] && 0 < insize && S == Runs(ByItem(cmp), L, insize)
    requires PreorderOn(ByItem(cmp), Nodes(L)) && From(L, Nodes(L))
    modifies S
    ensures Circle(O) && |O| == |L| > 0 && O == Runs(ByItem(cmp), L, 2 * insize) && list == O[0] && From(O, Nodes(L))
    ensures nmerges <= 1 <==> |L| <= 2 * insize
    ensures compares < |L|
  {
    hide Circle, PreorderOn, Sort, Runs, Pass, Span, From;
    ghost var le := ByItem(cmp);
    RunsLength(le, L, insize);
    list, nmerges, O, compares := SortPass(cmp, insize, first, S);
    PassDoubles(le, L, insize, Nodes(L));
    RunsFrom(le, L, 2 * insize, Nodes(L));
    RunsLength(le, L, 2 * insize);
    SpanStep(insize, nmerges);
  }

  /** The passes of list_sort, and the head put back. */
  method SortCircle<T>(head: Node<T>, cmp: Compare<T>, ghost C: seq<Node<T>>)
    returns (ghost passes: nat, ghost compares: nat)
    requires Circle(C) && head == C[0] && |C| > 1
    requires PreorderOn(ByItem(cmp), Nodes(C[1..]))
    modifies C
    ensures Circle([head] + Sort(ByItem(cmp), C[1..]))
    ensures 0 < passes && |C[1..]| <= Pow2(passes) && (passes > 1 ==> Pow2(passes - 1) < |C[1..]|)
    ensures compares <= passes * (|C[1..]| - 1)
  {
    hide Circle, Link, PreorderOn, Sort, Runs, Pass, Span, Pow2, From;
    ghost var le, L, D := ByItem(cmp), C[1..], Nodes(C[1..]);
    ListParts(C);
    var list := head.next;
    Delete(head, C, 0);
    ghost var S := L;
    passes, compares := 0, 0;
    PowStart();
    RunsOfOne(le, L);
    var insize := 1;
    while true
      invariant Circle(S) && |S| == |L| && list == S[0] && From(S, D) && S == Runs(le, L, insize)
      invariant insize == Pow2(passes) && 0 < insize && (passes > 0 ==> insize < |L|)
      invariant compares <= passes * (|L| - 1)
      decreases |L| - insize
    {
      FromNodes(S, D, C);
      var nmerges;
      ghost var c;
      list, nmerges, S, c := DoublingPass(cmp, insize, list, S, L);
      PowStep(passes);
      CountStep(compares, c, passes, |L| - 1);
      compares := compares + c;
      passes := passes + 1;
      if nmerges <= 1 {
        break;
      }
      insize := insize * 2;
    }
    RunsOfAll(le, L, Pow2(passes));
    FromNodes(S, D, C);
    RestoreHead(head, list, S);
  }

  /** list_sort, on any non-empty list and any comparison under which cmp(a, b) <= 0 is a total
      preorder of its elements: the list of the stably sorted nodes is rebuilt through the same
      head, in the least number of doubling passes, at fewer than n comparisons each. */
  method ListSort<T>(head: Node<T>, cmp: Compare<T>, ghost C: seq<Node<T>>)
    returns (ghost S: seq<Node<T>>, ghost passes: nat, ghost compares: nat)
    requires Circle(C) && head == C[0] && |C| > 1 && Consistent(cmp, C[1..])
    modifies C
    ensures Circle([head] + S) && S == Sort(ByItem(cmp), C[1..]) && multiset(S) == multiset(C[1..])
    ensures forall i, j {:trigger S[i], S[j]} :: 0 <= i < j < |S| ==>
      cmp(S[i].item, S[j].item) <= 0 && (cmp(S[j].item, S[i].item) <= 0 ==> Precedes(C[1..], S[i], S[j]))
    ensures 0 < passes && |S| <= Pow2(passes) && (passes > 1 ==> Pow2(passes - 1) < |S|)
    ensures compares <= passes * (|S| - 1)
  {
    hide Circle, PreorderOn, Sort, Consistent, Precedes, Pow2;
    ConsistentOrders(cmp, C[1..]);
    SortedBy(cmp, C[1..]);
    S := Sort(ByItem(cmp), C[1..]);
    SortLength(ByItem(cmp), C[1..]);
    passes, compares := SortCircle(head, cmp, C);
  }

  lemma ListParts<T>(C: seq<Node<T>>)
    requires Circle(C) && |C| > 1
    ensures Without(C, 0) == C[1..] && C[0] !in C[1..] && C[0].next == C[1] && From(C[1..], Nodes(C[1..]))
  {
    assert Link(C, 0);
  }

  lemma CountStep(compares: nat, c: nat, passes: nat, n: nat)
    requires compares <= passes * n && c <= n
    ensures compares + c <= (passes + 1) * n
  {
  }

  lemma FromNodes<T>(S: seq<Node<T>>, D: set<Node<T>>, C: seq<Node<T>>)
    requires From(S, D) && |C| > 1 && D == Nodes(C[1..]) && C[0] !in C[1..]
    ensures C[0] !in S && forall k {:trigger S[k]} :: 0 <= k < |S| ==> S[k] in C
  {
  }
}
