/** HASH_FSCK, the library's own integrity check, and what it says of the hashes that the operations build. */
module HashCheck {
  import opened HashSpec
  import opened HashTables
  import opened Uthash

  /** The links that the check follows: each hh_next leads to the next element of the chain, and the last
      one's is null.  Nothing is said of hh_prev. */
  ghost predicate ChainAhead(s: seq<Element>)
    reads s
  {
    forall k {:trigger s[k]} :: 0 <= k < |s| ==> s[k].hhNext == NodeAt(s, k + 1)
  }

  ghost predicate ListAhead(A: seq<Element>)
    reads A
  {
    forall k {:trigger A[k]} :: 0 <= k < |A| ==> A[k].next == NodeAt(A, k + 1)
  }

  ghost predicate ChainBack(s: seq<Element>)
    reads s
  {
    forall k {:trigger s[k]} :: 0 <= k < |s| ==> s[k].hhPrev == NodeAt(s, k - 1)
  }

  ghost predicate ListBack(A: seq<Element>)
    reads A
  {
    forall k {:trigger A[k]} :: 0 <= k < |A| ==> A[k].prev == NodeAt(A, k - 1)
  }

  /** Following the links from the buckets of t meets the chains B, and from head the list A. */
  ghost predicate Walkable(head: Element, t: Table, A: seq<Element>, B: seq<seq<Element>>)
    reads t, t.buckets, A, NodesOf(B)
  {
    && t.numBuckets == t.buckets.Length == |B| && A != [] && head == A[0] && ListAhead(A)
    && forall b {:trigger B[b]} :: 0 <= b < |B| ==> t.buckets[b].head == NodeAt(B[b], 0) && ChainAhead(B[b])
  }

  /** What the check is for: the links back are right, and so are all counts. */
  ghost predicate Intact(t: Table, A: seq<Element>, B: seq<seq<Element>>)
    requires t.buckets.Length == |B|
    reads t, t.buckets, A, NodesOf(B)
  {
    && (forall b {:trigger B[b]} :: 0 <= b < |B| ==> t.buckets[b].count == |B[b]| && ChainBack(B[b]))
    && |Flat(B)| == t.numItems && |A| == t.numItems && ListBack(A)
  }

  /** The while loop over one chain: every hh_prev is compared, and the elements counted. */
  method CheckChain(first: Element?, ghost s: seq<Element>) returns (ok: bool, count: nat)
    requires ChainAhead(s) && first == NodeAt(s, 0)
    ensures count == |s| && (ok <==> ChainBack(s))
  {
    var thh, prev: Element? := first, null;
    ok, count := true, 0;
    while thh != null
      invariant count <= |s| && thh == NodeAt(s, count) && prev == NodeAt(s, count - 1)
      invariant ok <==> forall k {:trigger s[k]} :: 0 <= k < count ==> s[k].hhPrev == NodeAt(s, k - 1)
      decreases |s| - count
    {
      assert thh == s[count];
      if prev != thh.hhPrev {
        ok := false;
      }
      count := count + 1;
      prev := thh;
      thh := thh.hhNext;
    }
  }

  /** The while loop over the application list. */
  method CheckList(head: Element, ghost A: seq<Element>) returns (ok: bool, count: nat)
    requires ListAhead(A) && A != [] && head == A[0]
    ensures count == |A| && (ok <==> ListBack(A))
  {
    var thh: Element?, prev: Element? := head, null;
    ok, count := true, 0;
    while thh != null
      invariant count <= |A| && thh == NodeAt(A, count) && prev == NodeAt(A, count - 1)
      invariant ok <==> forall k {:trigger A[k]} :: 0 <= k < count ==> A[k].prev == NodeAt(A, k - 1)
      decreases |A| - count
    {
      assert thh == A[count];
      if prev != thh.prev {
        ok := false;
      }
      count := count + 1;
      prev := thh;
      thh := thh.next;
    }
  }

  lemma CountStep(B: seq<seq<Element>>, b: nat)
    requires b < |B|
    ensures |Flat(B[..b + 1])| == |Flat(B[..b])| + |B[b]|
  {
    FlatParts(B, b);
  }

  /** HASH_FSCK reports nothing if and only if the links back and the counts are right.  The library
      checks in this order and exits at the first fault. */
  method Fsck(head: Element?, t: Table, ghost A: seq<Element>, ghost B: seq<seq<Element>>) returns (ok: bool)
    requires head != null ==> head.tbl == t && Walkable(head, t, A, B)
    ensures ok <==> (head == null || Intact(t, A, B))
  {
    hide Flat, NodeAt, ChainBack, ChainAhead, ListBack, ListAhead;
    ok := true;
    assert B[..0] == [] && |Flat(B[..0])| == 0 by { NoElements<Element>(); }
    if head != null {
      var count := 0;
      for b := 0 to t.numBuckets
        invariant ok <==> forall i {:trigger B[i]} :: 0 <= i < b ==> t.buckets[i].count == |B[i]| && ChainBack(B[i])
        invariant count == |Flat(B[..b])|
      {
        CountStep(B, b);
        var linksOk, bktCount := CheckChain(t.buckets[b].head, B[b]);
        count := count + bktCount;
        if !linksOk || t.buckets[b].count != bktCount {
          ok := false;
        }
      }
      assert B[..|B|] == B;
      if count != t.numItems {
        ok := false;
      }
      var linksOk, appCount := CheckList(head, A);
      if !linksOk || appCount != t.numItems {
        ok := false;
      }
    }
  }

  lemma NoElements<X>()
    ensures Flat<X>([]) == []
  {
  }

  lemma ChainBothWays(s: seq<Element>)
    requires Chain(s)
    ensures ChainAhead(s) && ChainBack(s)
  {
    forall k | 0 <= k < |s| ensures s[k].hhNext == NodeAt(s, k + 1) && s[k].hhPrev == NodeAt(s, k - 1) {
      assert Hooked(s, k);
    }
  }

  lemma ListBothWays(A: seq<Element>)
    requires AppList(A)
    ensures ListAhead(A) && ListBack(A)
  {
    forall k | 0 <= k < |A| ensures A[k].next == NodeAt(A, k + 1) && A[k].prev == NodeAt(A, k - 1) {
      assert Joined(A, k);
    }
  }

  /** On every hash that the operations build there is nothing to report. */
  lemma ValidIsIntact(h: HashHead)
    requires h.Valid() && h.head != null
    ensures Walkable(h.head, h.head.tbl, h.A, h.B) && Intact(h.head.tbl, h.A, h.B)
  {
    hide Chain, ChainAhead, ChainBack, ListAhead, ListBack, AppList, UniqueKeys, Filed, Bounded, Flat;
    FiledSize(OfKey(h.hash), h.A, h.B);
    ListBothWays(h.A);
    forall b | 0 <= b < |h.B| ensures ChainAhead(h.B[b]) && ChainBack(h.B[b]) {
      assert Chain(h.B[b]);
      ChainBothWays(h.B[b]);
    }
  }

  /** While expansion is not inhibited, no chain is longer than ten times its bucket's expand_mult + 1,
      and the buckets hold at most 19 elements each on average. */
  lemma ChainsStayShort(h: HashHead)
    requires h.Valid() && h.head != null && !h.head.tbl.noexpand
    ensures var t := h.head.tbl;
      && t.numItems == |h.A| <= 19 * t.numBuckets
      && forall b {:trigger t.buckets[b]} :: 0 <= b < t.numBuckets ==>
        t.buckets[b].count <= (t.buckets[b].expandMult + 1) * 10
  {
    FiledSize(OfKey(h.hash), h.A, h.B);
    RoomsHold(h.B, h.M);
  }
}
