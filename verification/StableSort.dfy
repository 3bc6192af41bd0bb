/** Stable sorting as a function, and why bottom-up merging computes it. */
module StableSort {
  import opened Sequences

  type Order<!X> = (X, X) -> bool

  /** le is a total preorder on D. */
  ghost predicate PreorderOn<X>(le: Order<X>, D: set<X>) {
    && (forall x, y {:trigger le(x, y)} :: x in D && y in D ==> le(x, y) || le(y, x))
    && (forall x, y, z {:trigger le(x, y), le(y, z)} :: x in D && y in D && z in D && le(x, y) && le(y, z) ==> le(x, z))
  }

  ghost predicate From<X>(s: seq<X>, D: set<X>) {
    forall i {:trigger s[i]} :: 0 <= i < |s| ==> s[i] in D
  }

  /** x goes before the first element it does not exceed. */
  ghost function Insert<X>(le: Order<X>, x: X, s: seq<X>): seq<X> {
    if s == [] then [x]
    else if le(x, s[0]) then [x] + s
    else [s[0]] + Insert(le, x, s[1..])
  }

  /** The stable sort. */
  ghost function Sort<X>(le: Order<X>, s: seq<X>): seq<X> {
    if s == [] then [] else Insert(le, s[0], Sort(le, s[1..]))
  }

  // ---------- What Sort is ----------

  ghost predicate Sorted<X>(le: Order<X>, s: seq<X>) {
    forall i, j {:trigger s[i], s[j]} :: 0 <= i < j < |s| ==> le(s[i], s[j])
  }

  lemma {:induction false} InsertElements<X>(le: Order<X>, x: X, s: seq<X>)
    ensures multiset(Insert(le, x, s)) == multiset(s) + multiset{x}
  {
    if s != [] {
      InsertElements(le, x, s[1..]);
      assert s == [s[0]] + s[1..];
    }
  }

  /** Sort permutes. */
  lemma {:induction false} SortElements<X>(le: Order<X>, s: seq<X>)
    ensures multiset(Sort(le, s)) == multiset(s)
  {
    if s != [] {
      SortElements(le, s[1..]);
      InsertElements(le, s[0], Sort(le, s[1..]));
      assert s == [s[0]] + s[1..];
    }
  }

  lemma {:induction false} InsertFrom<X>(le: Order<X>, x: X, s: seq<X>, D: set<X>)
    requires x in D && From(s, D)
    ensures From(Insert(le, x, s), D) && |Insert(le, x, s)| == |s| + 1
  {
    if s != [] { InsertFrom(le, x, s[1..], D); }
  }

  lemma {:induction false} SortFrom<X>(le: Order<X>, s: seq<X>, D: set<X>)
    requires From(s, D)
    ensures From(Sort(le, s), D) && |Sort(le, s)| == |s|
  {
    if s != [] {
      SortFrom(le, s[1..], D);
      InsertFrom(le, s[0], Sort(le, s[1..]), D);
    }
  }

  ghost predicate Below<X>(le: Order<X>, x: X, s: seq<X>) {
    forall i {:trigger s[i]} :: 0 <= i < |s| ==> le(x, s[i])
  }

  lemma {:induction false} InsertBelow<X>(le: Order<X>, b: X, x: X, s: seq<X>)
    requires Below(le, b, s) && le(b, x)
    ensures Below(le, b, Insert(le, x, s))
  {
    if s != [] { InsertBelow(le, b, x, s[1..]); }
  }

  lemma SortedCons<X>(le: Order<X>, x: X, s: seq<X>)
    requires Sorted(le, s) && Below(le, x, s)
    ensures Sorted(le, [x] + s)
  {
  }

  lemma {:induction false} InsertSorted<X>(le: Order<X>, x: X, s: seq<X>, D: set<X>)
    requires Sorted(le, s) && PreorderOn(le, D) && x in D && From(s, D)
    ensures Sorted(le, Insert(le, x, s))
  {
    if s != [] {
      assert s[0] in D;
      if le(x, s[0]) {
        forall i | 0 <= i < |s| ensures le(x, s[i]) { assert s[i] in D; }
        SortedCons(le, x, s);
      } else {
        InsertSorted(le, x, s[1..], D);
        InsertBelow(le, s[0], x, s[1..]);
        SortedCons(le, s[0], Insert(le, x, s[1..]));
      }
    }
  }

  lemma {:induction false} SortSorted<X>(le: Order<X>, s: seq<X>, D: set<X>)
    requires PreorderOn(le, D) && From(s, D)
    ensures Sorted(le, Sort(le, s))
  {
    if s != [] {
      SortSorted(le, s[1..], D);
      SortFrom(le, s[1..], D);
      InsertSorted(le, s[0], Sort(le, s[1..]), D);
    }
  }

  predicate Peer<X>(le: Order<X>, x: X, y: X) { le(x, y) && le(y, x) }

  /** The elements equivalent to x, in the order they stand in. */
  ghost function Peers<X>(le: Order<X>, x: X, s: seq<X>): seq<X> {
    if s == [] then []
    else (if Peer(le, x, s[0]) then [s[0]] else []) + Peers(le, x, s[1..])
  }

  lemma PeersCons<X>(le: Order<X>, x: X, y: X, s: seq<X>)
    ensures Peers(le, x, [y] + s) == (if Peer(le, x, y) then [y] else []) + Peers(le, x, s)
  {
    assert ([y] + s)[1..] == s;
  }

  lemma {:induction false} InsertStable<X>(le: Order<X>, x: X, y: X, s: seq<X>, D: set<X>)
    requires PreorderOn(le, D) && x in D && y in D && From(s, D)
    ensures Peers(le, x, Insert(le, y, s)) == Peers(le, x, [y] + s)
  {
    hide PreorderOn, Peer, Peers;
    assert [y] + [] == [y];
    if s != [] && !le(y, s[0]) {
      var r := s[1..];
      assert s == [s[0]] + r;
      InsertStable(le, x, y, r, D);
      PeersCons(le, x, y, r);
      PeersCons(le, x, y, s);
      PeersCons(le, x, s[0], r);
      PeersCons(le, x, s[0], Insert(le, y, r));
      NotBothPeers(le, x, y, s[0], D);
      var p, q, R := if Peer(le, x, y) then [y] else [], if Peer(le, x, s[0]) then [s[0]] else [], Peers(le, x, r);
      assert q + (p + R) == p + (q + R);
    }
  }

  lemma NotBothPeers<X>(le: Order<X>, x: X, y: X, z: X, D: set<X>)
    requires PreorderOn(le, D) && x in D && y in D && z in D && !le(y, z)
    ensures !(Peer(le, x, y) && Peer(le, x, z))
  {
  }

  /** Equivalent elements keep their order. */
  lemma {:induction false} SortStable<X>(le: Order<X>, x: X, s: seq<X>, D: set<X>)
    requires PreorderOn(le, D) && x in D && From(s, D)
    ensures Peers(le, x, Sort(le, s)) == Peers(le, x, s)
  {
    if s != [] {
      var r := Sort(le, s[1..]);
      SortStable(le, x, s[1..], D);
      SortFrom(le, s[1..], D);
      InsertStable(le, x, s[0], r, D);
      PeersCons(le, x, s[0], r);
    }
  }

  lemma {:induction false} PeersMember<X>(le: Order<X>, x: X, s: seq<X>, y: X)
    ensures y in Peers(le, x, s) <==> y in s && Peer(le, x, y)
  {
    hide Peer;
    if s != [] {
      PeersMember(le, x, s[1..], y);
      assert y in s <==> y == s[0] || y in s[1..];
    }
  }

  /** Among equivalent elements, what stands before what can be read off them alone. */
  lemma {:induction false} PeersPrecede<X>(le: Order<X>, x: X, s: seq<X>, y: X, z: X)
    requires Peer(le, x, y) && Peer(le, x, z)
    ensures Precedes(Peers(le, x, s), y, z) <==> Precedes(s, y, z)
  {
    hide Peer, Precedes, Peers;
    if s == [] {
      PeersNone(le, x);
    } else {
      var a, r := s[0], s[1..];
      assert s == [a] + r;
      PeersPrecede(le, x, r, y, z);
      PeersMember(le, x, r, z);
      PeersCons(le, x, a, r);
      PrecedesCons(a, r, y, z);
      if Peer(le, x, a) {
        PrecedesCons(a, Peers(le, x, r), y, z);
      } else {
        assert [] + Peers(le, x, r) == Peers(le, x, r);
      }
    }
  }

  lemma PeersNone<X>(le: Order<X>, x: X)
    ensures Peers(le, x, []) == []
  {
  }

  /** The sorted sequence is a permutation in order; where the order leaves two elements undecided, the
      one that stood first still stands first. */
  lemma SortOrders<X>(le: Order<X>, s: seq<X>, D: set<X>)
    requires PreorderOn(le, D) && From(s, D)
    ensures multiset(Sort(le, s)) == multiset(s)
    ensures var S := Sort(le, s); forall i, j {:trigger S[i], S[j]} :: 0 <= i < j < |S| ==>
      le(S[i], S[j]) && (le(S[j], S[i]) ==> Precedes(s, S[i], S[j]))
  {
    hide Sort, Precedes;
    var S := Sort(le, s);
    SortElements(le, s);
    SortSorted(le, s, D);
    SortFrom(le, s, D);
    forall i, j {:trigger S[i], S[j]} | 0 <= i < j < |S|
      ensures le(S[i], S[j]) && (le(S[j], S[i]) ==> Precedes(s, S[i], S[j]))
    {
      if le(S[j], S[i]) {
        SortPrecedes(le, s, D, S, i, j);
      }
    }
  }

  lemma SortPrecedes<X>(le: Order<X>, s: seq<X>, D: set<X>, S: seq<X>, i: nat, j: nat)
    requires PreorderOn(le, D) && From(s, D) && S == Sort(le, s) && From(S, D)
    requires i < j < |S| && le(S[i], S[j]) && le(S[j], S[i])
    ensures Precedes(s, S[i], S[j])
  {
    hide Sort, Peers;
    var x := S[i];
    assert x in D && Peer(le, x, S[j]) && Peer(le, x, x);
    assert Precedes(S, x, S[j]);
    SortStable(le, x, s, D);
    PeersPrecede(le, x, S, x, S[j]);
    PeersPrecede(le, x, s, x, S[j]);
  }

  // ---------- Merging ----------

  /** The first of the two runs wins ties. */
  ghost function Merge<X>(le: Order<X>, s: seq<X>, t: seq<X>): seq<X>
    decreases |s| + |t|
  {
    if s == [] then t
    else if t == [] then s
    else if le(s[0], t[0]) then [s[0]] + Merge(le, s[1..], t)
    else [t[0]] + Merge(le, s, t[1..])
  }

  lemma {:induction false} InsertMerge<X>(le: Order<X>, x: X, s: seq<X>, t: seq<X>, D: set<X>)
    requires PreorderOn(le, D) && x in D && From(s, D) && From(t, D)
    ensures Insert(le, x, Merge(le, s, t)) == Merge(le, Insert(le, x, s), t)
    decreases |s| + |t|
  {
    if t == [] {
    } else if s == [] {
      if !le(x, t[0]) {
        InsertMerge(le, x, s, t[1..], D);
        assert Merge(le, s, t)[1..] == t[1..];
      }
    } else {
      assert s[0] in D && t[0] in D;
      var m := Merge(le, s, t);
      if le(s[0], t[0]) {
        assert m[1..] == Merge(le, s[1..], t);
        if !le(x, s[0]) {
          InsertMerge(le, x, s[1..], t, D);
          assert Insert(le, x, s)[1..] == Insert(le, x, s[1..]);
        } else {
          assert ([x] + s)[1..] == s;
        }
      } else {
        assert m[1..] == Merge(le, s, t[1..]);
        if le(x, t[0]) {
          assert le(x, s[0]);
          assert ([x] + s)[1..] == s;
        } else {
          InsertMerge(le, x, s, t[1..], D);
          assert Insert(le, x, s)[0] == x || Insert(le, x, s)[0] == s[0];
        }
      }
    }
  }

  /** Merging two sorted pieces sorts the whole. */
  lemma {:induction false} MergeSorts<X>(le: Order<X>, s: seq<X>, t: seq<X>, D: set<X>)
    requires PreorderOn(le, D) && From(s, D) && From(t, D)
    ensures Merge(le, Sort(le, s), Sort(le, t)) == Sort(le, s + t)
  {
    if s == [] {
      assert s + t == t;
    } else {
      assert (s + t)[1..] == s[1..] + t && (s + t)[0] == s[0];
      MergeSorts(le, s[1..], t, D);
      SortFrom(le, s[1..], D);
      SortFrom(le, t, D);
      InsertMerge(le, s[0], Sort(le, s[1..]), Sort(le, t), D);
    }
  }

  // ---------- Bottom-up passes ----------

  /** s cut into pieces of w, each sorted. */
  ghost function Runs<X>(le: Order<X>, s: seq<X>, w: nat): seq<X>
    requires 0 < w
  {
    if s == [] then [] else Sort(le, s[..Min(w, |s|)]) + Runs(le, s[Min(w, |s|)..], w)
  }

  /** One pass at width w: neighbouring pieces of w are merged two by two. */
  ghost function Pass<X>(le: Order<X>, s: seq<X>, w: nat): seq<X>
    requires 0 < w
  {
    if s == [] then []
    else
      var mid, end := Min(w, |s|), Min(2 * w, |s|);
      Merge(le, s[..mid], s[mid..end]) + Pass(le, s[end..], w)
  }

  lemma {:induction false} SortLength<X>(le: Order<X>, s: seq<X>)
    ensures |Sort(le, s)| == |s|
  {
    SortElements(le, s);
    assert |s| == |multiset(s)| && |Sort(le, s)| == |multiset(Sort(le, s))|;
  }

  lemma {:induction false} RunsLength<X>(le: Order<X>, s: seq<X>, w: nat)
    requires 0 < w
    ensures |Runs(le, s, w)| == |s|
  {
    if s != [] {
      var m := Min(w, |s|);
      RunsLength(le, s[m..], w);
      SortLength(le, s[..m]);
    }
  }

  lemma {:induction false} RunsFrom<X>(le: Order<X>, s: seq<X>, w: nat, D: set<X>)
    requires 0 < w && From(s, D)
    ensures From(Runs(le, s, w), D)
  {
    if s != [] {
      var m := Min(w, |s|);
      RunsFrom(le, s[m..], w, D);
      SortFrom(le, s[..m], D);
    }
  }

  lemma RunsHead<X>(le: Order<X>, s: seq<X>, w: nat)
    requires 0 < w && s != []
    ensures Runs(le, s, w) == Sort(le, s[..Min(w, |s|)]) + Runs(le, s[Min(w, |s|)..], w)
  {
    hide Sort;
  }

  lemma Nothing<X>(le: Order<X>, w: nat)
    requires 0 < w
    ensures Sort(le, []) == [] && Runs(le, [], w) == []
  {
  }

  lemma Slices<X>(s: seq<X>, m: nat, e: nat)
    requires m <= e <= |s|
    ensures s[m..][..e - m] == s[m..e] && s[m..][e - m..] == s[e..] && s[..m] + s[m..e] == s[..e]
  {
  }

  lemma Regrouped<X>(a: seq<X>, b: seq<X>, c: seq<X>)
    ensures a + (b + c) == a + b + c
  {
  }

  lemma SecondRun<X>(le: Order<X>, s: seq<X>, w: nat, m: nat, e: nat)
    requires 0 < w && m <= e <= |s| && e - m == Min(w, |s| - m)
    ensures Runs(le, s[m..], w) == Sort(le, s[m..e]) + Runs(le, s[e..], w)
  {
    hide Sort, Runs;
    Slices(s, m, e);
    if m == |s| {
      Nothing(le, w);
    } else {
      RunsHead(le, s[m..], w);
    }
  }

  /** The first two runs, and the others. */
  lemma TwoRuns<X>(le: Order<X>, s: seq<X>, w: nat)
    requires 0 < w && s != []
    ensures var mid, end := Min(w, |s|), Min(2 * w, |s|);
      Runs(le, s, w) == Sort(le, s[..mid]) + Sort(le, s[mid..end]) + Runs(le, s[end..], w)
  {
    hide Sort, Runs;
    var mid, end := Min(w, |s|), Min(2 * w, |s|);
    RunsHead(le, s, w);
    SecondRun(le, s, w, mid, end);
    Regrouped(Sort(le, s[..mid]), Sort(le, s[mid..end]), Runs(le, s[end..], w));
  }

  lemma PassHead<X>(le: Order<X>, s: seq<X>, w: nat)
    requires 0 < w && s != []
    ensures var mid, end := Min(w, |s|), Min(2 * w, |s|);
      Pass(le, s, w) == Merge(le, s[..mid], s[mid..end]) + Pass(le, s[end..], w)
  {
    hide Merge;
  }

  lemma PassParts<X>(le: Order<X>, a: seq<X>, b: seq<X>, c: seq<X>, w: nat)
    requires 0 < w && a != [] && |a| == Min(w, |a| + |b| + |c|) && |a| + |b| == Min(2 * w, |a| + |b| + |c|)
    ensures Pass(le, a + b + c, w) == Merge(le, a, b) + Pass(le, c, w)
  {
    hide Merge, Pass;
    var s := a + b + c;
    var mid, end := Min(w, |s|), Min(2 * w, |s|);
    PassHead(le, s, w);
    assert s[..mid] == a && s[mid..end] == b && s[end..] == c;
  }

  lemma NoPass<X>(le: Order<X>, w: nat)
    requires 0 < w
    ensures Runs(le, [], w) == [] && Runs(le, [], 2 * w) == [] && Pass(le, [], w) == []
  {
  }

  lemma FromRest<X>(s: seq<X>, k: nat, D: set<X>)
    requires From(s, D) && k <= |s|
    ensures From(s[k..], D) && From(s[..k], D)
  {
  }

  /** The first two runs are merged. */
  lemma PassOfRuns<X>(le: Order<X>, s: seq<X>, w: nat, mid: nat, end: nat, D: set<X>)
    requires 0 < w && PreorderOn(le, D) && From(s, D) && s != [] && mid == Min(w, |s|) && end == Min(2 * w, |s|)
    ensures Pass(le, Runs(le, s, w), w) == Sort(le, s[..end]) + Pass(le, Runs(le, s[end..], w), w)
  {
    hide Sort, Merge, PreorderOn, Runs, Pass, From;
    var p, q := s[..mid], s[mid..end];
    TwoRuns(le, s, w);
    SortLength(le, p);
    SortLength(le, q);
    RunsLength(le, s[end..], w);
    PassParts(le, Sort(le, p), Sort(le, q), Runs(le, s[end..], w), w);
    FromRest(s, mid, D);
    FromRest(s, end, D);
    FromRest(s[..end], mid, D);
    Slices(s, mid, end);
    Slice2(s, mid, end);
    MergeSorts(le, p, q, D);
  }

  lemma Slice2<X>(s: seq<X>, m: nat, e: nat)
    requires m <= e <= |s|
    ensures s[..e][..m] == s[..m] && s[..e][m..] == s[m..e]
  {
  }

  /** A pass at width w turns runs of w into runs of 2w. */
  lemma {:induction false} PassDoubles<X>(le: Order<X>, s: seq<X>, w: nat, D: set<X>)
    requires 0 < w && PreorderOn(le, D) && From(s, D)
    ensures Pass(le, Runs(le, s, w), w) == Runs(le, s, 2 * w)
  {
    hide Sort, Merge, PreorderOn, Runs, Pass, From;
    if s == [] {
      NoPass(le, w);
    } else {
      var end := Min(2 * w, |s|);
      PassOfRuns(le, s, w, Min(w, |s|), end, D);
      FromRest(s, end, D);
      PassDoubles(le, s[end..], w, D);
      RunsHead(le, s, 2 * w);
    }
  }

  lemma {:induction false} RunsOfOne<X>(le: Order<X>, s: seq<X>)
    ensures Runs(le, s, 1) == s
  {
    if s != [] {
      RunsOfOne(le, s[1..]);
      assert s[..1] == [s[0]] && s[..1][1..] == [];
      assert Sort(le, s[..1]) == [s[0]];
    }
  }

  lemma RunsOfAll<X>(le: Order<X>, s: seq<X>, w: nat)
    requires |s| <= w && 0 < w
    ensures Runs(le, s, w) == Sort(le, s)
  {
    if s != [] {
      assert s[..|s|] == s && s[|s|..] == [];
    }
  }
}
