/** The hash table of uthash.h: one set of elements under two linked structures, the application
    list and the bucket chains. */
module HashTables {
  import opened Sequences
  import opened Bits
  import opened HashSpec

  type Key = string

  /** A user's structure with its hash handle.  The handle lies at a fixed offset in the structure,
      so the two are one object here. */
  class Element {
    const key: Key
    var tbl: Table?
    var prev: Element?     // application order
    var next: Element?
    var hhPrev: Element?   // bucket order
    var hhNext: Element?
    var hashv: nat

    constructor (key: Key)
      ensures this.key == key
    {
      this.key := key;
    }
  }

  datatype Bucket = Bucket(head: Element?, count: nat, expandMult: nat)

  class Table {
    var buckets: array<Bucket>
    var numBuckets: nat
    var log2NumBuckets: nat
    var numItems: nat
    var tail: Element?
    var idealChainMaxlen: nat
    var nonidealItems: nat
    var ineffExpands: nat
    var noexpand: bool

    /** HASH_MAKE_TABLE */
    constructor (head: Element)
      ensures tail == head && numItems == 0 && ineffExpands == 0 && !noexpand && Sizes(this) && numBuckets == 32
      ensures Sheet(buckets, seq(INITIAL_NUM_BUCKETS, _ => []), seq(INITIAL_NUM_BUCKETS, _ => 0))
      ensures fresh(buckets)
    {
      tail := head;
      numBuckets := INITIAL_NUM_BUCKETS;
      log2NumBuckets := INITIAL_NUM_BUCKETS_LOG2;
      buckets := new Bucket[INITIAL_NUM_BUCKETS](_ => Bucket(null, 0, 0));
      numItems := 0;
      idealChainMaxlen, nonidealItems, ineffExpands, noexpand := 0, 0, 0, false;
      new;
      assert Pow2(5) == 2 * Pow2(4);
      assert Pow2(4) == 2 * Pow2(3);
      assert Pow2(3) == 2 * Pow2(2);
      assert Pow2(2) == 2 * Pow2(1);
      assert Pow2(1) == 2 * Pow2(0);
    }
  }

  // ---------- What memory holds ----------

  ghost function NodeAt(s: seq<Element>, k: int): Element? {
    if 0 <= k < |s| then s[k] else null
  }

  ghost predicate Hooked(s: seq<Element>, k: int)
    requires 0 <= k < |s|
    reads s
  {
    s[k].hhNext == NodeAt(s, k + 1) && s[k].hhPrev == NodeAt(s, k - 1)
  }

  ghost predicate Chain(s: seq<Element>)
    reads s
  {
    forall k {:trigger Hooked(s, k)} :: 0 <= k < |s| ==> Hooked(s, k)
  }

  ghost function NodesOf(B: seq<seq<Element>>): set<Element> {
    set b, k | 0 <= b < |B| && 0 <= k < |B[b]| :: B[b][k]
  }

  ghost predicate Chains(B: seq<seq<Element>>)
    reads NodesOf(B)
  {
    forall b {:trigger Chain(B[b])} :: 0 <= b < |B| ==> Chain(B[b])
  }

  /** The bucket array: each bucket's head, count and multiplier. */
  ghost predicate Sheet(buckets: array<Bucket>, B: seq<seq<Element>>, M: seq<nat>)
    reads buckets
  {
    && buckets.Length == |B| == |M|
    && forall b {:trigger buckets[b]} {:trigger B[b]} :: 0 <= b < |B| ==>
      buckets[b] == Bucket(NodeAt(B[b], 0), |B[b]|, M[b])
  }

  ghost predicate Sizes(t: Table)
    reads t
  {
    t.numBuckets == t.buckets.Length == Pow2(t.log2NumBuckets)
  }

  /** The hash function on elements. */
  ghost function OfKey(hash: Key -> nat): Hash<Element> {
    (e: Element) => hash(e.key)
  }

  ghost predicate Tagged(A: seq<Element>, t: Table, hash: Key -> nat)
    reads A
  {
    forall k {:trigger A[k]} :: 0 <= k < |A| ==> A[k].tbl == t && A[k].hashv == hash(A[k].key)
  }

  // ---------- Bucket chains ----------

  /** HASH_TO_BKT */
  method ToBkt(hashv: nat, numBuckets: nat, ghost log2: nat) returns (bkt: nat)
    requires numBuckets == Pow2(log2)
    ensures bkt == hashv % numBuckets
  {
    bkt := And(hashv, numBuckets - 1);
    AndMask(hashv, log2);
  }

  lemma PushedChains(hash: Key -> nat, B: seq<seq<Element>>, x: Element)
    requires B != []
    ensures var N := Pushed(OfKey(hash), B, x); var h := Home(OfKey(hash), x, |B|);
      |N| == |B| && N[h] == [x] + B[h] && forall b {:trigger N[b]} :: 0 <= b < |B| && b != h ==> N[b] == B[b]
  {
  }

  /** x, on no chain, is linked in at the head of its bucket and counted. */
  method PushHead(buckets: array<Bucket>, h: nat, x: Element, ghost hash: Key -> nat, ghost B: seq<seq<Element>>,
                  ghost M: seq<nat>)
    requires Sheet(buckets, B, M) && Chains(B) && AtHome(OfKey(hash), B) && h < |B| && h == Home(OfKey(hash), x, |B|)
    requires x !in NodesOf(B) && Distinct(B[h])
    modifies buckets, x`hhNext, x`hhPrev, NodesOf(B)`hhPrev
    ensures Sheet(buckets, Pushed(OfKey(hash), B, x), M) && Chains(Pushed(OfKey(hash), B, x))
  {
    hide Home, Pushed;
    ghost var N := Pushed(OfKey(hash), B, x);
    PushedChains(hash, B, x);
    var first := buckets[h].head;
    x.hhNext := first;
    x.hhPrev := null;
    if first != null {
      first.hhPrev := x;
    }
    buckets[h] := buckets[h].(head := x, count := buckets[h].count + 1);
    forall b | 0 <= b < |N| ensures Chain(N[b]) {
      assert old(Chain(B[b]));
      forall k | 0 <= k < |N[b]| ensures Hooked(N[b], k) {
        if b != h {
          assert old(Hooked(B[b], k)) && Home(OfKey(hash), B[b][k], |B|) == b;
        } else if k > 0 {
          assert old(Hooked(B[h], k - 1));
        }
      }
    }
  }

  // ---------- Expansion ----------

  lemma MultsPushed(hash: Key -> nat, N: seq<seq<Element>>, x: Element, I: nat)
    requires N != [] && 0 < I
    ensures var P := Pushed(OfKey(hash), N, x); var h := Home(OfKey(hash), x, |N|);
      && h < |N| == |P| && |P[h]| == |N[h]| + 1
      && Mults(N, I)[h] == Mult(|N[h]|, I) && Mults(P, I) == Mults(N, I)[h := Mult(|N[h]| + 1, I)]
      && Excess(P, I) == Excess(N, I) + (if |N[h]| + 1 > I then 1 else 0)
  {
    var h := Home(OfKey(hash), x, |N|);
    ExcessUpdate(N, h, [x] + N[h], I);
  }

  /** The body of the expansion's inner loop. */
  method Refile(buckets: array<Bucket>, x: Element, ideal: nat, nonideal: nat, ghost hash: Key -> nat,
                ghost N: seq<seq<Element>>, ghost log2: nat)
    returns (nonideal': nat)
    requires 0 < ideal && |N| == Pow2(log2) && Sheet(buckets, N, Mults(N, ideal)) && nonideal == Excess(N, ideal)
    requires Chains(N) && AtHome(OfKey(hash), N) && x !in NodesOf(N) && x.hashv == hash(x.key)
    requires forall b {:trigger N[b]} :: 0 <= b < |N| ==> Distinct(N[b])
    modifies buckets, x`hhNext, x`hhPrev, NodesOf(N)`hhPrev
    ensures var P := Pushed(OfKey(hash), N, x);
      Sheet(buckets, P, Mults(P, ideal)) && nonideal' == Excess(P, ideal) && Chains(P)
  {
    hide Pushed, Mults, Excess, AtHome, Pow2;
    ghost var P := Pushed(OfKey(hash), N, x);
    MultsPushed(hash, N, x, ideal);
    nonideal' := nonideal;
    var h := ToBkt(x.hashv, buckets.Length, log2);
    PushHead(buckets, h, x, hash, N, Mults(N, ideal));
    if buckets[h].count > ideal {
      nonideal' := nonideal' + 1;
      buckets[h] := buckets[h].(expandMult := buckets[h].count / ideal);
    }
  }

  /** The chains from bucket i on still have the links that expansion found. */
  ghost predicate Unread(B: seq<seq<Element>>, i: int)
    reads NodesOf(B)
  {
    forall b, k {:trigger B[b][k]} :: 0 <= i <= b < |B| && 0 <= k < |B[b]| ==> B[b][k].hhNext == NodeAt(B[b], k + 1)
  }

  /** The same of one chain from node j on. */
  ghost predicate UnreadFrom(s: seq<Element>, j: int)
    reads s
  {
    forall k {:trigger s[k]} :: 0 <= j <= k < |s| ==> s[k].hhNext == NodeAt(s, k + 1)
  }

  /** The first p elements that expansion reads are on the new chains, and the next is not. */
  lemma NextToRefile(hash: Key -> nat, F: seq<Element>, p: nat, n: nat)
    requires Distinct(F) && p < |F| && 0 < n
    ensures var N := Refiled(OfKey(hash), F[..p], n);
      && AtHome(OfKey(hash), N) && F[p] !in NodesOf(N)
      && (forall b {:trigger N[b]} :: 0 <= b < |N| ==> Distinct(N[b]))
      && Refiled(OfKey(hash), F[..p + 1], n) == Pushed(OfKey(hash), N, F[p])
  {
    hide AtHome, Pushed, Flat;
    var P := F[..p];
    var N := Refiled(OfKey(hash), P, n);
    assert Distinct(P) && F[..p + 1][..p] == P;
    RefilingFiles(OfKey(hash), P, n);
    forall b {:trigger N[b]} | 0 <= b < |N| ensures Distinct(N[b]) { ChainsDistinct(OfKey(hash), P, N, b); }
    FiledNodes(OfKey(hash), P, N, F[p]);
    assert F[p] !in P;
  }

  lemma FiledNodes(h: Hash<Element>, A: seq<Element>, B: seq<seq<Element>>, x: Element)
    requires Filed(h, A, B)
    ensures x in NodesOf(B) <==> x in A
  {
    FiledIn(h, A, B, x);
    if x in A {
      var b := Home(h, x, |B|);
      var k :| 0 <= k < |B[b]| && B[b][k] == x;
    }
    if x in NodesOf(B) {
      var b, k :| 0 <= b < |B| && 0 <= k < |B[b]| && B[b][k] == x;
      FlatHolds(B, b, x);
      assert x in multiset(Flat(B)) && x in multiset(A);
    }
  }

  /** Where element j of chain i stands in the order in which expansion reads. */
  lemma ReadOrder(B: seq<seq<Element>>, i: nat, j: nat)
    requires i < |B| && j <= |B[i]|
    ensures var p := |Flat(B[..i])| + j;
      && p <= |Flat(B)| && (j < |B[i]| ==> p < |Flat(B)| && Flat(B)[p] == B[i][j])
      && |Flat(B[..i + 1])| == |Flat(B[..i])| + |B[i]|
  {
    FlatParts(B, i);
  }

  /** Elements of different places on the chains are different. */
  lemma PlacesApart(h: Hash<Element>, A: seq<Element>, B: seq<seq<Element>>, i: nat, j: nat)
    requires Filed(h, A, B) && Distinct(A) && i < |B| && j < |B[i]|
    ensures forall b, k {:trigger B[b][k]} :: 0 <= b < |B| && 0 <= k < |B[b]| && (b != i || k != j) ==>
      B[b][k] != B[i][j]
  {
    forall b, k {:trigger B[b][k]} | 0 <= b < |B| && 0 <= k < |B[b]| && (b != i || k != j) ensures B[b][k] != B[i][j] {
      if b == i {
        ChainsDistinct(h, A, B, i);
      } else {
        assert Home(h, B[b][k], |B|) == b && Home(h, B[i][j], |B|) == i;
      }
    }
  }

  lemma RefiledNodes(hash: Key -> nat, A: seq<Element>, B: seq<seq<Element>>, p: nat, n: nat)
    requires Filed(OfKey(hash), A, B) && p <= |Flat(B)| && 0 < n
    ensures forall x :: x in NodesOf(Refiled(OfKey(hash), Flat(B)[..p], n)) ==> x in A
    ensures forall x :: x in NodesOf(B) <==> x in A
  {
    hide Filed, Flat;
    forall x ensures x in NodesOf(B) <==> x in A { FiledNodes(OfKey(hash), A, B, x); }
    var P := Flat(B)[..p];
    RefilingFiles(OfKey(hash), P, n);
    forall x | x in NodesOf(Refiled(OfKey(hash), P, n)) ensures x in A {
      FiledNodes(OfKey(hash), P, Refiled(OfKey(hash), P, n), x);
      FlatInFiled(OfKey(hash), A, B, x);
    }
  }

  lemma FlatInFiled(h: Hash<Element>, A: seq<Element>, B: seq<seq<Element>>, x: Element)
    requires Filed(h, A, B) && x in Flat(B)
    ensures x in A
  {
    assert x in multiset(Flat(B)) && x in multiset(A);
  }

  /** The first p elements that expansion reads are on the new chains, counted. */
  ghost predicate Refiling(buckets: array<Bucket>, ideal: nat, nonideal: nat, hash: Key -> nat, B: seq<seq<Element>>,
                           p: nat, log2: nat)
    requires 0 < ideal && p <= |Flat(B)|
    reads buckets, NodesOf(Refiled(OfKey(hash), Flat(B)[..p], Pow2(log2)))
  {
    var N := Refiled(OfKey(hash), Flat(B)[..p], Pow2(log2));
    Sheet(buckets, N, Mults(N, ideal)) && nonideal == Excess(N, ideal) && Chains(N)
  }

  method RefileNext(buckets: array<Bucket>, x: Element, ideal: nat, nonideal: nat, ghost hash: Key -> nat,
                    ghost A: seq<Element>, ghost B: seq<seq<Element>>, ghost i: nat, ghost j: nat, ghost log2: nat)
    returns (nonideal': nat)
    requires 0 < ideal && Filed(OfKey(hash), A, B) && Distinct(A) && x.hashv == hash(x.key) && i < |B| && j < |B[i]|
    requires x == B[i][j]
    requires |Flat(B[..i])| + j < |Flat(B)| && Refiling(buckets, ideal, nonideal, hash, B, |Flat(B[..i])| + j, log2)
    requires Unread(B, i + 1) && UnreadFrom(B[i], j)
    modifies buckets, x`hhNext, A`hhPrev
    ensures Refiling(buckets, ideal, nonideal', hash, B, |Flat(B[..i])| + j + 1, log2)
    ensures Unread(B, i + 1) && UnreadFrom(B[i], j + 1)
  {
    hide Filed, Refiled, Flat, Mults, Excess, Sheet, Chains, Pushed, AtHome, Chain, Pow2, NodesOf;
    ghost var p := |Flat(B[..i])| + j;
    ReadOrder(B, i, j);
    FlatDistinct(OfKey(hash), A, B);
    NextToRefile(hash, Flat(B), p, Pow2(log2));
    RefiledNodes(hash, A, B, p, Pow2(log2));
    PlacesApart(OfKey(hash), A, B, i, j);
    FlatHolds(B, i, x);
    FlatInFiled(OfKey(hash), A, B, x);
    nonideal' := Refile(buckets, x, ideal, nonideal, hash, Refiled(OfKey(hash), Flat(B)[..p], Pow2(log2)), log2);
  }

  lemma ChainUnread(B: seq<seq<Element>>, i: nat)
    requires Unread(B, i) && i < |B|
    ensures Unread(B, i + 1) && UnreadFrom(B[i], 0)
  {
    forall k {:trigger B[i][k]} | 0 <= k < |B[i]| ensures B[i][k].hhNext == NodeAt(B[i], k + 1) { }
  }

  lemma NextUnread(s: seq<Element>, j: nat)
    requires UnreadFrom(s, j) && j < |s|
    ensures s[j].hhNext == NodeAt(s, j + 1)
  {
  }

  /** The inner loop of the expansion: chain i is moved to the new buckets. */
  method RefileChain(first: Element?, buckets: array<Bucket>, ideal: nat, nonideal: nat, ghost t: Table,
                     ghost hash: Key -> nat,
                     ghost A: seq<Element>, ghost B: seq<seq<Element>>, ghost i: nat, ghost log2: nat)
    returns (nonideal': nat)
    requires 0 < ideal && Filed(OfKey(hash), A, B) && Distinct(A) && Tagged(A, t, hash) && i < |B|
    requires first == NodeAt(B[i], 0)
    requires |Flat(B[..i])| <= |Flat(B)| && Refiling(buckets, ideal, nonideal, hash, B, |Flat(B[..i])|, log2)
    requires Unread(B, i)
    modifies buckets, A`hhNext, A`hhPrev
    ensures |Flat(B[..i + 1])| <= |Flat(B)| && Refiling(buckets, ideal, nonideal', hash, B, |Flat(B[..i + 1])|, log2)
    ensures Unread(B, i + 1)
  {
    hide Filed, Flat, Refiling, NodesOf, Distinct, Unread, UnreadFrom;
    var thh := first;
    nonideal' := nonideal;
    ghost var j := 0;
    ReadOrder(B, i, 0);
    ChainUnread(B, i);
    while thh != null
      invariant 0 <= j <= |B[i]| && thh == NodeAt(B[i], j)
      invariant |Flat(B[..i])| + j <= |Flat(B)|
      invariant Refiling(buckets, ideal, nonideal', hash, B, |Flat(B[..i])| + j, log2)
      invariant Unread(B, i + 1) && UnreadFrom(B[i], j)
      decreases |B[i]| - j
    {
      ReadOrder(B, i, j);
      ReadOrder(B, i, j + 1);
      FlatHolds(B, i, thh);
      FlatInFiled(OfKey(hash), A, B, thh);
      NextUnread(B[i], j);
      var next := thh.hhNext;
      nonideal' := RefileNext(buckets, thh, ideal, nonideal', hash, A, B, i, j, log2);
      thh := next;
      j := j + 1;
    }
    ReadOrder(B, i, j);
  }

  lemma ChainsUnread(hash: Key -> nat, B: seq<seq<Element>>, log2: nat)
    requires Chains(B)
    ensures Unread(B, 0) && Flat(B[..0]) == [] && Flat(B)[..0] == []
    ensures B != [] ==> Refiled(OfKey(hash), [], Pow2(log2)) == seq(Pow2(log2), _ => [])
  {
    forall b, k {:trigger B[b][k]} | 0 <= b < |B| && 0 <= k < |B[b]| ensures B[b][k].hhNext == NodeAt(B[b], k + 1) {
      assert Chain(B[b]) && Hooked(B[b], k);
    }
  }

  /** The new buckets, zeroed. */
  method NewBuckets(n: nat, ideal: nat, ghost hash: Key -> nat, ghost B: seq<seq<Element>>, ghost log2: nat)
    returns (buckets: array<Bucket>)
    requires n == Pow2(log2) && 0 < ideal
    ensures fresh(buckets) && buckets.Length == n && Refiling(buckets, ideal, 0, hash, B, 0, log2)
  {
    hide Pow2;
    buckets := new Bucket[n](_ => Bucket(null, 0, 0));
    ghost var N := Refiled(OfKey(hash), Flat(B)[..0], n);
    assert Flat(B)[..0] == [];
    ExcessNothing(N, ideal);
  }

  lemma Refiled2(buckets: array<Bucket>, ideal: nat, nonideal: nat, hash: Key -> nat, B: seq<seq<Element>>, log2: nat)
    requires 0 < ideal && Refiling(buckets, ideal, nonideal, hash, B, |Flat(B)|, log2)
    ensures var N := Refiled(OfKey(hash), Flat(B), Pow2(log2));
      Sheet(buckets, N, Mults(N, ideal)) && nonideal == Excess(N, ideal) && Chains(N)
  {
    assert Flat(B)[..|Flat(B)|] == Flat(B);
  }

  /** The outer loop of the expansion. */
  method RefileAll(buckets: array<Bucket>, new_: array<Bucket>, ideal: nat, ghost t: Table, ghost hash: Key -> nat,
                   ghost A: seq<Element>, ghost B: seq<seq<Element>>, ghost M: seq<nat>, ghost log2: nat)
    returns (nonideal: nat)
    requires 0 < ideal && Filed(OfKey(hash), A, B) && Distinct(A) && Tagged(A, t, hash) && Chains(B)
    requires Sheet(buckets, B, M)
    requires buckets != new_ && Refiling(new_, ideal, 0, hash, B, 0, log2)
    modifies new_, A`hhNext, A`hhPrev
    ensures var N := Refiled(OfKey(hash), Flat(B), Pow2(log2));
      Sheet(new_, N, Mults(N, ideal)) && nonideal == Excess(N, ideal) && Chains(N)
  {
    hide Filed, Flat, Refiling, NodesOf, Distinct, Refiled, Unread, Chains, Pow2;
    ChainsUnread(hash, B, log2);
    nonideal := 0;
    for i := 0 to buckets.Length
      invariant |Flat(B[..i])| <= |Flat(B)| && Refiling(new_, ideal, nonideal, hash, B, |Flat(B[..i])|, log2)
      invariant Unread(B, i) && Sheet(buckets, B, M)
    {
      nonideal := RefileChain(buckets[i].head, new_, ideal, nonideal, t, hash, A, B, i, log2);
    }
    assert B[..|B|] == B;
    Refiled2(new_, ideal, nonideal, hash, B, log2);
  }

  /** The table's own fields and the chains, for the elements A. */
  ghost predicate Indexed(t: Table, hash: Key -> nat, A: seq<Element>, B: seq<seq<Element>>, M: seq<nat>)
    reads t, t.buckets, A, NodesOf(B)
  {
    && Sizes(t) && Sheet(t.buckets, B, M) && Chains(B) && Filed(OfKey(hash), A, B) && Tagged(A, t, hash)
    && t.numItems == |A| && t.noexpand == (t.ineffExpands > 1)
  }

  /** HASH_EXPAND_BUCKETS: twice the buckets, every element refiled, the ideal chain length of the new
      table and the number of elements beyond it computed, and expansion inhibited when two in a row
      have left more than half of the elements beyond it. */
  method ExpandBuckets(t: Table, ghost hash: Key -> nat, ghost A: seq<Element>, ghost B: seq<seq<Element>>,
                       ghost M: seq<nat>)
    returns (ghost N: seq<seq<Element>>)
    requires Indexed(t, hash, A, B, M) && Distinct(A) && A != [] && !t.noexpand
    modifies t, A`hhNext, A`hhPrev
    ensures 0 < t.idealChainMaxlen && N == Refiled(OfKey(hash), Flat(B), 2 * |B|)
    ensures Indexed(t, hash, A, N, Mults(N, t.idealChainMaxlen)) && fresh(t.buckets)
    ensures t.log2NumBuckets == old(t.log2NumBuckets) + 1 && t.numItems == old(t.numItems) && t.tail == old(t.tail)
    ensures IsCeiling(|A|, |N|, t.idealChainMaxlen) && t.nonidealItems == Excess(N, t.idealChainMaxlen)
    ensures t.ineffExpands == if t.nonidealItems > |A| / 2 then old(t.ineffExpands) + 1 else 0
    ensures t.noexpand <==> t.ineffExpands >= 2
    ensures forall b {:trigger t.buckets[b]} :: 0 <= b < t.numBuckets ==>
      var c, e, I := t.buckets[b].count, t.buckets[b].expandMult, t.idealChainMaxlen;
      if c <= I then e == 0 else e * I <= c < (e + 1) * I
    ensures t.numBuckets == |N| == 2 * |B| && t.nonidealItems == |Flat(Behind(N, t.idealChainMaxlen))|
    ensures forall e {:trigger e in A} :: e in A ==> e in N[hash(e.key) % |N|]
  {
    hide Filed, Behind, Flat, Refiling, Distinct, Refiled, Pow2, Excess, Mults, IsCeiling, IdealChain, Shr, Chain,
      NodeAt, Hooked, Unread, UnreadFrom, AtHome, Home, OfKey, Pushed, Over, Mult, Chains;
    ghost var log2 := t.log2NumBuckets;
    var ideal := IdealChain(t.numItems, t.numBuckets, t.log2NumBuckets);
    IdealIsCeiling(t.numItems, t.numBuckets, t.log2NumBuckets);
    PowStep(log2);
    HalfIs(t.numItems);
    N := Refiled(OfKey(hash), Flat(B), 2 * |B|);
    var newBuckets := NewBuckets(2 * t.numBuckets, ideal, hash, B, log2 + 1);
    KeepsChains(B);
    var nonideal := RefileAll(t.buckets, newBuckets, ideal, t, hash, A, B, M, log2 + 1);
    ExpandFiles(OfKey(hash), A, B);
    label Done:
    Install(t, newBuckets, ideal, nonideal);
    KeepsChains@Done(N);
    ExcessIsBehind(N, ideal);
    MultsBetween(t.buckets, N, ideal);
    AllHome(hash, A, N);
  }

  lemma MultsBetween(buckets: array<Bucket>, N: seq<seq<Element>>, I: nat)
    requires 0 < I && Sheet(buckets, N, Mults(N, I))
    ensures forall b {:trigger buckets[b]} :: 0 <= b < buckets.Length ==>
      var c, e := buckets[b].count, buckets[b].expandMult;
      if c <= I then e == 0 else e * I <= c < (e + 1) * I
  {
    hide Mult;
    forall b {:trigger buckets[b]} | 0 <= b < buckets.Length
      ensures var c, e := buckets[b].count, buckets[b].expandMult;
        if c <= I then e == 0 else e * I <= c < (e + 1) * I
    {
      assert N[b] == N[b];
      MultBetween(|N[b]|, I);
    }
  }

  lemma AllHome(hash: Key -> nat, A: seq<Element>, N: seq<seq<Element>>)
    requires Filed(OfKey(hash), A, N)
    ensures N != [] && forall e {:trigger e in A} :: e in A ==> e in N[hash(e.key) % |N|]
  {
    FiledNonempty(OfKey(hash), A, N);
    forall e {:trigger e in A} | e in A ensures e in N[hash(e.key) % |N|] { FiledIn(OfKey(hash), A, N, e); }
  }

  lemma FiledNonempty(h: Hash<Element>, A: seq<Element>, N: seq<seq<Element>>)
    requires Filed(h, A, N)
    ensures N != []
  {
  }

  lemma HalfIs(n: nat)
    ensures Shr(n, 1) == n / 2
  {
    assert Shr(n, 1) == Shr(n / 2, 0);
  }

  /** The new buckets replace the old ones, and whether the expansion paid is recorded. */
  method Install(t: Table, newBuckets: array<Bucket>, ideal: nat, nonideal: nat)
    modifies t
    ensures t.numBuckets == 2 * old(t.numBuckets) && t.log2NumBuckets == old(t.log2NumBuckets) + 1
    ensures t.buckets == newBuckets && t.idealChainMaxlen == ideal && t.nonidealItems == nonideal
    ensures t.ineffExpands == if nonideal > Shr(t.numItems, 1) then old(t.ineffExpands) + 1 else 0
    ensures t.noexpand == (old(t.noexpand) || t.ineffExpands > 1)
    ensures t.numItems == old(t.numItems) && t.tail == old(t.tail)
  {
    t.idealChainMaxlen, t.nonidealItems := ideal, nonideal;
    t.numBuckets := t.numBuckets * 2;
    t.log2NumBuckets := t.log2NumBuckets + 1;
    t.buckets := newBuckets;
    t.ineffExpands := if t.nonidealItems > Shr(t.numItems, 1) then t.ineffExpands + 1 else 0;
    if t.ineffExpands > 1 {
      t.noexpand := true;
    }
  }

  // ---------- Adding to a bucket ----------

  /** The table's chains hold A, and stay short while expansion is not inhibited. */
  ghost predicate Holds(t: Table, hash: Key -> nat, A: seq<Element>, B: seq<seq<Element>>, M: seq<nat>)
    reads t, t.buckets, A, NodesOf(B)
  {
    Indexed(t, hash, A, B, M) && Bounded(B, M, t.noexpand)
  }

  lemma PushFacts(hash: Key -> nat, A: seq<Element>, B: seq<seq<Element>>, x: Element)
    requires Filed(OfKey(hash), A, B) && Distinct(A) && x !in A
    ensures AtHome(OfKey(hash), B) && x !in NodesOf(B) && Distinct(B[Home(OfKey(hash), x, |B|)])
    ensures Filed(OfKey(hash), A + [x], Pushed(OfKey(hash), B, x)) && Distinct(A + [x])
    ensures forall y :: y in NodesOf(B) <==> y in A
    ensures |Flat(Pushed(OfKey(hash), B, x))| == |A| + 1
  {
    FiledNodes(OfKey(hash), A, B, x);
    ChainsDistinct(OfKey(hash), A, B, Home(OfKey(hash), x, |B|));
    PushFiles(OfKey(hash), A, B, x);
    FiledSize(OfKey(hash), A + [x], Pushed(OfKey(hash), B, x));
    forall y ensures y in NodesOf(B) <==> y in A { FiledNodes(OfKey(hash), A, B, y); }
  }

  /** The table before x is filed: x is counted, and not on a chain. */
  ghost predicate Ready(t: Table, hash: Key -> nat, A: seq<Element>, B: seq<seq<Element>>, M: seq<nat>)
    reads t, t.buckets, A, NodesOf(B)
  {
    && Sizes(t) && Sheet(t.buckets, B, M) && Chains(B) && Filed(OfKey(hash), A, B) && Tagged(A, t, hash)
    && t.numItems == |A| + 1 && t.noexpand == (t.ineffExpands > 1) && Bounded(B, M, t.noexpand)
  }

  /** The part of HASH_ADD_TO_BKT before its test. */
  method PushElement(t: Table, h: nat, x: Element, ghost hash: Key -> nat, ghost A: seq<Element>,
                     ghost B: seq<seq<Element>>, ghost M: seq<nat>)
    requires Ready(t, hash, A, B, M)
    requires Distinct(A) && x !in A && h < |B| && h == Home(OfKey(hash), x, |B|) && x.tbl == t && x.hashv == hash(x.key)
    modifies t.buckets, x`hhNext, x`hhPrev, A`hhPrev
    ensures Indexed(t, hash, A + [x], Pushed(OfKey(hash), B, x), M)
  {
    hide Filed, Flat, Distinct, Pow2, Pushed, Home, AtHome, Chain;
    PushFacts(hash, A, B, x);
    PushedChains(hash, B, x);
    PushHead(t.buckets, h, x, hash, B, M);
  }

  /** HASH_ADD_TO_BKT */
  method AddToBkt(t: Table, h: nat, x: Element, ghost hash: Key -> nat, ghost A: seq<Element>,
                  ghost B: seq<seq<Element>>, ghost M: seq<nat>)
    returns (ghost N: seq<seq<Element>>, ghost M': seq<nat>)
    requires Ready(t, hash, A, B, M)
    requires Distinct(A) && x !in A && h < |B| && h == Home(OfKey(hash), x, |B|) && x.tbl == t && x.hashv == hash(x.key)
    modifies t, t.buckets, A`hhNext, A`hhPrev, x`hhNext, x`hhPrev
    ensures Holds(t, hash, A + [x], N, M') && t.tail == old(t.tail)
    ensures t.buckets == old(t.buckets) || fresh(t.buckets)
    ensures var P := Pushed(OfKey(hash), B, x);
      if |B[h]| + 1 >= (M[h] + 1) * 10 && !old(t.noexpand)
      then N == Refiled(OfKey(hash), Flat(P), 2 * |B|) && 0 < t.idealChainMaxlen <= 10
      else N == B[h := [x] + B[h]] && M' == M && t.buckets == old(t.buckets)
  {
    hide Filed, Flat, Distinct, Pow2, Pushed, AtHome, Chains, Refiled, Excess, Mults, Home, IsCeiling, Bounded, Behind;
    ghost var P := Pushed(OfKey(hash), B, x);
    PushFacts(hash, A, B, x);
    PushedChains(hash, B, x);
    PushElement(t, h, x, hash, A, B, M);
    if t.buckets[h].count >= (t.buckets[h].expandMult + 1) * CAPACITY_THRESH && !t.noexpand {
      N := ExpandBuckets(t, hash, A + [x], P, M);
      M' := Mults(N, t.idealChainMaxlen);
      FiledSize(OfKey(hash), A + [x], P);
      FiledSize(OfKey(hash), A + [x], N);
      PushedIdeal(OfKey(hash), B, M, x, |A| + 1, t.idealChainMaxlen);
      ExpandBounds(N, t.idealChainMaxlen, t.noexpand);
    } else {
      N, M' := P, M;
      assert P == B[h := [x] + B[h]];
      PushBounds(OfKey(hash), B, M, x, t.noexpand);
    }
  }

  // ---------- Taking off a bucket, looking in a bucket ----------

  lemma DroppedChains(B: seq<seq<Element>>, h: nat, k: nat)
    requires h < |B| && k < |B[h]|
    ensures var N := B[h := Without(B[h], k)];
      && |N| == |B| && |N[h]| == |B[h]| - 1
      && (forall b {:trigger N[b]} :: 0 <= b < |B| && b != h ==> N[b] == B[b])
      && (forall j {:trigger N[h][j]} :: 0 <= j < |N[h]| ==> N[h][j] == B[h][if j < k then j else j + 1])
  {
  }

  /** HASH_DEL_IN_BKT */
  method DelInBkt(buckets: array<Bucket>, h: nat, x: Element, ghost hash: Key -> nat, ghost B: seq<seq<Element>>,
                  ghost M: seq<nat>, ghost k: nat)
    requires Sheet(buckets, B, M) && Chains(B) && AtHome(OfKey(hash), B) && h < |B| && k < |B[h]| && x == B[h][k]
    requires Distinct(B[h])
    modifies buckets, NodesOf(B)`hhNext, NodesOf(B)`hhPrev
    ensures Sheet(buckets, B[h := Without(B[h], k)], M) && Chains(B[h := Without(B[h], k)])
  {
    hide Home, Without;
    DroppedChains(B, h, k);
    ghost var N := B[h := Without(B[h], k)];
    assert Chain(B[h]) && Hooked(B[h], k);
    buckets[h] := buckets[h].(count := buckets[h].count - 1);
    if buckets[h].head == x {
      buckets[h] := buckets[h].(head := x.hhNext);
    }
    if x.hhPrev != null {
      x.hhPrev.hhNext := x.hhNext;
    }
    if x.hhNext != null {
      x.hhNext.hhPrev := x.hhPrev;
    }
    forall b | 0 <= b < |N| ensures Chain(N[b]) {
      assert old(Chain(B[b]));
      forall j | 0 <= j < |N[b]| ensures Hooked(N[b], j) {
        if b != h {
          assert old(Hooked(B[b], j)) && Home(OfKey(hash), B[b][j], |B|) == b;
        } else {
          assert old(Hooked(B[h], if j < k then j else j + 1));
        }
      }
    }
  }

  /** HASH_FIND_IN_BKT: keys are compared by length and then by content. */
  method FindInBkt(first: Element?, key: Key, ghost s: seq<Element>) returns (out: Element?)
    requires Chain(s) && first == NodeAt(s, 0)
    ensures out != null ==> out in s && out.key == key
    ensures out == null ==> forall j {:trigger s[j]} :: 0 <= j < |s| ==> s[j].key != key
  {
    out := first;
    ghost var k := 0;
    while out != null
      invariant 0 <= k <= |s| && out == NodeAt(s, k)
      invariant forall j {:trigger s[j]} :: 0 <= j < k ==> s[j].key != key
      decreases |s| - k
    {
      if |out.key| == |key| {
        if out.key == key {
          break;
        }
      }
      assert Hooked(s, k);
      out := out.hhNext;
      k := k + 1;
    }
  }

  // ---------- The application list ----------

  ghost predicate Joined(A: seq<Element>, k: int)
    requires 0 <= k < |A|
    reads A
  {
    A[k].next == NodeAt(A, k + 1) && A[k].prev == NodeAt(A, k - 1)
  }

  ghost predicate AppList(A: seq<Element>)
    reads A
  {
    forall k {:trigger Joined(A, k)} :: 0 <= k < |A| ==> Joined(A, k)
  }

  /** Keys, and so elements, appear once. */
  ghost predicate UniqueKeys(A: seq<Element>) {
    forall i, j {:trigger A[i], A[j]} :: 0 <= i < j < |A| ==> A[i].key != A[j].key
  }

  /** What does not touch bucket links or tags leaves the table as it is. */
  twostate lemma KeepsChains(B: seq<seq<Element>>)
    requires old(Chains(B)) && forall e {:trigger e.hhNext} {:trigger e.hhPrev} :: e in NodesOf(B) ==>
      e.hhNext == old(e.hhNext) && e.hhPrev == old(e.hhPrev)
    ensures Chains(B)
  {
    forall b | 0 <= b < |B| ensures Chain(B[b]) {
      assert old(Chain(B[b]));
      forall k | 0 <= k < |B[b]| ensures Hooked(B[b], k) {
        assert old(Hooked(B[b], k)) && B[b][k] in NodesOf(B);
      }
    }
  }

  twostate lemma KeepsAppList(A: seq<Element>)
    requires old(AppList(A)) && forall k {:trigger A[k]} :: 0 <= k < |A| ==>
      A[k].next == old(A[k].next) && A[k].prev == old(A[k].prev)
    ensures AppList(A)
  {
    forall k | 0 <= k < |A| ensures Joined(A, k) {
      assert old(Joined(A, k));
    }
  }

  /** x, after the tail. */
  method LinkLast(x: Element, last: Element, ghost A: seq<Element>)
    requires AppList(A) && A != [] && last == A[|A| - 1] && Distinct(A) && x !in A && x.next == null
    modifies x`prev, last`next
    ensures AppList(A + [x])
  {
    last.next := x;
    x.prev := last;
    ghost var C := A + [x];
    forall k | 0 <= k < |C| ensures Joined(C, k) {
      if k < |A| { assert old(Joined(A, k)); }
    }
  }

  /** x leaves the application list, which has another element. */
  method Unlink(x: Element, ghost A: seq<Element>, ghost i: nat)
    requires AppList(A) && Distinct(A) && i < |A| && x == A[i]
    modifies A`next, A`prev
    ensures AppList(Without(A, i))
    ensures x.next == old(x.next) && x.prev == old(x.prev)
  {
    assert Joined(A, i);
    if x.prev != null {
      x.prev.next := x.next;
    }
    if x.next != null {
      x.next.prev := x.prev;
    }
    ghost var C := Without(A, i);
    forall k | 0 <= k < |C| ensures Joined(C, k) {
      assert old(Joined(A, if k < i then k else k + 1));
    }
  }

  // ---------- HASH_ADD_KEYPTR before HASH_ADD_TO_BKT ----------

  lemma NoBuckets(hash: Key -> nat, B: seq<seq<Element>>, M: seq<nat>)
    requires B == seq(INITIAL_NUM_BUCKETS, _ => []) && M == seq(INITIAL_NUM_BUCKETS, _ => 0)
    ensures Filed(OfKey(hash), [], B) && Bounded(B, M, false) && NodesOf(B) == {}
  {
    NothingFiled<Element>(OfKey(hash), B);
    RoomsAtFirst(B, M);
  }

  /** x starts the list and the table. */
  method EnlistFirst(x: Element, ghost hash: Key -> nat)
    returns (t: Table, ghost B: seq<seq<Element>>, ghost M: seq<nat>)
    modifies x
    ensures fresh(t) && fresh(t.buckets) && t.tail == x && x.tbl == t && AppList([x]) && Ready(t, hash, [], B, M)
    ensures NodesOf(B) == {}
  {
    hide Bounded, Filed;
    x.next := null;
    x.prev := null;
    t := new Table(x);
    x.tbl := t;
    t.numItems := t.numItems + 1;
    B, M := seq(INITIAL_NUM_BUCKETS, _ => []), seq(INITIAL_NUM_BUCKETS, _ => 0);
    NoBuckets(hash, B, M);
  }

  /** x goes after the tail. */
  method EnlistLast(x: Element, t: Table, ghost hash: Key -> nat, ghost A: seq<Element>, ghost B: seq<seq<Element>>,
                    ghost M: seq<nat>)
    requires Holds(t, hash, A, B, M) && AppList(A) && A != [] && t.tail == A[|A| - 1] && Distinct(A) && x !in A
    modifies x`next, x`prev, x`tbl, A`next, t`tail, t`numItems
    ensures t.tail == x && x.tbl == t && AppList(A + [x]) && Ready(t, hash, A, B, M)
  {
    hide Bounded, Filed, Chains, Pow2, Joined, AppList;
    x.next := null;
    KeepsAppList(A);
    LinkLast(x, t.tail, A);
    label Linked:
    t.tail := x;
    t.numItems := t.numItems + 1;
    x.tbl := t;
    KeepsAppList@Linked(A + [x]);
    KeepsChains(B);
  }

  lemma NodesFiled(hash: Key -> nat, A: seq<Element>, B: seq<seq<Element>>)
    requires Filed(OfKey(hash), A, B)
    ensures forall e {:trigger e in NodesOf(B)} :: e in NodesOf(B) <==> e in A
  {
    forall e ensures e in NodesOf(B) <==> e in A { FiledNodes(OfKey(hash), A, B, e); }
  }

  /** The rest of HASH_ADD_KEYPTR: x is given its hash value and put in its bucket. */
  method FileNew(x: Element, t: Table, hash: Key -> nat, ghost A: seq<Element>, ghost B: seq<seq<Element>>,
                 ghost M: seq<nat>)
    returns (ghost N: seq<seq<Element>>, ghost M': seq<nat>)
    requires Ready(t, hash, A, B, M) && Distinct(A) && x !in A && x.tbl == t && AppList(A + [x])
    modifies t, t.buckets, A`hhNext, A`hhPrev, x`hhNext, x`hhPrev, x`hashv
    ensures Holds(t, hash, A + [x], N, M') && t.tail == old(t.tail) && AppList(A + [x])
    ensures t.buckets == old(t.buckets) || fresh(t.buckets)
    ensures forall e {:trigger e in NodesOf(N)} :: e in NodesOf(N) ==> e == x || e in A
  {
    hide Filed, Distinct, Pow2, Bounded, Chains, AppList, Refiled, Pushed, Flat, Joined, Hooked, Chain, NodeAt;
    x.hashv := hash(x.key);
    var bkt := ToBkt(x.hashv, t.numBuckets, t.log2NumBuckets);
    KeepsChains(B);
    N, M' := AddToBkt(t, bkt, x, hash, A, B, M);
    NodesFiled(hash, A + [x], N);
    KeepsAppList(A + [x]);
  }

  // ---------- HASH_DELETE of one element of several ----------

  lemma HomePlace(hash: Key -> nat, A: seq<Element>, B: seq<seq<Element>>, x: Element) returns (h: nat, k: nat)
    requires Filed(OfKey(hash), A, B) && Distinct(A) && x in A
    ensures h == hash(x.key) % |B| && h < |B| && k < |B[h]| && B[h][k] == x && Distinct(B[h]) && AtHome(OfKey(hash), B)
    ensures forall y {:trigger y in NodesOf(B)} {:trigger y in A} :: y in NodesOf(B) <==> y in A
  {
    FiledIn(OfKey(hash), A, B, x);
    h := Home(OfKey(hash), x, |B|);
    k :| 0 <= k < |B[h]| && B[h][k] == x;
    ChainsDistinct(OfKey(hash), A, B, h);
    forall y ensures y in NodesOf(B) <==> y in A { FiledNodes(OfKey(hash), A, B, y); }
  }

  lemma DropKeeps(hash: Key -> nat, A: seq<Element>, B: seq<seq<Element>>, M: seq<nat>, noexpand: bool, i: nat, h: nat,
                  k: nat)
    requires Filed(OfKey(hash), A, B) && Bounded(B, M, noexpand) && Distinct(A) && i < |A| && h < |B| && k < |B[h]|
    requires A[i] == B[h][k]
    ensures var N := B[h := Without(B[h], k)];
      && Filed(OfKey(hash), Without(A, i), N) && Bounded(N, M, noexpand)
      && (forall e {:trigger e in NodesOf(N)} :: e in NodesOf(N) ==> e in A) && |Without(A, i)| == |A| - 1
      && (forall j :: 0 <= j < |A| - 1 ==> Without(A, i)[j] == A[if j < i then j else j + 1])
  {
    DropFiles(OfKey(hash), A, B, i, h, k);
    DropBounds(B, M, h, k, noexpand);
    var N := B[h := Without(B[h], k)];
    NodesFiled(hash, Without(A, i), N);
    forall e {:trigger e in NodesOf(N)} | e in NodesOf(N) ensures e in A { assert e in Without(A, i); }
  }

  /** The second branch of HASH_DELETE up to its bucket: x leaves the application list. */
  method Delist(x: Element, t: Table, head: Element, ghost A: seq<Element>, ghost i: nat) returns (head': Element)
    requires AppList(A) && Distinct(A) && i < |A| && A[i] == x && |A| > 1 && head == A[0] && t.tail == A[|A| - 1]
    modifies t`tail, A`next, A`prev
    ensures var C := Without(A, i); AppList(C) && C != [] && head' == C[0] && t.tail == C[|C| - 1]
  {
    assert Joined(A, i);
    if x == t.tail {
      t.tail := x.prev;
    }
    head' := if x.prev != null then head else x.next;
    Unlink(x, A, i);
  }

  /** The rest of that branch: x leaves its bucket. */
  method Unfile(x: Element, t: Table, ghost hash: Key -> nat, ghost A: seq<Element>, ghost B: seq<seq<Element>>,
                ghost M: seq<nat>, ghost i: nat)
    returns (ghost N: seq<seq<Element>>)
    requires Holds(t, hash, A, B, M) && Distinct(A) && i < |A| && A[i] == x
    modifies t`numItems, t.buckets, A`hhNext, A`hhPrev
    ensures Holds(t, hash, Without(A, i), N, M)
    ensures forall e {:trigger e in NodesOf(N)} :: e in NodesOf(N) ==> e in A
  {
    hide Bounded, Filed, Pow2, Without, Distinct, AtHome, Chain, NodesOf;
    ghost var h, k := HomePlace(hash, A, B, x);
    DropKeeps(hash, A, B, M, t.noexpand, i, h, k);
    var bkt := ToBkt(x.hashv, t.numBuckets, t.log2NumBuckets);
    DelInBkt(t.buckets, bkt, x, hash, B, M, k);
    N := B[h := Without(B[h], k)];
    t.numItems := t.numItems - 1;
    assert Tagged(A, t, hash);
  }

  /** The second branch of HASH_DELETE. */
  method Remove(x: Element, t: Table, head: Element, ghost hash: Key -> nat, ghost A: seq<Element>,
                ghost B: seq<seq<Element>>, ghost M: seq<nat>, ghost i: nat)
    returns (head': Element, ghost C: seq<Element>, ghost N: seq<seq<Element>>)
    requires Holds(t, hash, A, B, M) && AppList(A) && Distinct(A) && i < |A| && A[i] == x && |A| > 1 && head == A[0]
    requires t.tail == A[|A| - 1]
    modifies t`tail, t`numItems, t.buckets, A`next, A`prev, A`hhNext, A`hhPrev
    ensures C == Without(A, i) && AppList(C) && C != [] && head' == C[0] && t.tail == C[|C| - 1]
    ensures Holds(t, hash, C, N, M)
    ensures forall e {:trigger e in NodesOf(N)} :: e in NodesOf(N) ==> e in A
  {
    hide Bounded, Filed, Pow2, Without, AppList, Distinct, Chains;
    C := Without(A, i);
    head' := Delist(x, t, head, A, i);
    KeepsChains(B);
    label Listed:
    N := Unfile(x, t, hash, A, B, M, i);
    KeepsAppList@Listed(Without(A, i));
  }
}
