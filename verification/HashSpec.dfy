/** What uthash's bucket chains hold, on values: where items are filed, how doubling the buckets
    refiles them, and why the chains stay short. */
module HashSpec {
  import opened Sequences
  import opened Bits

  const INITIAL_NUM_BUCKETS := 32
  const INITIAL_NUM_BUCKETS_LOG2 := 5
  const CAPACITY_THRESH := 10

  /** The hash function on an item's key. */
  type Hash<!X> = X -> nat

  // ---------- Chains ----------

  /** The chains end to end, in the order in which expansion reads them. */
  ghost function Flat<X>(B: seq<seq<X>>): seq<X> {
    if B == [] then [] else B[0] + Flat(B[1..])
  }

  lemma {:induction false} FlatParts<X>(B: seq<seq<X>>, b: nat)
    requires b < |B|
    ensures Flat(B) == Flat(B[..b]) + B[b] + Flat(B[b + 1..])
    ensures Flat(B[..b + 1]) == Flat(B[..b]) + B[b]
  {
    hide Flat;
    FlatFirst(B);
    FlatFirst(B[..b + 1]);
    if b == 0 {
      FlatNothing<X>();
      assert B[..0] == [] && B[..1][1..] == [];
    } else {
      var C := B[1..];
      FlatParts(C, b - 1);
      FlatFirst(B[..b]);
      Slid(B, b);
      Grouped(B[0], Flat(C[..b - 1]), B[b], Flat(C[b..]));
    }
  }

  lemma Slid<X>(B: seq<X>, b: nat)
    requires 0 < b < |B|
    ensures B[..b][1..] == B[1..][..b - 1] && B[1..][b..] == B[b + 1..] && B[..b + 1][1..] == B[1..][..b]
  {
  }

  lemma Grouped<X>(a: seq<X>, b: seq<X>, c: seq<X>, d: seq<X>)
    ensures a + (b + c + d) == (a + b) + c + d && a + (b + c) == (a + b) + c
  {
  }

  lemma FlatNothing<X>()
    ensures Flat<X>([]) == []
  {
  }

  lemma FlatFirst<X>(B: seq<seq<X>>)
    requires B != []
    ensures Flat(B) == B[0] + Flat(B[1..])
  {
  }

  /** Replacing one chain. */
  lemma FlatUpdate<X>(B: seq<seq<X>>, b: nat, s: seq<X>)
    requires b < |B|
    ensures Flat(B[b := s]) == Flat(B[..b]) + s + Flat(B[b + 1..])
  {
    var C := B[b := s];
    FlatParts(C, b);
    assert C[..b] == B[..b] && C[b + 1..] == B[b + 1..];
  }

  lemma {:induction false} FlatMember<X>(B: seq<seq<X>>, x: X)
    requires x in Flat(B)
    ensures exists b {:trigger B[b]} :: 0 <= b < |B| && x in B[b]
  {
    if x !in B[0] {
      FlatMember(B[1..], x);
      var b :| 0 <= b < |B[1..]| && x in B[1..][b];
      assert x in B[b + 1];
    }
  }

  lemma FlatHolds<X>(B: seq<seq<X>>, b: nat, x: X)
    requires b < |B| && x in B[b]
    ensures x in Flat(B)
  {
    FlatParts(B, b);
  }

  // ---------- Filing ----------

  /** The bucket of x among n. */
  function Home<X>(hash: Hash<X>, x: X, n: nat): nat
    requires 0 < n
  {
    hash(x) % n
  }

  /** Every item of A is on exactly one chain, once, and that chain is its home; no chain holds
      anything else. */
  ghost predicate Filed<X>(hash: Hash<X>, A: seq<X>, B: seq<seq<X>>) {
    && B != []
    && multiset(Flat(B)) == multiset(A)
    && AtHome(hash, B)
  }

  ghost predicate AtHome<X>(hash: Hash<X>, B: seq<seq<X>>) {
    B != [] && forall b, k {:trigger B[b][k]} :: 0 <= b < |B| && 0 <= k < |B[b]| ==> Home(hash, B[b][k], |B|) == b
  }

  lemma FiledIn<X>(hash: Hash<X>, A: seq<X>, B: seq<seq<X>>, x: X)
    requires Filed(hash, A, B)
    ensures B != [] && Home(hash, x, |B|) == hash(x) % |B|
    ensures x in A <==> x in B[hash(x) % |B|]
    ensures forall b {:trigger B[b]} :: 0 <= b < |B| && x in B[b] ==> b == hash(x) % |B|
  {
    assert x in A <==> x in multiset(A);
    assert x in Flat(B) <==> x in multiset(Flat(B));
    if x in A {
      FlatMember(B, x);
    }
    if x in B[Home(hash, x, |B|)] {
      FlatHolds(B, Home(hash, x, |B|), x);
    }
  }

  lemma DistinctMultiset<X>(s: seq<X>)
    ensures Distinct(s) <==> forall x {:trigger multiset(s)[x]} :: multiset(s)[x] <= 1
  {
    if Distinct(s) {
      forall x ensures multiset(s)[x] <= 1 { CountOnce(s, x); }
    } else {
      var i, j :| 0 <= i < j < |s| && s[i] == s[j];
      assert s == s[..j] + [s[j]] + s[j + 1..];
      assert s[i] in s[..j];
      assert multiset(s[..j])[s[i]] >= 1;
      assert multiset(s)[s[i]] == multiset(s[..j])[s[i]] + 1 + multiset(s[j + 1..])[s[i]];
    }
  }

  lemma {:induction false} CountOnce<X>(s: seq<X>, x: X)
    requires Distinct(s)
    ensures multiset(s)[x] <= 1
  {
    if s != [] {
      CountOnce(s[1..], x);
      assert s == [s[0]] + s[1..];
      assert multiset(s)[x] == multiset([s[0]])[x] + multiset(s[1..])[x];
      if x == s[0] { assert x !in s[1..]; }
    }
  }

  lemma FlatDistinct<X>(hash: Hash<X>, A: seq<X>, B: seq<seq<X>>)
    requires Filed(hash, A, B) && Distinct(A)
    ensures Distinct(Flat(B))
  {
    DistinctMultiset(A);
    DistinctMultiset(Flat(B));
  }

  lemma MiddleDistinct<X>(p: seq<X>, s: seq<X>, r: seq<X>)
    requires Distinct(p + s + r)
    ensures Distinct(s)
  {
    var w := p + s + r;
    forall i, j {:trigger s[i], s[j]} | 0 <= i < j < |s| ensures s[i] != s[j] {
      assert w[|p| + i] == s[i] && w[|p| + j] == s[j];
    }
  }

  lemma ChainsDistinct<X>(hash: Hash<X>, A: seq<X>, B: seq<seq<X>>, b: nat)
    requires Filed(hash, A, B) && Distinct(A) && b < |B|
    ensures Distinct(B[b])
  {
    hide Distinct, Filed;
    FlatDistinct(hash, A, B);
    FlatParts(B, b);
    MiddleDistinct(Flat(B[..b]), B[b], Flat(B[b + 1..]));
  }

  lemma FiledSize<X>(hash: Hash<X>, A: seq<X>, B: seq<seq<X>>)
    requires Filed(hash, A, B)
    ensures |Flat(B)| == |A|
  {
    assert |Flat(B)| == |multiset(Flat(B))| && |A| == |multiset(A)|;
  }

  lemma {:induction false} NothingFiled<X>(hash: Hash<X>, B: seq<seq<X>>)
    requires forall b {:trigger B[b]} :: 0 <= b < |B| ==> B[b] == []
    ensures Flat(B) == []
  {
    if B != [] { NothingFiled(hash, B[1..]); }
  }

  // ---------- One item more, one item less ----------

  ghost function Pushed<X>(hash: Hash<X>, B: seq<seq<X>>, x: X): seq<seq<X>>
    requires B != []
  {
    var h := Home(hash, x, |B|);
    B[h := [x] + B[h]]
  }

  lemma HomeUpdate<X>(hash: Hash<X>, B: seq<seq<X>>, h: nat, s: seq<X>)
    requires AtHome(hash, B) && h < |B| && forall x {:trigger x in s} :: x in s ==> Home(hash, x, |B|) == h
    ensures AtHome(hash, B[h := s])
  {
    var C := B[h := s];
    forall b, j {:trigger C[b][j]} | 0 <= b < |C| && 0 <= j < |C[b]| ensures Home(hash, C[b][j], |C|) == b {
      if b == h { assert C[b][j] in s; } else { assert C[b][j] == B[b][j]; }
    }
  }

  lemma HomeOf<X>(hash: Hash<X>, B: seq<seq<X>>, h: nat, x: X)
    requires AtHome(hash, B) && h < |B| && x in B[h]
    ensures Home(hash, x, |B|) == h
  {
  }

  lemma PushFiles<X>(hash: Hash<X>, A: seq<X>, B: seq<seq<X>>, x: X)
    requires Filed(hash, A, B)
    ensures Filed(hash, A + [x], Pushed(hash, B, x))
  {
    hide AtHome, Flat;
    var h := Home(hash, x, |B|);
    FlatParts(B, h);
    FlatUpdate(B, h, [x] + B[h]);
    forall y | y in [x] + B[h] ensures Home(hash, y, |B|) == h {
      if y != x { HomeOf(hash, B, h, y); }
    }
    HomeUpdate(hash, B, h, [x] + B[h]);
    assert multiset(Flat(Pushed(hash, B, x))) == multiset(Flat(B)) + multiset{x};
  }

  lemma WithoutMultiset<X>(s: seq<X>, k: nat)
    requires k < |s|
    ensures multiset(s) == multiset(Without(s, k)) + multiset{s[k]}
  {
    assert s == s[..k] + [s[k]] + s[k + 1..];
  }

  /** Taking an item off its chain and off the application list. */
  lemma DropFiles<X>(hash: Hash<X>, A: seq<X>, B: seq<seq<X>>, i: nat, h: nat, k: nat)
    requires Filed(hash, A, B) && i < |A| && h < |B| && k < |B[h]| && A[i] == B[h][k]
    ensures Filed(hash, Without(A, i), B[h := Without(B[h], k)])
  {
    hide AtHome, Flat;
    var C := B[h := Without(B[h], k)];
    FlatParts(B, h);
    FlatUpdate(B, h, Without(B[h], k));
    WithoutMultiset(A, i);
    WithoutMultiset(B[h], k);
    FlatDrop(Flat(B[..h]), B[h], Flat(B[h + 1..]), k);
    forall y | y in Without(B[h], k) ensures Home(hash, y, |B|) == h {
      assert y in B[h];
      HomeOf(hash, B, h, y);
    }
    HomeUpdate(hash, B, h, Without(B[h], k));
    OneLess(multiset(Flat(C)), multiset(Without(A, i)), A[i]);
    assert |C| == |B|;
  }

  lemma OneLess<X>(a: multiset<X>, b: multiset<X>, x: X)
    requires a + multiset{x} == b + multiset{x}
    ensures a == b
  {
    assert a == (a + multiset{x}) - multiset{x};
    assert b == (b + multiset{x}) - multiset{x};
  }

  lemma FlatDrop<X>(p: seq<X>, s: seq<X>, r: seq<X>, k: nat)
    requires k < |s|
    ensures multiset(p + s + r) == multiset(p + Without(s, k) + r) + multiset{s[k]}
  {
    WithoutMultiset(s, k);
  }

  // ---------- Doubling the buckets ----------

  /** The chains after the items of O, one after another, have each been put at the head of their
      home among n empty buckets. */
  ghost function Refiled<X>(hash: Hash<X>, O: seq<X>, n: nat): (N: seq<seq<X>>)
    requires 0 < n
    ensures |N| == n
  {
    if O == [] then seq(n, _ => []) else Pushed(hash, Refiled(hash, O[..|O| - 1], n), O[|O| - 1])
  }

  lemma {:induction false} RefilingFiles<X>(hash: Hash<X>, O: seq<X>, n: nat)
    requires 0 < n
    ensures Filed(hash, O, Refiled(hash, O, n))
  {
    hide Pushed, Flat;
    if O == [] {
      NothingFiled(hash, Refiled(hash, O, n));
    } else {
      var p := O[..|O| - 1];
      RefilingFiles(hash, p, n);
      PushFiles(hash, p, Refiled(hash, p, n), O[|O| - 1]);
      assert p + [O[|O| - 1]] == O;
    }
  }

  /** Expansion keeps every item exactly once, on its home chain among twice the buckets. */
  lemma ExpandFiles<X>(hash: Hash<X>, A: seq<X>, B: seq<seq<X>>)
    requires Filed(hash, A, B)
    ensures Filed(hash, A, Refiled(hash, Flat(B), 2 * |B|))
  {
    RefilingFiles(hash, Flat(B), 2 * |B|);
  }

  lemma PrecedesLast<X>(s: seq<X>, x: X, y: X)
    requires y in s
    ensures Precedes(s + [x], y, x)
  {
    var k :| 0 <= k < |s| && s[k] == y;
    assert (s + [x])[k] == y && (s + [x])[|s|] == x;
  }

  lemma PrecedesMore<X>(s: seq<X>, x: X, y: X, z: X)
    requires Precedes(s, y, z)
    ensures Precedes(s + [x], y, z)
  {
    var p, q :| 0 <= p < q < |s| && s[p] == y && s[q] == z;
    assert (s + [x])[p] == y && (s + [x])[q] == z;
  }

  /** What was read later stands nearer to the head of its new chain. */
  lemma {:induction false} RefilingReverses<X>(hash: Hash<X>, O: seq<X>, n: nat, c: nat, i: nat, j: nat)
    requires 0 < n && c < n && i < j < |Refiled(hash, O, n)[c]|
    ensures Precedes(O, Refiled(hash, O, n)[c][j], Refiled(hash, O, n)[c][i])
  {
    hide Precedes, Filed;
    var P, x := O[..|O| - 1], O[|O| - 1];
    var M := Refiled(hash, P, n);
    assert O == P + [x];
    if c == Home(hash, x, n) {
      if i == 0 {
        RefiledFrom(hash, P, n, c, j - 1);
        PrecedesLast(P, x, M[c][j - 1]);
      } else {
        RefilingReverses(hash, P, n, c, i - 1, j - 1);
        PrecedesMore(P, x, M[c][j - 1], M[c][i - 1]);
      }
    } else {
      RefilingReverses(hash, P, n, c, i, j);
      PrecedesMore(P, x, M[c][j], M[c][i]);
    }
  }

  lemma RefiledFrom<X>(hash: Hash<X>, O: seq<X>, n: nat, c: nat, k: nat)
    requires 0 < n && c < n && k < |Refiled(hash, O, n)[c]|
    ensures Refiled(hash, O, n)[c][k] in O
  {
    var N := Refiled(hash, O, n);
    RefilingFiles(hash, O, n);
    FlatHolds(N, c, N[c][k]);
    assert N[c][k] in multiset(Flat(N)) && N[c][k] in multiset(O);
  }

  /** An item of bucket b stays in b or moves to b + |B|. */
  lemma ExpandMoves<X>(hash: Hash<X>, A: seq<X>, B: seq<seq<X>>, x: X, b: nat)
    requires Filed(hash, A, B) && b < |B| && x in B[b]
    ensures var N := Refiled(hash, Flat(B), 2 * |B|); x in N[b] <==> x !in N[b + |B|]
    ensures var N := Refiled(hash, Flat(B), 2 * |B|); forall c {:trigger N[c]} :: 0 <= c < |N| && x in N[c] ==>
      c == b || c == b + |B|
  {
    var n, N := |B|, Refiled(hash, Flat(B), 2 * |B|);
    FiledIn(hash, A, B, x);
    ExpandFiles(hash, A, B);
    FiledIn(hash, A, N, x);
    FlatHolds(B, b, x);
    assert x in multiset(Flat(B)) && x in multiset(A);
    HomeDoubles(hash(x), n);
  }

  lemma HomeDoubles(h: nat, n: nat)
    requires 0 < n
    ensures h % (2 * n) == h % n || h % (2 * n) == h % n + n
  {
    var q, r := Quotient(h, 2 * n);
    Doubled(q, n);
    if r < n {
      Divides(h, n, 2 * q, r);
    } else {
      Divides(h, n, 2 * q + 1, r - n);
    }
  }

  // ---------- The ideal chain length ----------

  /** The source's ceil(n / b) for b = 2 * numBuckets: a shift, and a mask. */
  function IdealChain(n: nat, numBuckets: nat, log2NumBuckets: nat): nat
    requires 0 < numBuckets
  {
    Shr(n, log2NumBuckets + 1) + if And(n, numBuckets * 2 - 1) != 0 then 1 else 0
  }

  /** I is the least chain length with which b buckets hold n items. */
  predicate IsCeiling(n: nat, b: nat, I: nat) {
    n <= I * b && (I > 0 ==> (I - 1) * b < n)
  }

  lemma IdealIsCeiling(n: nat, numBuckets: nat, log2NumBuckets: nat)
    requires numBuckets == Pow2(log2NumBuckets)
    ensures IsCeiling(n, 2 * numBuckets, IdealChain(n, numBuckets, log2NumBuckets))
    ensures n > 0 ==> IdealChain(n, numBuckets, log2NumBuckets) > 0
  {
    var k, b := log2NumBuckets + 1, 2 * numBuckets;
    AndMask(n, k);
    ShrDivides(n, k);
    var q, r := n / b, n % b;
    CeilingOf(n, b, q, r);
  }

  lemma CeilingOf(n: nat, b: nat, q: nat, r: nat)
    requires 0 < b && q == n / b && r == n % b
    ensures IsCeiling(n, b, q + if r != 0 then 1 else 0)
    ensures n > 0 ==> q + (if r != 0 then 1 else 0) > 0
  {
    assert n == q * b + r;
    assert (q + 1) * b == q * b + b;
    assert q > 0 ==> (q - 1) * b == q * b - b;
  }

  // ---------- Items beyond the ideal ----------

  function Over(c: nat, I: nat): nat { if c > I then c - I else 0 }

  /** The items whose chain position exceeds I. */
  ghost function Excess<X>(N: seq<seq<X>>, I: nat): nat {
    if N == [] then 0 else Over(|N[0]|, I) + Excess(N[1..], I)
  }

  lemma {:induction false} ExcessUpdate<X>(N: seq<seq<X>>, b: nat, s: seq<X>, I: nat)
    requires b < |N|
    ensures Excess(N[b := s], I) + Over(|N[b]|, I) == Excess(N, I) + Over(|s|, I)
  {
    if b == 0 {
      assert N[0 := s][1..] == N[1..];
    } else {
      assert N[b := s][1..] == N[1..][b - 1 := s];
      ExcessUpdate(N[1..], b - 1, s, I);
    }
  }

  lemma {:induction false} ExcessNothing<X>(N: seq<seq<X>>, I: nat)
    requires forall b {:trigger N[b]} :: 0 <= b < |N| ==> N[b] == []
    ensures Excess(N, I) == 0
  {
    if N != [] { ExcessNothing(N[1..], I); }
  }

  /** What stands on each chain behind its first I items. */
  ghost function Behind<X>(N: seq<seq<X>>, I: nat): (P: seq<seq<X>>)
    ensures |P| == |N|
  {
    seq(|N|, b requires 0 <= b < |N| => N[b][Min(I, |N[b]|)..])
  }

  /** The number that the table keeps is that of the items whose chain position exceeds I. */
  lemma {:induction false} ExcessIsBehind<X>(N: seq<seq<X>>, I: nat)
    ensures Excess(N, I) == |Flat(Behind(N, I))|
  {
    if N != [] {
      ExcessIsBehind(N[1..], I);
      assert Behind(N, I)[1..] == Behind(N[1..], I);
    }
  }

  // ---------- Chains stay short ----------

  /** expand_mult of a bucket that expansion has given c items. */
  function Mult(c: nat, I: nat): nat
    requires 0 < I
  {
    if c > I then c / I else 0
  }

  lemma MultBetween(c: nat, I: nat)
    requires 0 < I
    ensures c <= I ==> Mult(c, I) == 0
    ensures c > I ==> Mult(c, I) * I <= c < (Mult(c, I) + 1) * I
  {
    var q := Mult(c, I);
    if c > I {
      var k, r := Quotient(c, I);
      assert (q + 1) * I == q * I + I;
    }
  }

  ghost function Mults<X>(N: seq<seq<X>>, I: nat): (M: seq<nat>)
    requires 0 < I
    ensures |M| == |N|
  {
    seq(|N|, b requires 0 <= b < |N| => Mult(|N[b]|, I))
  }

  /** What a bucket of c items may come to hold before it triggers the next expansion. */
  function Room(c: nat, m: nat): nat {
    if c > 10 * m + 9 then c else 10 * m + 9
  }

  ghost function Rooms<X>(B: seq<seq<X>>, M: seq<nat>): nat
    requires |B| == |M|
  {
    if B == [] then 0 else Room(|B[0]|, M[0]) + Rooms(B[1..], M[1..])
  }

  /** While expansion is not inhibited, a chain never grows beyond ten times expand_mult + 1, and
      the buckets together never hold more than 19 items each on average. */
  ghost predicate Bounded<X>(B: seq<seq<X>>, M: seq<nat>, noexpand: bool) {
    |B| == |M| && (!noexpand ==> Short(B, M) && Rooms(B, M) <= 19 * |B|)
  }

  ghost predicate Short<X>(B: seq<seq<X>>, M: seq<nat>)
    requires |B| == |M|
  {
    forall b {:trigger B[b]} :: 0 <= b < |B| ==> |B[b]| <= (M[b] + 1) * CAPACITY_THRESH
  }

  lemma {:induction false} RoomsUpdate<X>(B: seq<seq<X>>, M: seq<nat>, b: nat, s: seq<X>)
    requires |B| == |M| && b < |B|
    ensures Rooms(B[b := s], M) + Room(|B[b]|, M[b]) == Rooms(B, M) + Room(|s|, M[b])
  {
    if b == 0 {
      assert B[0 := s][1..] == B[1..];
    } else {
      assert B[b := s][1..] == B[1..][b - 1 := s];
      RoomsUpdate(B[1..], M[1..], b - 1, s);
    }
  }

  lemma {:induction false} RoomsHold<X>(B: seq<seq<X>>, M: seq<nat>)
    requires |B| == |M|
    ensures |Flat(B)| <= Rooms(B, M)
  {
    if B != [] { RoomsHold(B[1..], M[1..]); }
  }

  lemma {:induction false} RoomsAtFirst<X>(B: seq<seq<X>>, M: seq<nat>)
    requires |B| == |M| && forall b {:trigger B[b]} {:trigger M[b]} :: 0 <= b < |B| ==> B[b] == [] && M[b] == 0
    ensures Rooms(B, M) == 9 * |B|
  {
    if B != [] { RoomsAtFirst(B[1..], M[1..]); }
  }

  /** A table that holds this much when a bucket fills up gets an ideal chain length of at most 10. */
  lemma IdealAtMostTen(n: nat, b: nat, I: nat)
    requires 0 < b && n <= 19 * b + 1 && IsCeiling(n, 2 * b, I)
    ensures I <= 10
  {
    if I > 10 { GrowsFrom(I - 1, 10, 2 * b); }
  }

  lemma GrowsFrom(a: nat, c: nat, m: nat)
    requires a >= c
    ensures a * m >= c * m
  {
    assert a * m == c * m + (a - c) * m;
  }

  lemma RoomShare(c: nat, I: nat)
    requires 0 < I <= 10
    ensures I * (Room(c, Mult(c, I)) - 9) <= 10 * c
    ensures c <= (Mult(c, I) + 1) * CAPACITY_THRESH
  {
    var m := Mult(c, I);
    if c > I {
      assert c == I * m + c % I && 0 <= c % I < I;
      GrowsFrom(10, I, m);
      assert m * 10 == 10 * m && m * I == I * m && I * m <= 10 * m;
      assert Room(c, m) == 10 * m + 9;
      assert I * (10 * m) == 10 * (I * m);
    } else if c == 10 {
      assert I == 10;
    }
  }

  lemma {:induction false} RoomsShared<X>(N: seq<seq<X>>, I: nat)
    requires 0 < I <= 10
    ensures I * (Rooms(N, Mults(N, I)) - 9 * |N|) <= 10 * |Flat(N)|
  {
    if N != [] {
      var a, b := Room(|N[0]|, Mult(|N[0]|, I)) - 9, Rooms(N[1..], Mults(N[1..], I)) - 9 * |N[1..]|;
      RoomsShared(N[1..], I);
      RoomShare(|N[0]|, I);
      assert Mults(N, I)[1..] == Mults(N[1..], I);
      assert Rooms(N, Mults(N, I)) - 9 * |N| == a + b;
      assert I * (a + b) == I * a + I * b;
    }
  }

  /** Expansion, started when the buckets were Bounded up to one item, leaves them Bounded. */
  lemma ExpandBounds<X>(N: seq<seq<X>>, I: nat, noexpand: bool)
    requires N != [] && |Flat(N)| > 0 && IsCeiling(|Flat(N)|, |N|, I) && 0 < I <= 10
    ensures Bounded(N, Mults(N, I), noexpand)
  {
    var M := Mults(N, I);
    RoomsShared(N, I);
    Cancelled(I, Rooms(N, M) - 9 * |N|, |Flat(N)|, |N|);
    forall b {:trigger N[b]} | 0 <= b < |N| ensures |N[b]| <= (M[b] + 1) * CAPACITY_THRESH {
      RoomShare(|N[b]|, I);
    }
  }

  lemma Cancelled(I: nat, x: int, n: nat, b: nat)
    requires 0 < I && I * x <= 10 * n && n <= I * b
    ensures x <= 10 * b
  {
    if x > 10 * b {
      Differs(10 * b, x, I);
    }
  }

  /** An item added without expansion. */
  lemma PushBounds<X>(hash: Hash<X>, B: seq<seq<X>>, M: seq<nat>, x: X, noexpand: bool)
    requires B != [] && Bounded(B, M, noexpand)
    requires noexpand || |B[Home(hash, x, |B|)]| + 1 < (M[Home(hash, x, |B|)] + 1) * CAPACITY_THRESH
    ensures Bounded(Pushed(hash, B, x), M, noexpand)
  {
    var h := Home(hash, x, |B|);
    RoomsUpdate(B, M, h, [x] + B[h]);
  }

  /** An item taken off a chain. */
  lemma DropBounds<X>(B: seq<seq<X>>, M: seq<nat>, h: nat, k: nat, noexpand: bool)
    requires Bounded(B, M, noexpand) && h < |B| && k < |B[h]|
    ensures Bounded(B[h := Without(B[h], k)], M, noexpand)
  {
    RoomsUpdate(B, M, h, Without(B[h], k));
  }

  /** The ideal chain length of any expansion is between 1 and 10. */
  lemma PushedIdeal<X>(hash: Hash<X>, B: seq<seq<X>>, M: seq<nat>, x: X, n: nat, I: nat)
    requires B != [] && Bounded(B, M, false) && n == |Flat(Pushed(hash, B, x))| && IsCeiling(n, 2 * |B|, I)
    ensures n == |Flat(B)| + 1 && 0 < I <= 10
  {
    var h := Home(hash, x, |B|);
    FlatParts(B, h);
    FlatUpdate(B, h, [x] + B[h]);
    RoomsHold(B, M);
    IdealAtMostTen(n, |B|, I);
  }
}
