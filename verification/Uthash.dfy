/** The operations of uthash.h on a user's head pointer. */
module Uthash {
  import opened Sequences
  import opened Bits
  import opened HashSpec
  import opened HashTables
  import opened HashSort
  import SS = StableSort

  // ---------- What a hash is to its user ----------

  /** The element with a key, if any. */
  ghost function Contents(A: seq<Element>): map<Key, Element> {
    if A == [] then map[] else Contents(A[..|A| - 1])[A[|A| - 1].key := A[|A| - 1]]
  }

  /** The keys in the order in which their elements were added. */
  ghost function Keys(A: seq<Element>): (r: seq<Key>)
    ensures |r| == |A|
  {
    seq(|A|, i requires 0 <= i < |A| => A[i].key)
  }

  lemma {:induction false} ContentsHold(A: seq<Element>)
    requires UniqueKeys(A)
    ensures forall e {:trigger e in A} :: e in A ==> e.key in Contents(A) && Contents(A)[e.key] == e
    ensures forall key {:trigger key in Contents(A)} :: key in Contents(A) ==>
      Contents(A)[key] in A && Contents(A)[key].key == key
    ensures |Contents(A)| == |A|
  {
    hide UniqueKeys;
    if A != [] {
      var P, l := A[..|A| - 1], A[|A| - 1];
      LastIsNew(A);
      ContentsHold(P);
      OneMore(P, l, Contents(P));
    }
  }

  lemma LastIsNew(A: seq<Element>)
    requires UniqueKeys(A) && A != []
    ensures var P, l := A[..|A| - 1], A[|A| - 1];
      A == P + [l] && UniqueKeys(P) && forall i :: 0 <= i < |P| ==> P[i].key != l.key
  {
  }

  /** m gives the elements of P by key; l has a new key. */
  lemma OneMore(P: seq<Element>, l: Element, m: map<Key, Element>)
    requires forall e {:trigger e in P} :: e in P ==> e.key in m && m[e.key] == e
    requires forall key {:trigger key in m} :: key in m ==> m[key] in P && m[key].key == key
    requires |m| == |P| && forall i :: 0 <= i < |P| ==> P[i].key != l.key
    ensures var n := m[l.key := l];
      && (forall e {:trigger e in P + [l]} :: e in P + [l] ==> e.key in n && n[e.key] == e)
      && (forall key {:trigger key in n} :: key in n ==> n[key] in P + [l] && n[key].key == key)
      && |n| == |P| + 1
  {
    var n := m[l.key := l];
    assert n.Keys == m.Keys + {l.key};
    forall e {:trigger e in P + [l]} | e in P + [l] ensures e.key in n && n[e.key] == e {
      if e != l {
        assert e in P;
        var i :| 0 <= i < |P| && P[i] == e;
      }
    }
  }

  lemma ContentsAdded(A: seq<Element>, x: Element)
    ensures Contents(A + [x]) == Contents(A)[x.key := x] && Keys(A + [x]) == Keys(A) + [x.key]
  {
    assert (A + [x])[..|A|] == A;
  }

  lemma ElementsDropped(A: seq<Element>, i: nat)
    requires UniqueKeys(A) && i < |A|
    ensures UniqueKeys(Without(A, i))
    ensures forall e {:trigger e in A} {:trigger e in Without(A, i)} :: e in Without(A, i) <==> e in A && e != A[i]
    ensures forall e {:trigger e in A} :: e in A && e != A[i] ==> e.key != A[i].key
  {
    var C := Without(A, i);
    forall e {:trigger e in C} ensures e in C <==> e in A && e != A[i] {
      if e in C {
        var k :| 0 <= k < |C| && C[k] == e;
        assert A[if k < i then k else k + 1] == e;
      }
      if e in A && e != A[i] {
        var k :| 0 <= k < |A| && A[k] == e;
        assert C[if k < i then k else k - 1] == e;
      }
    }
  }

  /** m and n give the elements of A and of C by key, and C is A but for a. */
  lemma MapDropped(A: seq<Element>, C: seq<Element>, m: map<Key, Element>, n: map<Key, Element>, a: Element)
    requires forall e {:trigger e in A} :: e in A ==> e.key in m && m[e.key] == e
    requires forall key {:trigger key in m} :: key in m ==> m[key] in A && m[key].key == key
    requires forall e {:trigger e in C} :: e in C ==> e.key in n && n[e.key] == e
    requires forall key {:trigger key in n} :: key in n ==> n[key] in C && n[key].key == key
    requires a in A && forall e {:trigger e in A} {:trigger e in C} :: e in C <==> e in A && e != a
    ensures n == m - {a.key}
  {
    forall key ensures key in n <==> key in m && key != a.key {
      if key in n { assert n[key] in C && n[key] in A; }
      if key in m && key != a.key { assert m[key] in A && m[key] in C; }
    }
    forall key | key in n ensures n[key] == m[key] { assert n[key] in C && n[key] in A; }
  }

  lemma KeysDropped(A: seq<Element>, i: nat)
    requires i < |A|
    ensures Keys(Without(A, i)) == Without(Keys(A), i)
  {
    var k, w := Keys(Without(A, i)), Without(Keys(A), i);
    assert |k| == |w| == |A| - 1;
    forall j | 0 <= j < |k| ensures k[j] == w[j] {
    }
  }

  lemma ContentsDropped(A: seq<Element>, i: nat)
    requires UniqueKeys(A) && i < |A|
    ensures UniqueKeys(Without(A, i)) && Contents(Without(A, i)) == Contents(A) - {A[i].key}
    ensures Keys(Without(A, i)) == Without(Keys(A), i)
  {
    hide Contents, UniqueKeys, Keys, Without;
    KeysDropped(A, i);
    ElementsDropped(A, i);
    ContentsHold(A);
    ContentsHold(Without(A, i));
    MapDropped(A, Without(A, i), Contents(A), Contents(Without(A, i)), A[i]);
  }

  lemma TableOf(hash: Key -> nat, A: seq<Element>, B: seq<seq<Element>>, M: seq<nat>, t: Table)
    requires Holds(t, hash, A, B, M) && A != []
    ensures A[0].tbl == t
  {
  }

  /** An element has no neighbours only in a list of one. */
  lemma AloneIn(A: seq<Element>, i: nat, x: Element)
    requires AppList(A) && i < |A| && A[i] == x
    ensures x.prev == null && x.next == null <==> |A| == 1
    ensures |Without(A, i)| == |A| - 1
    ensures forall k {:trigger Without(A, i)[k]} :: 0 <= k < |A| - 1 ==> Without(A, i)[k] in A
    ensures |A| == 1 ==> Without(A, i) == []
  {
    assert Joined(A, i);
  }

  lemma Nothing()
    ensures AppList([]) && UniqueKeys([]) && NodesOf([]) == {} && Contents([]) == map[]
  {
  }

  lemma UniqueAdded(A: seq<Element>, x: Element)
    requires UniqueKeys(A) && x.key !in Contents(A)
    ensures UniqueKeys(A + [x]) && x !in A
  {
    ContentsHold(A);
    forall i | 0 <= i < |A| ensures A[i].key != x.key { assert A[i] in A; }
  }

  /** A list of the same elements has the same keys and contents. */
  lemma ContentsPermuted(A: seq<Element>, S: seq<Element>)
    requires UniqueKeys(A) && multiset(S) == multiset(A)
    ensures UniqueKeys(S) && Contents(S) == Contents(A)
    ensures forall e {:trigger e in S} {:trigger e in A} :: e in S <==> e in A
  {
    hide Contents;
    forall e ensures e in S <==> e in A {
      assert e in multiset(S) <==> e in multiset(A);
    }
    UniqueIsDistinct(A);
    DistinctMultiset(A);
    DistinctMultiset(S);
    forall i, j {:trigger S[i], S[j]} | 0 <= i < j < |S| ensures S[i].key != S[j].key {
      assert S[i] in A && S[j] in A;
    }
    ContentsHold(A);
    ContentsHold(S);
    SameMaps(Contents(A), Contents(S));
  }

  lemma SameMaps(m: map<Key, Element>, n: map<Key, Element>)
    requires forall key {:trigger key in m} :: key in m ==> key in n && n[key] == m[key]
    requires forall key {:trigger key in n} :: key in n ==> key in m
    ensures m == n
  {
  }

  lemma NothingInOrder(cmp: Compare)
    ensures InOrder(cmp, [], [])
  {
  }

  lemma ContentsSorted(A: seq<Element>, cmp: Compare)
    requires UniqueKeys(A)
    ensures var S := SS.Sort(LeBy(cmp), A);
      && UniqueKeys(S) && Contents(S) == Contents(A) && Distinct(A)
      && (forall k {:trigger S[k]} :: 0 <= k < |S| ==> S[k] in A)
  {
    SS.SortElements(LeBy(cmp), A);
    var S := SS.Sort(LeBy(cmp), A);
    ContentsPermuted(A, S);
    UniqueIsDistinct(A);
    forall k {:trigger S[k]} | 0 <= k < |S| ensures S[k] in A {
      assert S[k] in multiset(S) && S[k] in multiset(A);
    }
  }

  lemma StaysOut(A: seq<Element>, i: nat, x: Element)
    requires UniqueKeys(A) && i < |A| && A[i].key == x.key
    ensures x !in Without(A, i)
  {
  }

  lemma UniquePrefix(A: seq<Element>, x: Element)
    requires UniqueKeys(A + [x])
    ensures Distinct(A)
  {
    forall i, j | 0 <= i < j < |A| ensures A[i] != A[j] { assert (A + [x])[i] == A[i] && (A + [x])[j] == A[j]; }
  }

  lemma UniqueIsDistinct(A: seq<Element>)
    requires UniqueKeys(A)
    ensures Distinct(A)
  {
  }

  /** The variable that HASH_ADD and the others are given: null, or the first element. */
  class HashHead {
    const hash: Key -> nat
    var head: Element?
    ghost var A: seq<Element>         // the elements in application order
    ghost var B: seq<seq<Element>>    // the bucket chains
    ghost var M: seq<nat>             // each bucket's expand_mult
    ghost var Repr: set<object>

    /** The two structures under head, and that they agree. */
    ghost predicate Valid()
      reads this, Repr
    {
      && Within() && UniqueKeys(A) && AppList(A) && head == NodeAt(A, 0)
      && (head != null ==>
          && head in Repr && head.tbl != null && head.tbl in Repr && head.tbl.buckets in Repr
          && Holds(head.tbl, hash, A, B, M) && head.tbl.tail == A[|A| - 1])
    }

    ghost predicate Within()
      reads this, Repr
    {
      && (forall i {:trigger A[i]} :: 0 <= i < |A| ==> A[i] in Repr)
      && (forall e {:trigger e in NodesOf(B)} :: e in NodesOf(B) ==> e in Repr)
    }

    constructor (hash: Key -> nat)
      ensures Valid() && A == [] && this.hash == hash && Repr == {}
    {
      this.hash := hash;
      head := null;
      A, B, M, Repr := [], [], [], {};
    }

    /** HASH_COUNT */
    method Count() returns (n: nat)
      requires Valid()
      ensures n == |A| == |Contents(A)|
    {
      n := if head != null then head.tbl.numItems else 0;
      ContentsHold(A);
    }

    lemma LookUp(key: Key, b: nat, out: Element?)
      requires Valid() && head != null && b < |B| && b == hash(key) % |B|
      requires out != null ==> out in B[b] && out.key == key
      requires out == null ==> forall j {:trigger B[b][j]} :: 0 <= j < |B[b]| ==> B[b][j].key != key
      ensures out == if key in Contents(A) then Contents(A)[key] else null
    {
      ContentsHold(A);
      if out != null {
        var e: Element := out;
        FiledIn(OfKey(hash), A, B, e);
      } else if key in Contents(A) {
        FiledIn(OfKey(hash), A, B, Contents(A)[key]);
      }
    }

    /** HASH_FIND */
    method Find(key: Key) returns (out: Element?)
      requires Valid()
      ensures Valid()
      ensures out == if key in Contents(A) then Contents(A)[key] else null
      ensures out != null ==> out in A && out.key == key
      ensures out == null ==> forall e {:trigger e in A} :: e in A ==> e.key != key
    {
      out := null;
      ContentsHold(A);
      if head != null {
        var t := head.tbl;
        var b := ToBkt(hash(key), t.numBuckets, t.log2NumBuckets);
        assert Chain(B[b]);
        out := FindInBkt(t.buckets[b].head, key, B[b]);
        LookUp(key, b, out);
      }
    }

    /** The part of HASH_ADD_KEYPTR that puts x at the end of the application list, the first of it
        or not, and counts it. */
    method Enlist(x: Element) returns (t: Table)
      requires Valid() && x !in A
      modifies this, x, Repr
      ensures A == old(A) && head == (A + [x])[0] && head.tbl == x.tbl == t && t.tail == x
      ensures Ready(t, hash, A, B, M) && AppList(A + [x]) && Within()
      ensures {head, t, t.buckets, x} <= Repr && fresh(Repr - old(Repr) - {x})
    {
      hide Holds, Ready, Distinct, AppList, NodesOf, UniqueKeys;
      UniqueIsDistinct(A);
      if head == null {
        head := x;
        t, B, M := EnlistFirst(x, hash);
        assert A + [x] == [x];
        Repr := Repr + {t, t.buckets, x};
      } else {
        t := head.tbl;
        TableOf(hash, A, B, M, t);
        EnlistLast(x, t, hash, A, B, M);
        Repr := Repr + {x};
      }
    }

    /** HASH_ADD of an element whose key is not in the hash. */
    method Add(x: Element)
      requires Valid() && x !in A && x.key !in Contents(A)
      modifies this, x, Repr
      ensures Valid() && A == old(A) + [x] && fresh(Repr - old(Repr) - {x})
      ensures Contents(A) == old(Contents(A))[x.key := x] && Keys(A) == old(Keys(A)) + [x.key]
    {
      hide Valid, Within, Holds, Ready, Distinct, Contents, Keys, AppList, NodesOf, UniqueKeys;
      KeysAreUnique();
      UniqueAdded(A, x);
      ContentsAdded(A, x);
      var t := Enlist(x);
      File(x, t);
    }

    /** The rest of HASH_ADD_KEYPTR. */
    method File(x: Element, t: Table)
      requires head == (A + [x])[0] && head.tbl == x.tbl == t && t.tail == x && x !in A
      requires Ready(t, hash, A, B, M) && AppList(A + [x]) && Within() && UniqueKeys(A + [x])
      requires {head, t, t.buckets, x} <= Repr
      modifies this, Repr
      ensures Valid() && A == old(A) + [x] && fresh(Repr - old(Repr))
    {
      hide Holds, Ready, Distinct, AppList, NodesOf, UniqueKeys;
      UniquePrefix(A, x);
      B, M := FileNew(x, t, hash, A, B, M);
      A := A + [x];
      Repr := Repr + {t.buckets};
    }

    /** The second branch of HASH_DELETE. */
    method DeleteOneOf(x: Element, ghost i: nat)
      requires Valid() && i < |A| && A[i] == x && |A| > 1
      modifies this, Repr
      ensures Valid() && A == Without(old(A), i) && Repr == old(Repr)
    {
      hide Holds, Distinct, AppList, NodesOf, UniqueKeys, Contents;
      UniqueIsDistinct(A);
      ContentsDropped(A, i);
      AloneIn(A, i, x);
      var t := head.tbl;
      var first, C, N := Remove(x, t, head, hash, A, B, M, i);
      TableOf(hash, C, N, M, t);
      head, A, B := first, C, N;
    }

    /** HASH_DELETE */
    method Delete(x: Element) returns (ghost i: nat)
      requires Valid() && x in A
      modifies this, Repr
      ensures Valid() && i < |old(A)| && old(A)[i] == x && A == Without(old(A), i) && Repr == old(Repr)
      ensures Contents(A) == old(Contents(A)) - {x.key} && Keys(A) == Without(old(Keys(A)), i)
    {
      hide Holds, Distinct, Contents, Keys, AppList, NodesOf, UniqueKeys;
      UniqueIsDistinct(A);
      i :| 0 <= i < |A| && A[i] == x;
      ContentsDropped(A, i);
      AloneIn(A, i, x);
      if x.prev == null && x.next == null {
        head := null;
        A, B, M := [], [], [];
        Nothing();
      } else {
        DeleteOneOf(x, i);
      }
    }

    lemma KeysAreUnique()
      requires Valid()
      ensures UniqueKeys(A)
    {
    }

    /** HASH_REPLACE, also by an element that is already in the hash. */
    method Replace(x: Element) returns (replaced: Element?)
      requires Valid()
      modifies this, x, Repr
      ensures Valid() && fresh(Repr - old(Repr) - {x})
      ensures replaced == if x.key in old(Contents(A)) then old(Contents(A))[x.key] else null
      ensures Contents(A) == old(Contents(A))[x.key := x]
      ensures replaced == null ==> A == old(A) + [x]
      ensures replaced != null ==> replaced.key == x.key && exists i {:trigger old(A)[i]} ::
        0 <= i < |old(A)| && old(A)[i] == replaced && A == Without(old(A), i) + [x]
    {
      hide Contents, Keys, Valid, NodeAt, UniqueKeys;
      KeysAreUnique();
      replaced := Find(x.key);
      if replaced != null {
        ghost var C := A;
        ghost var i := Delete(replaced);
        StaysOut(C, i, x);
      }
      Add(x);
    }

    /** HASH_SRT: the application list is put in the order of cmp, and elements that cmp holds equal both
        ways keep their order; the bucket chains, and so what every HASH_FIND returns, are as before. */
    method Sort(cmp: Compare)
      requires Valid() && Consistent(cmp, A)
      modifies this, Repr
      ensures Valid() && B == old(B) && M == old(M) && Repr == old(Repr)
      ensures multiset(A) == multiset(old(A))
      ensures forall i, j {:trigger A[i], A[j]} :: 0 <= i < j < |A| ==>
        cmp(A[i], A[j]) <= 0 && (cmp(A[j], A[i]) <= 0 ==> Precedes(old(A), A[i], A[j]))
      ensures Contents(A) == old(Contents(A))
    {
      hide Valid, Contents, Precedes, Consistent;
      SortHead(cmp);
    }

    method SortHead(cmp: Compare)
      requires Valid() && Consistent(cmp, A)
      modifies this, Repr
      ensures Valid() && B == old(B) && M == old(M) && Repr == old(Repr)
      ensures InOrder(cmp, old(A), A) && Contents(A) == old(Contents(A))
    {
      hide Filed, Bounded, Pow2, Distinct, Contents, AppList, UniqueKeys, Chains, NodesOf, SS.Sort, Consistent, InOrder;
      NothingInOrder(cmp);
      if head != null {
        ghost var t := head.tbl;
        ContentsSorted(A, cmp);
        TableOf(hash, A, B, M, t);
        head, A := SortTable(head.tbl, head, cmp, hash, A, B, M);
      }
    }
  }
}
