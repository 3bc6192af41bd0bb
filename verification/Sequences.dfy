/** Small operations on sequences. */
module Sequences {

  function Min(a: int, b: int): int { if a < b then a else b }

  ghost predicate Distinct<X>(s: seq<X>) {
    forall i, j {:trigger s[i], s[j]} :: 0 <= i < j < |s| ==> s[i] != s[j]
  }

  /** s without the element at k. */
  ghost function Without<X>(s: seq<X>, k: int): seq<X>
    requires 0 <= k < |s|
  {
    s[..k] + s[k + 1..]
  }

  /** s without the first x. */
  function Minus<X(==)>(s: seq<X>, x: X): seq<X> {
    if s == [] then [] else if s[0] == x then s[1..] else [s[0]] + Minus(s[1..], x)
  }

  lemma {:induction false} MinusAt<X>(s: seq<X>, k: nat)
    requires Distinct(s) && k < |s|
    ensures Minus(s, s[k]) == s[..k] + s[k + 1..]
  {
    if k > 0 {
      MinusAt(s[1..], k - 1);
      assert [s[0]] + s[1..][..k - 1] == s[..k];
    }
  }

  lemma {:induction false} MinusAbsent<X>(s: seq<X>, x: X)
    requires x !in s
    ensures Minus(s, x) == s
  {
    if s != [] { MinusAbsent(s[1..], x); }
  }

  lemma MinusMembers<X>(s: seq<X>, x: X)
    requires Distinct(s) && x in s
    ensures Distinct(Minus(s, x))
    ensures forall y :: y in Minus(s, x) <==> y in s && y != x
  {
    hide Minus;
    var k :| 0 <= k < |s| && s[k] == x;
    MinusAt(s, k);
    OthersStay(s, k);
  }

  lemma OthersStay<X>(s: seq<X>, k: nat)
    requires Distinct(s) && k < |s|
    ensures Distinct(s[..k] + s[k + 1..])
    ensures forall y :: y in s[..k] + s[k + 1..] <==> y in s && y != s[k]
  {
    var r := s[..k] + s[k + 1..];
    forall y ensures y in r <==> y in s && y != s[k] {
      if y in r { InRest(s, k, y); }
      if y in s && y != s[k] {
        var i :| 0 <= i < |s| && s[i] == y;
        assert r[if i < k then i else i - 1] == y;
      }
    }
  }

  lemma InRest<X>(s: seq<X>, k: nat, y: X)
    requires Distinct(s) && k < |s| && y in s[..k] + s[k + 1..]
    ensures y in s && y != s[k]
  {
    var r := s[..k] + s[k + 1..];
    var j :| 0 <= j < |r| && r[j] == y;
    assert y == s[if j < k then j else j + 1];
  }

  /** An x stands before a y. */
  ghost predicate Precedes<X>(s: seq<X>, x: X, y: X) {
    exists p, q {:trigger s[p], s[q]} :: 0 <= p < q < |s| && s[p] == x && s[q] == y
  }

  lemma PrecedesCons<X>(a: X, s: seq<X>, x: X, y: X)
    ensures Precedes([a] + s, x, y) <==> (a == x && y in s) || Precedes(s, x, y)
  {
    var t := [a] + s;
    if a == x && y in s {
      var q :| 0 <= q < |s| && s[q] == y;
      assert t[0] == x && t[q + 1] == y;
    }
    if Precedes(s, x, y) {
      var p, q :| 0 <= p < q < |s| && s[p] == x && s[q] == y;
      assert t[p + 1] == x && t[q + 1] == y;
    }
    if Precedes(t, x, y) {
      var p, q :| 0 <= p < q < |t| && t[p] == x && t[q] == y;
      assert s[q - 1] == y;
      if p > 0 { assert s[p - 1] == x; }
    }
  }
}
