/** Powers of two, and what shifting and masking by them compute. */
module Bits {

  function Pow2(k: nat): (p: nat)
    ensures p > 0
  {
    if k == 0 then 1 else 2 * Pow2(k - 1)
  }

  lemma PowStart()
    ensures Pow2(0) == 1
  {
  }

  lemma PowStep(k: nat)
    ensures Pow2(k + 1) == 2 * Pow2(k)
  {
  }

  /** x & y */
  function And(x: nat, y: nat): nat {
    if x == 0 || y == 0 then 0
    else 2 * And(x / 2, y / 2) + if x % 2 == 1 && y % 2 == 1 then 1 else 0
  }

  /** x >> k */
  function Shr(x: nat, k: nat): nat {
    if k == 0 then x else Shr(x / 2, k - 1)
  }

  lemma Grows(d: nat, m: nat)
    requires d >= 1
    ensures d * m >= m
  {
    assert d * m == m + (d - 1) * m;
  }

  lemma Differs(a: nat, b: nat, m: nat)
    requires a < b
    ensures b * m - a * m >= m
  {
    assert b * m - a * m == (b - a) * m;
    Grows(b - a, m);
  }

  lemma Divides(x: nat, m: nat, q: nat, r: nat)
    requires x == q * m + r && r < m
    ensures x / m == q && x % m == r
  {
    var q' := x / m;
    assert x == q' * m + x % m && 0 <= x % m < m;
    if q < q' {
      Differs(q, q', m);
    } else if q' < q {
      Differs(q', q, m);
    }
  }

  lemma Quotient(x: nat, m: nat) returns (q: nat, r: nat)
    requires m > 0
    ensures q == x / m && r == x % m && x == q * m + r && r < m
  {
    q, r := x / m, x % m;
  }

  lemma Doubled(q: nat, p: nat)
    ensures q * (2 * p) == 2 * (q * p) && (2 * q) * p == 2 * (q * p) && (2 * q + 1) * p == 2 * (q * p) + p
  {
  }

  lemma Halves(x: nat, p: nat)
    requires p > 0
    ensures x / (2 * p) == (x / 2) / p && x % (2 * p) == 2 * ((x / 2) % p) + x % 2
  {
    var y := x / 2;
    var q, r := Quotient(y, p);
    Doubled(q, p);
    Divides(x, 2 * p, q, 2 * r + x % 2);
  }

  function Remainder(x: nat, m: nat): nat
    requires m > 0
  {
    x % m
  }

  lemma {:induction false} AndRemainder(x: nat, k: nat)
    ensures And(x, Pow2(k) - 1) == Remainder(x, Pow2(k))
  {
    hide And, Pow2, Remainder;
    if k == 0 {
      PowStart();
      AndZero(x);
    } else {
      var y, bit := HalfOf(x);
      PowStep(k - 1);
      AndRemainder(y, k - 1);
      AndOdd(y, bit, Pow2(k - 1) - 1);
      RemainderOdd(y, bit, Pow2(k - 1));
    }
  }

  lemma HalfOf(x: nat) returns (y: nat, bit: nat)
    ensures x == 2 * y + bit && bit <= 1
  {
    y, bit := x / 2, x % 2;
  }

  lemma RemainderOdd(y: nat, bit: nat, p: nat)
    requires p > 0 && bit <= 1
    ensures Remainder(2 * y + bit, 2 * p) == 2 * Remainder(y, p) + bit
  {
    var x := 2 * y + bit;
    assert x / 2 == y && x % 2 == bit;
    Halves(x, p);
  }

  /** Masking with 2^k - 1 is the remainder by 2^k. */
  lemma AndMask(x: nat, k: nat)
    ensures And(x, Pow2(k) - 1) == x % Pow2(k)
  {
    hide And, Pow2;
    AndRemainder(x, k);
  }

  lemma AndZero(x: nat)
    ensures And(x, 0) == Remainder(x, 1)
  {
  }

  lemma AndOdd(y: nat, bit: nat, z: nat)
    requires bit <= 1
    ensures And(2 * y + bit, 2 * z + 1) == 2 * And(y, z) + bit
  {
    var x := 2 * y + bit;
    assert x / 2 == y && x % 2 == bit && (2 * z + 1) / 2 == z && (2 * z + 1) % 2 == 1;
  }

  /** Shifting right by k is the quotient by 2^k. */
  lemma {:induction false} ShrDivides(x: nat, k: nat)
    ensures Shr(x, k) == x / Pow2(k)
  {
    if k > 0 {
      ShrDivides(x / 2, k - 1);
      Halves(x, Pow2(k - 1));
    }
  }
}
