/** Congruence modulo a positive number. */
module Congruence {
  import opened Power

  predicate Cong(a: int, b: int, m: int)
    requires m > 0
  {
    a % m == b % m
  }

  /** Two numbers that differ by a multiple are congruent ... */
  lemma CongByMultiple(a: int, b: int, k: int, m: int)
    requires m > 0 && a == b + k * m
    ensures Cong(a, b, m)
  {
    var q, r := b / m, b % m;
    assert a == (q + k) * m + r;
    DivModUnique(a, m, q + k, r);
  }

  /** ... and the other way round. */
  lemma CongMultiple(a: int, b: int, m: int) returns (k: int)
    requires m > 0 && Cong(a, b, m)
    ensures a == b + k * m
  {
    k := a / m - b / m;
    assert a == a / m * m + a % m && b == b / m * m + b % m;
    assert a - b == (a / m - b / m) * m;
  }

  lemma CongMod(a: int, m: int)
    requires m > 0
    ensures Cong(a % m, a, m)
  {
    CongByMultiple(a, a % m, a / m, m);
  }

  /** A residue already in range is the residue. */
  lemma CongInRange(a: int, b: int, m: int)
    requires m > 0 && Cong(a, b, m) && 0 <= a < m
    ensures a == b % m
  {
    DivModUnique(a, m, 0, a);
  }

  lemma CongAdd(a: int, b: int, c: int, d: int, m: int)
    requires m > 0 && Cong(a, b, m) && Cong(c, d, m)
    ensures Cong(a + c, b + d, m)
  {
    var j := CongMultiple(a, b, m);
    var k := CongMultiple(c, d, m);
    assert a + c == b + d + (j + k) * m;
    CongByMultiple(a + c, b + d, j + k, m);
  }

  lemma CongSub(a: int, b: int, c: int, d: int, m: int)
    requires m > 0 && Cong(a, b, m) && Cong(c, d, m)
    ensures Cong(a - c, b - d, m)
  {
    var j := CongMultiple(a, b, m);
    var k := CongMultiple(c, d, m);
    assert a - c == b - d + (j - k) * m;
    CongByMultiple(a - c, b - d, j - k, m);
  }

  lemma CongScale(a: int, b: int, c: int, m: int)
    requires m > 0 && Cong(a, b, m)
    ensures Cong(a * c, b * c, m)
    ensures Cong(c * a, c * b, m)
  {
    var j := CongMultiple(a, b, m);
    assert a * c == b * c + (j * m) * c;
    assert (j * m) * c == (j * c) * m by {
      MulAssociative(j, m, c);
      MulAssociative(j, c, m);
    }
    CongByMultiple(a * c, b * c, j * c, m);
  }

  lemma CongMul(a: int, b: int, c: int, d: int, m: int)
    requires m > 0 && Cong(a, b, m) && Cong(c, d, m)
    ensures Cong(a * c, b * d, m)
  {
    CongScale(a, b, c, m);
    CongScale(c, d, b, m);
  }

  lemma {:induction false} CongPow(a: nat, b: nat, e: nat, m: int)
    requires m > 0 && Cong(a, b, m)
    ensures Cong(Pow(a, e), Pow(b, e), m)
  {
    if e > 0 {
      CongPow(a, b, e - 1, m);
      CongMul(a, b, Pow(a, e - 1), Pow(b, e - 1), m);
    }
  }

  /** A factor with an inverse cancels. */
  lemma CongCancel(a: int, b: int, c: int, inverse: int, m: int)
    requires m > 0 && Cong(a * c, b * c, m) && Cong(c * inverse, 1, m)
    ensures Cong(a, b, m)
  {
    CongScale(a * c, b * c, inverse, m);
    MulAssociative(a, c, inverse);
    MulAssociative(b, c, inverse);
    CongScale(c * inverse, 1, a, m);
    CongScale(c * inverse, 1, b, m);
  }

  /** Congruence survives in any divisor of the modulus. */
  lemma CongDivisor(a: int, b: int, d: int, q: int)
    requires d > 0 && q > 0
    requires d * q > 0 && Cong(a, b, d * q)
    ensures Cong(a, b, d)
  {
    var k := CongMultiple(a, b, d * q);
    MulAssociative(k, q, d);
    CongByMultiple(a, b, k * q, d);
  }

  /** Reduction modulo m as the program means it: modulo zero reduces nothing. */
  function Reduce(x: nat, m: nat): nat {
    if m == 0 then x else x % m
  }

  lemma ReduceProduct(x: nat, y: nat, m: nat)
    ensures Reduce(x, m) * Reduce(y, m) >= 0
    ensures Reduce(Reduce(x, m) * Reduce(y, m), m) == Reduce(x * y, m)
  {
    if m > 0 {
      CongMod(x, m);
      CongMod(y, m);
      CongMul(x % m, x, y % m, y, m);
    }
  }
}
