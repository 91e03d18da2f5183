/** Powers of naturals, and the few non-linear facts the arithmetic proofs lean on. */
module Power {

  function Pow(b: nat, e: nat): nat {
    if e == 0 then 1 else b * Pow(b, e - 1)
  }

  lemma {:induction false} PowPositive(b: nat, e: nat)
    requires b > 0
    ensures Pow(b, e) > 0
  {
    if e > 0 {
      PowPositive(b, e - 1);
    }
  }

  lemma {:induction false} PowAdd(b: nat, x: nat, y: nat)
    ensures Pow(b, x + y) == Pow(b, x) * Pow(b, y)
  {
    if x > 0 {
      PowAdd(b, x - 1, y);
      MulAssociative(b, Pow(b, x - 1), Pow(b, y));
    }
  }

  /** (b * c)^e == b^e * c^e. */
  lemma {:induction false} PowOfProduct(b: nat, c: nat, e: nat)
    ensures Pow(b * c, e) == Pow(b, e) * Pow(c, e)
  {
    if e > 0 {
      PowOfProduct(b, c, e - 1);
      var p, q := Pow(b, e - 1), Pow(c, e - 1);
      calc {
        Pow(b * c, e);
        (b * c) * (p * q);
        { MulAssociative(b * c, p, q); MulAssociative(b, c, p); MulAssociative(b, p, c); }
        ((b * p) * c) * q;
        { MulAssociative(b * p, c, q); }
        (b * p) * (c * q);
      }
    }
  }

  /** (b^x)^y == b^(x * y). */
  lemma {:induction false} PowOfPow(b: nat, x: nat, y: nat)
    ensures x * y >= 0
    ensures Pow(Pow(b, x), y) == Pow(b, x * y)
  {
    if y > 0 {
      PowOfPow(b, x, y - 1);
      assert x * y == x + x * (y - 1);
      PowAdd(b, x, x * (y - 1));
    }
  }

  lemma {:induction false} PowOne(e: nat)
    ensures Pow(1, e) == 1
  {
    if e > 0 {
      PowOne(e - 1);
    }
  }

  lemma {:induction false} PowMonotone(b: nat, x: nat, y: nat)
    requires b > 0 && x <= y
    ensures Pow(b, x) <= Pow(b, y)
  {
    PowAdd(b, x, y - x);
    PowPositive(b, y - x);
    MulLeft(1, Pow(b, y - x), Pow(b, x));
  }

  lemma MulAssociative(x: int, y: int, z: int)
    ensures (x * y) * z == x * (y * z)
  {
  }

  /** Multiplying an inequality by a natural. */
  lemma MulLeft(x: int, y: int, z: int)
    requires x <= y && z >= 0
    ensures x * z <= y * z
    ensures z * x <= z * y
  {
  }

  lemma MulStrict(x: int, y: int, z: int)
    requires x < y && z > 0
    ensures x * z < y * z
    ensures x * z + z <= y * z
  {
    MulLeft(x + 1, y, z);
  }

  lemma MulDistributes(x: int, y: int, z: int)
    ensures x * (y + z) == x * y + x * z
    ensures (y + z) * x == y * x + z * x
    ensures x * (y - z) == x * y - x * z
    ensures (y - z) * x == y * x - z * x
  {
  }

  /** What division of naturals gives, without unfolding the operators. */
  lemma DivBasics(x: nat, d: nat)
    requires d > 0
    ensures 0 <= x / d <= x && 0 <= x % d < d && x == x / d * d + x % d
  {
    MulLeft(1, d, x / d);
  }

  /** The quotient and remainder of a division are the only ones there are. */
  lemma DivModUnique(a: int, d: int, q: int, r: int)
    requires d > 0 && a == q * d + r && 0 <= r < d
    ensures a / d == q && a % d == r
  {
    var q', r' := a / d, a % d;
    assert a == q' * d + r';
    if q' < q {
      MulStrict(q', q, d);
    } else if q < q' {
      MulStrict(q, q', d);
    }
  }

  /** Dividing in two steps. */
  lemma DivDiv(n: nat, a: nat, b: nat)
    requires a > 0 && b > 0
    ensures a * b > 0 && n / (a * b) == n / a / b
  {
    MulLeft(1, a, b);
    DivBasics(n, a);
    DivBasics(n / a, b);
    var q, r, q', r' := n / a, n % a, n / a / b, n / a % b;
    MulStrict(r', b, a);
    MulDistributes(a, q' * b, r');
    MulAssociative(q', b, a);
    MulLeft(0, r', a);
    DivModUnique(n, a * b, q', r' * a + r);
  }

  /** The low i + 1 bits of a number: the low i, and bit i. */
  lemma LowBits(n: nat, i: nat)
    ensures Pow(2, i) > 0 && Pow(2, i + 1) > 0
    ensures n % Pow(2, i + 1) == n % Pow(2, i) + n / Pow(2, i) % 2 * Pow(2, i)
  {
    PowPositive(2, i);
    var p := Pow(2, i);
    DivBasics(n, p);
    var q, r := n / p, n % p;
    var bit := q % 2;
    assert q == q / 2 * 2 + bit;
    MulDistributes(p, q / 2 * 2, bit);
    MulAssociative(q / 2, 2, p);
    DivModUnique(n, 2 * p, q / 2, r + bit * p);
  }
}
