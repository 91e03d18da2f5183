/** Modular exponentiation: plain square-and-multiply for any modulus, and the Montgomery domain for
    the odd moduli of two limbs or more. Both compute the same function of the three values. */
module ModPow {
  import opened Words
  import opened Power
  import opened Congruence
  import opened LimbValue
  import opened ByteStrings
  import opened BigUints
  import opened KnuthDivision
  import opened Montgomery

  method AddMod(x: BigUint, y: BigUint, m: BigUint) returns (r: BigUint)
    requires x.Valid() && y.Valid() && m.Valid()
    ensures r.Valid() && r.Value() == Reduce(x.Value() + y.Value(), m.Value())
  {
    var sum := x.Add(y);
    r := Rem(sum, m);
  }

  method MulMod(x: BigUint, y: BigUint, m: BigUint) returns (r: BigUint)
    requires x.Valid() && y.Valid() && m.Valid()
    ensures r.Valid() && x.Value() * y.Value() >= 0 && r.Value() == Reduce(x.Value() * y.Value(), m.Value())
  {
    var product := x.Mul(y);
    r := Rem(product, m);
  }

  /** `(x - y) mod m`, never negative. Modulo zero nothing is reduced, so there the difference is only
      right when it is not negative. */
  method SubMod(x: BigUint, y: BigUint, m: BigUint) returns (r: BigUint)
    requires x.Valid() && y.Valid() && m.Valid()
    ensures r.Valid()
    ensures m.Value() > 0 ==> r.Value() == (x.Value() - y.Value()) % m.Value()
    ensures m.Value() == 0 && x.Value() >= y.Value() ==> r.Value() == x.Value() - y.Value()
  {
    var a := Rem(x, m);
    var b := Rem(y, m);
    var order := a.Cmp(b);
    if order != Less {
      r := a.Sub(b);
    } else {
      var raised := a.Add(m);
      r := raised.Sub(b);
    }
    if m.Value() > 0 {
      var mv := m.Value();
      DivBasics(x.Value(), mv);
      DivBasics(y.Value(), mv);
      CongMod(x.Value(), mv);
      CongMod(y.Value(), mv);
      CongSub(a.Value(), x.Value(), b.Value(), y.Value(), mv);
      if order != Less {
        CongInRange(r.Value(), x.Value() - y.Value(), mv);
      } else {
        CongByMultiple(r.Value(), a.Value() - b.Value(), 1, mv);
        CongInRange(r.Value(), x.Value() - y.Value(), mv);
      }
    }
  }

  // ------------------------------------------------------------------ square and multiply

  /** Taking one more bit of the exponent into account. */
  lemma NextBit(base: nat, e: nat, i: nat)
    ensures Pow(2, i) > 0 && Pow(2, i + 1) > 0
    ensures Pow(base, e % Pow(2, i + 1))
         == if e / Pow(2, i) % 2 == 1 then Pow(base, e % Pow(2, i)) * Pow(base, Pow(2, i)) else Pow(base, e % Pow(2, i))
    ensures Pow(base, Pow(2, i + 1)) == Pow(base, Pow(2, i)) * Pow(base, Pow(2, i))
  {
    LowBits(e, i);
    DivBasics(e, Pow(2, i));
    PowAdd(base, e % Pow(2, i), Pow(2, i));
    PowAdd(base, Pow(2, i), Pow(2, i));
  }

  /** Past its last bit the exponent is complete. */
  lemma AllBits(e: nat, bits: nat)
    requires e < Pow(2, bits)
    ensures e % Pow(2, bits) == e
  {
    DivModUnique(e, Pow(2, bits), 0, e);
  }

  lemma FirstPowers(base: nat, e: nat)
    ensures Pow(2, 0) == 1 && e % Pow(2, 0) == 0 && Pow(base, e % Pow(2, 0)) == 1 && Pow(base, Pow(2, 0)) == base
  {
    assert Pow(base, 1) == base * Pow(base, 0);
  }

  method ModPowPlain(base: BigUint, exp: BigUint, m: BigUint) returns (r: BigUint)
    requires base.Valid() && exp.Valid() && m.Valid()
    ensures r.Valid() && r.Value() == Reduce(Pow(base.Value(), exp.Value()), m.Value())
  {
    hide Pow, Reduce, Val;
    ghost var g, e, mv := base.Value(), exp.Value(), m.Value();
    FirstPowers(g, e);
    var one := BigUint.FromBytesBe([1]);
    OneByte();
    r := RemReduce(one, m);
    var b := RemReduce(base, m);
    for i := 0 to exp.Bits()
      invariant r.Valid() && b.Valid()
      invariant Pow(2, i) > 0
      invariant r.Value() == Reduce(Pow(g, e % Pow(2, i)), mv)
      invariant b.Value() == Reduce(Pow(g, Pow(2, i)), mv)
    {
      NextBit(g, e, i);
      BitOfValue(exp, i);
      ReduceProduct(Pow(g, e % Pow(2, i)), Pow(g, Pow(2, i)), mv);
      ReduceProduct(Pow(g, Pow(2, i)), Pow(g, Pow(2, i)), mv);
      if exp.Bit(i) {
        var product := r.Mul(b);
        r := RemReduce(product, m);
      }
      var square := b.Mul(b);
      b := RemReduce(square, m);
    }
    BitsBound(exp);
    AllBits(e, exp.Bits());
  }

  method RemReduce(x: BigUint, m: BigUint) returns (r: BigUint)
    requires x.Valid() && m.Valid()
    ensures r.Valid() && r.Value() == Reduce(x.Value(), m.Value())
  {
    r := Rem(x, m);
  }

  // ------------------------------------------------------------------ the Montgomery domain

  /** -1/m0 modulo 2^32 by Newton's iteration: each of the five steps squares the modulus to which the
      inverse is right, 2, 4, 16, 256, 2^16, 2^32. */
  method NegInverseOf(m0: u32) returns (n0: u32)
    requires m0 % 2 == 1
    ensures (n0 as int * m0 as int + 1) % BASE == 0
  {
    var inv: u32 := 1;
    ghost var right: nat, cofactor: nat := 2, 0x8000_0000;
    for k := 0 to 5
      invariant right == [2, 4, 16, 0x100, 0x1_0000, BASE][k] && right * cofactor == BASE && cofactor > 0
      invariant Cong(m0 as int * inv as int, 1, right)
    {
      var next := WrappingMul(inv, WrappingSub(2, WrappingMul(m0, inv)));
      NewtonStep(m0, inv, next, right, if k == 4 then 1 else [0, 0x4000_0000, 0x1000_0000, 0x100_0000, 0x1_0000][k + 1]);
      inv := next;
      right, cofactor := right * right, if k == 4 then 1 else [0, 0x4000_0000, 0x1000_0000, 0x100_0000, 0x1_0000][k + 1];
    }
    n0 := WrappingSub(0, inv);
    var a, b := m0 as int, inv as int;
    CongMod(-b, BASE);
    CongScale(n0 as int, -b, a, BASE);
    CongSub(0, 0, a * b, 1, BASE);
    assert (-b) * a == 0 - a * b;
    CongAdd(n0 as int * a, -1, 1, 1, BASE);
  }

  lemma NewtonStep(m0: u32, inv: u32, next: u32, right: nat, cofactor: nat)
    requires right > 0 && cofactor > 0 && right * right * cofactor == BASE
    requires Cong(m0 as int * inv as int, 1, right)
    requires next == WrappingMul(inv, WrappingSub(2, WrappingMul(m0, inv)))
    ensures right * right > 0 && Cong(m0 as int * next as int, 1, right * right)
  {
    var a, b := m0 as int, inv as int;
    var s := WrappingSub(2, WrappingMul(m0, inv)) as int;
    MulLeft(1, right, right);
    CongMod(a * b, BASE);
    CongSub(2, 2, WrappingMul(m0, inv) as int, a * b, BASE);
    CongMod(2 - WrappingMul(m0, inv) as int, BASE);
    CongScale(s, 2 - a * b, b, BASE);
    CongMod(b * s, BASE);
    CongScale(next as int, b * (2 - a * b), a, BASE);
    CongDivisor(a * next as int, a * (b * (2 - a * b)), right * right, cofactor);
    var k := CongMultiple(a * b, 1, right);
    SquaredError(a, b, k, right);
    CongByMultiple(a * (b * (2 - a * b)), 1, -(k * k), right * right);
  }

  lemma SquaredError(a: int, b: int, k: int, right: int)
    requires a * b == 1 + k * right
    ensures a * (b * (2 - a * b)) == 1 + -(k * k) * (right * right)
  {
    var x := k * right;
    assert a * (b * (2 - a * b)) == (a * b) * (2 - a * b) by {
      MulAssociative(a, b, 2 - a * b);
    }
    assert (1 + x) * (1 - x) == 1 - x * x;
    assert x * x == (k * k) * (right * right) by {
      MulAssociative(k, right, x);
      MulAssociative(k, k, right * right);
      MulAssociative(right, k, right);
      MulAssociative(k, right, right);
    }
  }

  /** 2^(32 n) has an inverse modulo any odd m. */
  lemma WeightInvertible(n: nat, m: nat) returns (inverse: nat)
    requires m % 2 == 1
    ensures Cong(Weight(n) * inverse, 1, m)
  {
    hide Pow, Weight;
    var half := (m + 1) / 2;
    inverse := Pow(half, 32 * n);
    WeightInBits(n);
    PowOfProduct(2, half, 32 * n);
    CongByMultiple(m + 1, 1, 1, m);
    CongPow(m + 1, 1, 32 * n, m);
    PowOne(32 * n);
  }

  lemma OddLimbs(m: seq<u32>)
    requires m != [] && m[0] % 2 == 1
    ensures Val(m) % 2 == 1
  {
    hide Val;
    assert m == [m[0]] + m[1..];
    ValCons(m[0], m[1..]);
  }

  /** A product of two numbers of the domain, taken out once, is the domain form of the product. */
  lemma DomainProduct(x: int, y: int, a: int, b: int, out: int, w: int, inverse: int, m: int)
    requires m > 0 && Cong(a, x * w, m) && Cong(b, y * w, m) && Cong(out * w, a * b, m) && Cong(w * inverse, 1, m)
    ensures Cong(out, x * y * w, m)
  {
    CongMul(a, x * w, b, y * w, m);
    assert (x * w) * (y * w) == (x * y * w) * w by {
      MulAssociative(x, w, y * w);
      MulAssociative(w, y, w);
      MulAssociative(y, w, w);
      MulAssociative(x, y * w, w);
      MulAssociative(x, y, w);
    }
    CongCancel(out, x * y * w, w, inverse, m);
  }

  /** Multiplying by one leaves the domain. */
  lemma LeaveDomain(x: int, a: int, out: int, w: int, inverse: int, m: int)
    requires m > 0 && Cong(a, x * w, m) && Cong(out * w, a * 1, m) && Cong(w * inverse, 1, m) && 0 <= out < m
    ensures out == x % m
  {
    CongCancel(out, x, w, inverse, m);
    CongInRange(out, x, m);
  }

  /** The limbs of a number below m, padded to the modulus's length. */
  method Pad(v: BigUint, m: seq<u32>) returns (a: array<u32>)
    requires v.Valid() && Trimmed(m) && v.Value() < Val(m)
    ensures fresh(a) && a.Length == |m| && Val(a[..]) == v.Value()
  {
    hide Val, Weight;
    if |v.limbs| > |m| {
      LongerIsLarger(m, v.limbs);
    }
    var o := v.limbs;
    a := new u32[|m|](i requires 0 <= i => if i < |o| then o[i] else 0);
    ghost var zeros := a[|o|..];
    assert a[..] == o + zeros;
    ValConcat(o, zeros);
    ValZeros(zeros);
  }

  /** One step of the exponentiation in the domain. */
  method DomainMul(a: array<u32>, b: array<u32>, m: seq<u32>, n0: u32, t: array<u32>, out: array<u32>,
                   ghost x: int, ghost y: int, ghost inverse: nat)
    requires NegInverse(n0, m)
    requires a.Length == b.Length == out.Length == |m| && t.Length == |m| + 2
    requires t != a && t != b && t != out && out != a && out != b
    requires Val(b[..]) < Val(m)
    requires Cong(Val(a[..]), x * Weight(|m|), Val(m)) && Cong(Val(b[..]), y * Weight(|m|), Val(m))
    requires Cong(Weight(|m|) * inverse, 1, Val(m))
    modifies t, out
    ensures Val(out[..]) < Val(m) && Cong(Val(out[..]), x * y * Weight(|m|), Val(m))
  {
    hide Val, Weight, Pow, Cong, NegInverse;
    ghost var as_, bs := a[..], b[..];
    MontMul(a, b, m, n0, t, out);
    assert a[..] == as_ && b[..] == bs;
    DomainProduct(x, y, Val(as_), Val(bs), Val(out[..]), Weight(|m|), inverse, Val(m));
  }

  /** Entering the domain: two ordinary reductions. */
  method EnterDomain(base: BigUint, m: BigUint) returns (one: array<u32>, b: array<u32>)
    requires base.Valid() && m.Valid() && m.limbs != []
    ensures m.Value() > 0 && fresh(one) && fresh(b) && one != b && one.Length == b.Length == |m.limbs|
    ensures Val(one[..]) < m.Value() && Cong(Val(one[..]), Weight(|m.limbs|), m.Value())
    ensures Val(b[..]) < m.Value() && Cong(Val(b[..]), base.Value() * Weight(|m.limbs|), m.Value())
  {
    hide Val, Weight, Pow, Cong;
    var n := |m.limbs|;
    ZeroIsEmpty(m.limbs);
    var zeros := seq(n, i requires 0 <= i < n => 0 as u32);
    ValZeros(zeros);
    ValConcat(zeros, [1]);
    OneLimb(1);
    var rMod := Rem(BigUint(zeros + [1]), m);
    CongMod(Weight(n), m.Value());
    DivBasics(Weight(n), m.Value());
    var reduced := Rem(base, m);
    CongMod(base.Value(), m.Value());
    CongScale(reduced.Value(), base.Value(), Weight(n), m.Value());
    ValConcat(zeros, reduced.limbs);
    var shifted := BigUint.Trim(zeros + reduced.limbs);
    var baseMont := Rem(shifted, m);
    CongMod(shifted.Value(), m.Value());
    DivBasics(shifted.Value(), m.Value());
    CongTransitive(baseMont.Value(), shifted.Value(), base.Value() * Weight(n), m.Value());
    one := Pad(rMod, m.limbs);
    b := Pad(baseMont, m.limbs);
  }

  lemma CongTransitive(a: int, b: int, c: int, m: int)
    requires m > 0 && Cong(a, b, m) && Cong(b, c, m)
    ensures Cong(a, c, m)
  {
  }

  method ModPowOdd(base: BigUint, exp: BigUint, m: BigUint) returns (r: BigUint)
    requires base.Valid() && exp.Valid() && m.Valid() && |m.limbs| >= 2 && m.limbs[0] % 2 == 1
    ensures r.Valid() && m.Value() > 0 && r.Value() == Pow(base.Value(), exp.Value()) % m.Value()
  {
    hide Val, Weight, Pow, Cong;
    var n := |m.limbs|;
    ghost var g, e, mv, w := base.Value(), exp.Value(), m.Value(), Weight(n);
    OddLimbs(m.limbs);
    ghost var inverse := WeightInvertible(n, mv);
    FirstPowers(g, e);
    var n0 := NegInverseOf(m.limbs[0]);
    var cur, b := EnterDomain(base, m);
    var out := new u32[n];
    var t := new u32[n + 2];
    for i := 0 to exp.Bits()
      invariant cur.Length == b.Length == out.Length == n
      invariant cur != b && cur != out && b != out && t != cur && t != b && t != out
      invariant fresh(cur) && fresh(b) && fresh(out) && fresh(t)
      invariant Pow(2, i) > 0
      invariant Val(cur[..]) < mv && Cong(Val(cur[..]), Pow(g, e % Pow(2, i)) * w, mv)
      invariant Val(b[..]) < mv && Cong(Val(b[..]), Pow(g, Pow(2, i)) * w, mv)
    {
      NextBit(g, e, i);
      BitOfValue(exp, i);
      ghost var bs := b[..];
      if exp.Bit(i) {
        DomainMul(cur, b, m.limbs, n0, t, out, Pow(g, e % Pow(2, i)), Pow(g, Pow(2, i)), inverse);
        cur, out := out, cur;
        assert b[..] == bs;
      }
      ghost var curs := cur[..];
      DomainMul(b, b, m.limbs, n0, t, out, Pow(g, Pow(2, i)), Pow(g, Pow(2, i)), inverse);
      b, out := out, b;
      assert cur[..] == curs;
    }
    BitsBound(exp);
    AllBits(e, exp.Bits());
    r := FinishDomain(cur, m, n0, t, out, Pow(g, e), inverse);
  }

  /** Leaving the domain: one more multiplication, by one. */
  method FinishDomain(cur: array<u32>, m: BigUint, n0: u32, t: array<u32>, out: array<u32>, ghost x: nat, ghost inverse: nat)
    returns (r: BigUint)
    requires m.Valid() && |m.limbs| >= 2 && NegInverse(n0, m.limbs) && m.Value() > 0
    requires cur.Length == out.Length == |m.limbs| && t.Length == |m.limbs| + 2
    requires t != cur && t != out && out != cur
    requires Cong(Val(cur[..]), x * Weight(|m.limbs|), m.Value()) && Cong(Weight(|m.limbs|) * inverse, 1, m.Value())
    modifies t, out
    ensures r.Valid() && r.Value() == x % m.Value()
  {
    hide Val, Weight, Pow, Cong, NegInverse;
    var n := |m.limbs|;
    var one := new u32[n](i => if i == 0 then 1 else 0);
    ghost var zeros := one[1..];
    assert one[..] == [1] + zeros;
    ValZeros(zeros);
    ValCons(1, zeros);
    assert Val(one[..]) == 1;
    AboveOne(m.limbs);
    ghost var curs := cur[..];
    MontMul(cur, one, m.limbs, n0, t, out);
    assert cur[..] == curs && one[..] == [1] + zeros;
    LeaveDomain(x, Val(curs), Val(out[..]), Weight(n), inverse, m.Value());
    r := BigUint.Trim(out[..]);
  }

  lemma AboveOne(m: seq<u32>)
    requires Trimmed(m) && |m| >= 2
    ensures Val(m) > 1
  {
    ValAtLeast(m);
    PowMonotone(BASE, 1, |m| - 1);
    assert Weight(1) == BASE * Weight(0);
  }

  /** base^exp modulo m, for every base, exponent and modulus; with a modulus of zero, base^exp. */
  method Modpow(base: BigUint, exp: BigUint, m: BigUint) returns (r: BigUint)
    requires base.Valid() && exp.Valid() && m.Valid()
    ensures r.Valid() && r.Value() == Reduce(Pow(base.Value(), exp.Value()), m.Value())
  {
    if |m.limbs| >= 2 && m.limbs[0] % 2 == 1 {
      r := ModPowOdd(base, exp, m);
    } else {
      r := ModPowPlain(base, exp, m);
    }
  }
}
