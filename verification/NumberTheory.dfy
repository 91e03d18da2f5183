/** No number above one divides 2^n - 1 for n itself. This is what makes the exponent the client
    reduces modulo N, rather than modulo the order of the group, visible in the secret. */
module NumberTheory {
  import opened Power
  import opened Congruence

  predicate Divides(d: int, n: int)
    requires d > 0
  {
    n % d == 0
  }

  predicate LeastFactor(p: nat, n: nat) {
    p >= 2 && Divides(p, n) && forall d: int :: 2 <= d < p ==> !Divides(d, n)
  }

  lemma ALeastFactor(n: nat) returns (p: nat)
    requires n >= 2
    ensures LeastFactor(p, n) && p <= n
  {
    p := 2;
    while p < n && !Divides(p, n)
      invariant 2 <= p <= n
      invariant forall d: int :: 2 <= d < p ==> !Divides(d, n)
    {
      p := p + 1;
    }
  }

  predicate Distinct(f: seq<nat>) {
    forall a, b :: 0 <= a < b < |f| ==> f[a] != f[b]
  }

  /** p values in 1..p-1 cannot all differ. */
  lemma Pigeonhole(f: seq<nat>) returns (i: nat, j: nat)
    requires |f| >= 1 && forall k :: 0 <= k < |f| ==> 1 <= f[k] < |f|
    ensures i < j < |f| && f[i] == f[j]
  {
    if Distinct(f) {
      DistinctBelow(f, |f|);
    }
    i, j :| 0 <= i < j < |f| && f[i] == f[j];
  }

  lemma {:induction false} DistinctBelow(f: seq<nat>, m: nat)
    requires m >= 1 && Distinct(f) && forall k :: 0 <= k < |f| ==> 1 <= f[k] < m
    ensures |f| < m
  {
    if f != [] {
      assert 1 <= f[0] < m;
      if k :| 0 <= k < |f| && f[k] == m - 1 {
        DistinctBelow(f[..k] + f[k + 1..], m - 1);
      } else {
        DistinctBelow(f, m - 1);
      }
    }
  }

  /** Some power of two below 2^p is one modulo p, once 2^n is. */
  lemma SmallExponent(p: nat, n: nat) returns (d: nat)
    requires p >= 2 && p <= n && Cong(Pow(2, n), 1, p)
    ensures 1 <= d < p && Cong(Pow(2, d), 1, p)
  {
    hide Pow;
    var f := seq(p, k requires 0 <= k < p => Pow(2, k) % p);
    forall k | 0 <= k < |f| ensures 1 <= f[k] < |f| {
      NonzeroPower(p, n, k);
    }
    var i, j := Pigeonhole(f);
    d := j - i;
    EqualPowers(p, n, i, d);
  }

  lemma NonzeroPower(p: nat, n: nat, k: nat)
    requires p >= 2 && k <= n && Cong(Pow(2, n), 1, p)
    ensures 1 <= Pow(2, k) % p < p
  {
    hide Pow;
    DivBasics(Pow(2, k), p);
    PowAdd(2, k, n - k);
    DivModUnique(1, p, 0, 1);
    DivModUnique(0, p, 0, 0);
    if Pow(2, k) % p == 0 {
      CongScale(Pow(2, k), 0, Pow(2, n - k), p);
    }
  }

  lemma EqualPowers(p: nat, n: nat, i: nat, d: nat)
    requires p >= 2 && i + d <= n && Cong(Pow(2, n), 1, p) && Cong(Pow(2, i + d), Pow(2, i), p)
    ensures Cong(Pow(2, d), 1, p)
  {
    hide Pow, Cong;
    PowAdd(2, d, i);
    PowAdd(2, i, n - i);
    assert d + i == i + d && i + (n - i) == n;
    assert 1 * Pow(2, i) == Pow(2, i);
    CongCancel(Pow(2, d), 1, Pow(2, i), Pow(2, n - i), p);
  }

  lemma LeastExponent(p: nat, d0: nat) returns (d: nat)
    requires p >= 2 && d0 >= 1 && Cong(Pow(2, d0), 1, p)
    ensures 1 <= d <= d0 && Cong(Pow(2, d), 1, p)
    ensures forall e: nat :: 1 <= e < d ==> !Cong(Pow(2, e), 1, p)
  {
    d := 1;
    while d < d0 && !Cong(Pow(2, d), 1, p)
      invariant 1 <= d <= d0
      invariant forall e: nat :: 1 <= e < d ==> !Cong(Pow(2, e), 1, p)
    {
      d := d + 1;
    }
  }

  /** The least exponent divides every exponent. */
  lemma LeastExponentDivides(p: nat, d: nat, n: nat)
    requires p >= 2 && d >= 1 && Cong(Pow(2, d), 1, p) && Cong(Pow(2, n), 1, p)
    requires forall e: nat :: 1 <= e < d ==> !Cong(Pow(2, e), 1, p)
    ensures Divides(d, n)
  {
    hide Pow, Cong;
    DivBasics(n, d);
    var q, r := n / d, n % d;
    assert n == d * q + r;
    SplitExponent(p, d, q, r);
    OneTransitive(Pow(2, r), Pow(2, n), p);
  }

  lemma OneTransitive(a: int, b: int, m: int)
    requires m > 0 && Cong(a, b, m) && Cong(b, 1, m)
    ensures Cong(a, 1, m)
  {
  }

  lemma SplitExponent(p: nat, d: nat, q: nat, r: nat)
    requires p >= 1 && Cong(Pow(2, d), 1, p) && d * q + r >= 0
    ensures Cong(Pow(2, r), Pow(2, d * q + r), p)
  {
    hide Pow;
    PowAdd(2, d * q, r);
    PowOfPow(2, d, q);
    CongPow(Pow(2, d), 1, q, p);
    PowOne(q);
    CongScale(Pow(2, d * q), 1, Pow(2, r), p);
  }

  lemma NeverOneModuloItself(n: nat)
    requires n >= 2
    ensures Pow(2, n) % n != 1
  {
    hide Pow, Cong;
    if Pow(2, n) % n == 1 {
      var p := ALeastFactor(n);
      OneModuloFactor(Pow(2, n), n, p);
      var d0 := SmallExponent(p, n);
      var d := LeastExponent(p, d0);
      LeastExponentDivides(p, d, n);
      TwoIsNotOne(p);
      assert false;
    }
  }

  lemma OneModuloFactor(x: nat, n: nat, p: nat)
    requires n >= 2 && p >= 2 && Divides(p, n) && x % n == 1
    ensures Cong(x, 1, p)
  {
    hide Cong;
    FactorOf(n, p);
    RemainderOne(x, n);
    CongDivisor(x, 1, p, n / p);
  }

  lemma FactorOf(n: nat, p: nat)
    requires n >= 2 && p >= 2 && Divides(p, n)
    ensures n / p > 0 && p * (n / p) == n
  {
    DivBasics(n, p);
  }

  lemma RemainderOne(x: nat, n: nat)
    requires n >= 2 && x % n == 1
    ensures Cong(x, 1, n)
  {
    DivModUnique(1, n, 0, 1);
  }

  lemma TwoIsNotOne(p: nat)
    requires p >= 2
    ensures !Cong(Pow(2, 1), 1, p)
  {
    assert Pow(2, 1) == 2 * Pow(2, 0);
    if Cong(2, 1, p) {
      CongSub(2, 1, 1, 1, p);
      DivModUnique(1, p, 0, 1);
      DivModUnique(0, p, 0, 0);
    }
  }
}
