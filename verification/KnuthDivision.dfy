/** Remainder by limb-wise long division: algorithm D of Knuth, The Art of Computer Programming,
    section 4.3.1. The quotient itself is never stored; each digit is estimated from three limbs,
    multiplied out, and corrected by at most one add-back. */
module KnuthDivision {
  import opened Words
  import opened Power
  import opened Congruence
  import opened LimbValue
  import opened BigUints

  const HALF: int := 0x8000_0000

  // ------------------------------------------------------------------ the quotient digit

  function Min(x: int, y: int): int {
    if x < y then x else y
  }

  /** The digit estimate after its correction loop is the quotient of the top three limbs by the top
      two, capped at the largest digit. The cap is what the `qhat >= B` guard contributes: without it
      a dividend limb equal to the divisor's leaves an estimate of B or B + 1. */
  method EstimateDigit(u2: u32, u1: u32, u0: u32, v1: u32, v0: u32) returns (qhat: u64)
    requires v1 as int >= HALF && u2 <= v1
    ensures qhat as int == Min(BASE - 1, ((u2 as int * BASE + u1 as int) * BASE + u0 as int) / (v1 as int * BASE + v0 as int))
  {
    var num := u2 as u64 * 0x1_0000_0000 + u1 as u64;
    DivBasics(num as nat, v1 as nat);
    qhat := num / v1 as u64;
    var rhat := num % v1 as u64;
    ghost var top2, top3 := v1 as int * BASE + v0 as int, num as int * BASE + u0 as int;
    FirstEstimate(num as int, v1 as int, v0 as int, u0 as int, qhat as int, rhat as int);
    while qhat >= 0x1_0000_0000 || TooLarge(qhat as u32, v0, rhat as u32, u0)
      invariant num as int == qhat as int * v1 as int + rhat as int
      invariant rhat as int < BASE && qhat as int <= BASE + 1
      invariant NotTooSmall(qhat as int, top2, top3)
      decreases qhat
    {
      EstimateStep(num as int, v1 as int, v0 as int, u0 as int, qhat as int, rhat as int);
      qhat := qhat - 1;
      rhat := rhat + v1 as u64;
      if rhat >= 0x1_0000_0000 {
        RemainderTooLarge(num as int, v1 as int, v0 as int, u0 as int, qhat as int, rhat as int, u2 as int, u1 as int);
        DigitIsQuotient(qhat as int, top2, top3);
        return;
      }
    }
    EstimateTest(num as int, v1 as int, v0 as int, u0 as int, qhat as int, rhat as int);
    DigitIsQuotient(qhat as int, top2, top3);
  }

  /** `qhat * v[n - 2] > rhat * B + u[j + n - 2]`, which fits 64 bits once both are single limbs. */
  predicate TooLarge(qhat: u32, v0: u32, rhat: u32, u0: u32)
    ensures TooLarge(qhat, v0, rhat, u0) <==> qhat as int * v0 as int > rhat as int * BASE + u0 as int
  {
    MulAdd(0, qhat, v0, 0) > rhat as u64 * 0x1_0000_0000 + u0 as u64
  }

  /** No digit above the estimate is possible. */
  predicate NotTooSmall(qhat: int, top2: int, top3: int) {
    qhat >= BASE - 1 || (qhat + 1) * top2 > top3
  }

  lemma EstimateStep(num: int, v1: int, v0: int, u0: int, qhat: int, rhat: int)
    requires num == qhat * v1 + rhat && 0 <= qhat && 0 <= rhat && 0 <= u0 && 0 <= v0
    requires qhat >= BASE || qhat * v0 > rhat * BASE + u0
    ensures qhat > 0 && num == (qhat - 1) * v1 + (rhat + v1)
    ensures NotTooSmall(qhat - 1, v1 * BASE + v0, num * BASE + u0)
  {
    MulDistributes(v1, qhat, 1);
    EstimateTest(num, v1, v0, u0, qhat, rhat);
  }

  lemma FirstEstimate(num: int, v1: int, v0: int, u0: int, qhat: int, rhat: int)
    requires v1 >= HALF && 0 <= v0 && 0 <= u0 < BASE && 0 <= num < (v1 + 1) * BASE
    requires qhat == num / v1 && rhat == num % v1
    ensures num == qhat * v1 + rhat && 0 <= rhat < v1 && 0 <= qhat <= BASE + 1
    ensures NotTooSmall(qhat, v1 * BASE + v0, num * BASE + u0)
  {
    if qhat >= BASE + 2 {
      MulLeft(BASE + 2, qhat, v1);
    }
    MulDistributes(v1, qhat, 1);
    MulDistributes(qhat + 1, v1 * BASE, v0);
    MulAssociative(qhat + 1, v1, BASE);
    MulLeft(0, qhat + 1, v0);
  }

  /** The two-limb test compares the digit's product with the top three limbs. */
  lemma EstimateTest(num: int, v1: int, v0: int, u0: int, qhat: int, rhat: int)
    requires num == qhat * v1 + rhat
    ensures qhat * v0 > rhat * BASE + u0 <==> qhat * (v1 * BASE + v0) > num * BASE + u0
  {
    MulDistributes(qhat, v1 * BASE, v0);
    MulAssociative(qhat, v1, BASE);
  }

  /** Once the remainder outgrows a limb the test cannot fail any more, and the digit fits. */
  lemma RemainderTooLarge(num: int, v1: int, v0: int, u0: int, qhat: int, rhat: int, u2: int, u1: int)
    requires num == qhat * v1 + rhat && rhat >= BASE && v1 >= HALF && 0 <= v0 < BASE && u0 >= 0 && qhat >= 0
    requires num == u2 * BASE + u1 && u2 <= v1 && u1 < BASE
    ensures qhat < BASE && qhat * (v1 * BASE + v0) <= num * BASE + u0
  {
    if qhat >= BASE {
      MulLeft(BASE, qhat, v1);
    }
    MulLeft(qhat, BASE, v0);
    EstimateTest(num, v1, v0, u0, qhat, rhat);
  }

  lemma DigitIsQuotient(qhat: int, top2: int, top3: int)
    requires 0 <= qhat < BASE && top2 > 0 && 0 <= top3
    requires qhat * top2 <= top3
    requires NotTooSmall(qhat, top2, top3)
    ensures qhat == Min(BASE - 1, top3 / top2)
  {
    MulDistributes(top2, qhat, 1);
    if qhat == BASE - 1 {
      if top3 / top2 < qhat {
        MulStrict(top3 / top2, qhat, top2);
      }
    } else {
      DivModUnique(top3, top2, qhat, top3 - qhat * top2);
    }
  }

  /** The `qhat >= B` test is not redundant, and this is exactly when: the first estimate is B, and the
      two-limb test lets it through, for a window whose top two limbs equal the divisor's. */
  lemma CapDecidesExactly(u2: u32, u1: u32, u0: u32, v1: u32, v0: u32)
    requires v1 as int >= HALF && u2 as int * BASE + u1 as int <= v1 as int * BASE + v0 as int
    ensures var num := u2 as int * BASE + u1 as int;
            && num / v1 as int >= BASE
            && num / v1 as int * v0 as int <= num % v1 as int * BASE + u0 as int
            <==> u2 == v1 && u1 == v0 && v0 < v1
  {
    var num := u2 as int * BASE + u1 as int;
    var q, r := num / v1 as int, num % v1 as int;
    DivBasics(num, v1 as int);
    EstimateTest(num, v1 as int, v0 as int, u0 as int, q, r);
    if u2 == v1 && u1 == v0 && v0 < v1 {
      DivModUnique(num, v1 as int, BASE, v0 as int);
    } else if q >= BASE {
      CapElsewhere(num, v1 as int, v0 as int, u0 as int, q);
      if q == BASE {
        assert r == num - BASE * v1 as int;
      }
    }
  }

  lemma CapElsewhere(num: int, v1: int, v0: int, u0: int, q: int)
    requires v1 >= HALF && 0 <= num <= v1 * BASE + v0 && 0 <= v0 < BASE && 0 <= u0 < BASE && q >= BASE
    ensures q > BASE || num < v1 * BASE + v0 ==> q * (v1 * BASE + v0) > num * BASE + u0
  {
    var top2 := v1 * BASE + v0;
    MulLeft(BASE, q, top2);
    if q > BASE {
      MulLeft(BASE + 1, q, top2);
    }
  }

  /** The remainder of the top window comes first; the one below it is then the window the guard is
      there for. Dividing 2^127 by [1, 0, B/2], whatever the normalised numbers `u` and `v` are made of,
      the first step leaves its window as it was, and the second starts from a first estimate of B that
      the two-limb test lets through. */
  lemma CapIsReached(u: seq<u32>, v: seq<u32>, after: seq<u32>)
    requires |u| == 5 && |v| == 3 && |after| == 5
    requires var x: seq<u32>, m: seq<u32> := [0, 0, 0, 0x8000_0000], [1, 0, 0x8000_0000];
             var sh := LeadingZeros(m[2]);
             Val(u) == Val(x) * Pow(2, sh) && Val(v) == Val(m) * Pow(2, sh)
    requires Val(v) > 0 && Val(after[1..]) == Val(u[1..]) % Val(v) && after[..1] == u[..1]
    ensures after == u && v == [1, 0, 0x8000_0000]
    ensures var num, w := after[3] as int * BASE + after[2] as int, after[1] as int;
            && num / v[2] as int == BASE
            && num / v[2] as int * v[1] as int <= num % v[2] as int * BASE + w
  {
    hide Pow, Weight, Val;
    var m: seq<u32> := [1, 0, 0x8000_0000];
    assert LeadingZeros(m[2]) == 0;
    ShiftByNothing();
    SameLengthInjective(v, m);
    PaddedTop(u);
    assert u[1..] == [0, 0, 0x8000_0000, 0];
    AlreadyBelow(v);
    SameLengthInjective(after[1..], u[1..]);
    assert after == after[..1] + after[1..] && u == u[..1] + u[1..];
  }

  lemma ShiftByNothing()
    ensures Pow(2, 0) == 1
  {
  }

  lemma PaddedTop(u: seq<u32>)
    requires |u| == 5 && Val(u) == Val([0, 0, 0, 0x8000_0000])
    ensures u == [0, 0, 0, 0x8000_0000, 0]
  {
    hide Weight, Val;
    var x: seq<u32> := [0, 0, 0, 0x8000_0000];
    ValExtend(x + [0], 4);
    assert (x + [0])[..4] == x && (x + [0])[..5] == x + [0];
    SameLengthInjective(u, x + [0]);
  }

  /** B^2 * B/2 is one less than the divisor. */
  lemma AlreadyBelow(v: seq<u32>)
    requires v == [1, 0, 0x8000_0000]
    ensures Val(v) > 0 && Val([0, 0, 0x8000_0000, 0]) % Val(v) == Val([0, 0, 0x8000_0000, 0])
  {
    hide Weight, Val;
    var w: seq<u32> := [0, 0, 0x8000_0000, 0];
    ValExtend(w, 3);
    assert w[..4] == w && w[..3] == [0, 0, 0x8000_0000];
    ThreeLimbs([0, 0, 0x8000_0000]);
    ThreeLimbs(v);
    DivModUnique(Val(w), Val(v), 0, Val(w));
  }

  /** The estimated digit is the true digit or one more, whatever the limbs below the top ones are. */
  lemma EstimateAtMostOneTooLarge(w: int, v: int, top3: int, top2: int, lowW: int, lowV: int, p: int, qhat: int)
    requires w == lowW + p * top3 && 0 <= lowW < p
    requires v == lowV + p * top2 && 0 <= lowV < p
    requires top2 >= BASE && 0 <= top3 && 0 <= w < BASE * v
    requires qhat == Min(BASE - 1, top3 / top2)
    ensures 0 <= qhat < BASE && 0 <= w - qhat * v + v && w - qhat * v < v
  {
    DivBasics(top3, top2);
    NotBelow(w, v, top3, top2, lowW, lowV, p, qhat);
    NotAbove(w, v, top3, top2, lowW, lowV, p, qhat);
  }

  lemma NotAbove(w: int, v: int, top3: int, top2: int, lowW: int, lowV: int, p: int, qhat: int)
    requires w == lowW + p * top3 && 0 <= lowW < p && v == lowV + p * top2 && 0 <= lowV < p
    requires top2 >= BASE && 0 <= qhat < BASE && qhat * top2 <= top3
    ensures 0 <= w - qhat * v + v
  {
    MulDistributes(qhat, lowV, p * top2);
    MulAssociative(p, qhat, top2);
    MulAssociative(qhat, p, top2);
    MulLeft(qhat * top2, top3, p);
    MulLeft(qhat, BASE, lowV);
    MulLeft(BASE, top2, p);
    MulLeft(lowV, p, BASE);
  }

  lemma NotBelow(w: int, v: int, top3: int, top2: int, lowW: int, lowV: int, p: int, qhat: int)
    requires w == lowW + p * top3 && 0 <= lowW < p && v == lowV + p * top2 && 0 <= lowV < p
    requires 0 <= w < BASE * v && 0 <= top3 && top2 > 0 && qhat == Min(BASE - 1, top3 / top2)
    ensures 0 <= qhat && w - qhat * v < v && qhat * top2 <= top3
  {
    DivBasics(top3, top2);
    MulDistributes(v, qhat, 1);
    if qhat == BASE - 1 {
      MulLeft(qhat, top3 / top2, top2);
    } else {
      MulDistributes(top2, qhat, 1);
      MulLeft(top3 + 1, (qhat + 1) * top2, p);
      MulAssociative(p, qhat + 1, top2);
      MulAssociative(qhat + 1, p, top2);
      MulDistributes(qhat + 1, lowV, p * top2);
      MulLeft(0, qhat + 1, lowV);
    }
  }

  // ------------------------------------------------------------------ the window u[j..j+n+1]

  lemma ExtendWindow(a: array<u32>, j: nat, i: nat, done: seq<u32>)
    requires j + i < a.Length && a[j..j + i] == done
    ensures Val(a[j..j + i + 1]) == Val(done) + a[j + i] as int * Weight(i)
  {
    ValExtend(a[j..], i);
    assert a[j..][..i] == a[j..j + i] && a[j..][..i + 1] == a[j..j + i + 1];
  }

  /** u[j..j+n+1] -= qhat * v, reporting whether the true difference is negative. */
  method SubtractMultiple(u: array<u32>, j: nat, v: seq<u32>, qhat: u64) returns (negative: bool)
    requires j + |v| < u.Length && qhat as int < BASE
    modifies u
    ensures Val(u[j..j + |v| + 1]) == old(Val(u[j..j + |v| + 1])) - qhat as int * Val(v) + (if negative then Weight(|v| + 1) else 0)
    ensures u[..j] == old(u[..j]) && u[j + |v| + 1..] == old(u[j + |v| + 1..])
  {
    hide Val, Weight;
    ValEmpty();
    var n := |v|;
    var borrow: i64 := 0;
    var carry: u64 := 0;
    ghost var before := u[j..];
    assert u[j..j + 0] == [] && before[..0] == [] && v[..0] == [];
    for i := 0 to n
      invariant 0 <= borrow <= 1 && carry as int < BASE
      invariant Val(u[j..j + i]) == Val(before[..i]) - qhat as int * Val(v[..i]) + (borrow as int + carry as int) * Weight(i)
      invariant u[..j] == old(u[..j]) && u[j + i..] == before[i..]
    {
      var p := MulAdd(0, qhat as u32, v[i], carry);
      var t := u[i + j] as i64 - borrow - Low(p) as i64;
      ghost var done := u[j..j + i];
      assert u[i + j] == before[i];
      u[i + j] := Wrap(t);
      ExtendWindow(u, j, i, done);
      ValExtend(before, i);
      ValExtend(v, i);
      SubtractStep(before[i] as int, qhat as int, v[i] as int, carry as int, borrow as int, Low(p) as int, High(p) as int,
                   Wrap(t) as int, if t < 0 then 1 else 0, Weight(i), Val(v[..i]));
      WeightStep(i);
      carry := High(p);
      borrow := if t < 0 then 1 else 0;
    }
    var t := u[j + n] as i64 - carry as i64 - borrow;
    ghost var done := u[j..j + n];
    assert u[j + n] == before[n];
    u[j + n] := Wrap(t);
    negative := t < 0;
    ExtendWindow(u, j, n, done);
    ValExtend(before, n);
    assert v[..n] == v;
    assert before[..n + 1] == old(u[j..j + n + 1]);
    WeightStep(n);
    LastSubtractStep(before[n] as int, carry as int, borrow as int, Wrap(t) as int, if negative then 1 else 0, Weight(n));
  }

  lemma SubtractStep(x: int, q: int, y: int, carry: int, borrow: int, low: int, high: int, t: int, borrowOut: int, w: int, rest: int)
    requires low + high * BASE == q * y + carry
    requires t == x - borrow - low + borrowOut * BASE
    ensures (borrow + carry) * w + t * w - (borrowOut + high) * (BASE * w) + q * (rest + y * w) == x * w + q * rest
  {
    MulDistributes(q, rest, y * w);
    MulAssociative(q, y, w);
    MulAssociative(borrowOut + high, BASE, w);
    MulDistributes(w, q * y, carry);
    assert t == x - borrow - (q * y + carry) + (borrowOut + high) * BASE;
    MulDistributes(w, borrow, carry);
    MulDistributes(w, x - borrow - (q * y + carry), (borrowOut + high) * BASE);
    MulDistributes(w, x - borrow, q * y + carry);
    MulDistributes(w, x, borrow);
  }

  lemma LastSubtractStep(x: int, carry: int, borrow: int, t: int, borrowOut: int, w: int)
    requires t == x - carry - borrow + borrowOut * BASE
    ensures (borrow + carry) * w + t * w == x * w + borrowOut * (BASE * w)
  {
    MulAssociative(borrowOut, BASE, w);
    MulDistributes(w, x - carry - borrow, borrowOut * BASE);
    MulDistributes(w, x, carry + borrow);
  }

  /** u[j..j+n+1] += v; the carry out of the top limb is dropped. */
  method AddBack(u: array<u32>, j: nat, v: seq<u32>)
    requires j + |v| < u.Length
    modifies u
    ensures Val(u[j..j + |v| + 1]) == (old(Val(u[j..j + |v| + 1])) + Val(v)) % Weight(|v| + 1)
    ensures u[..j] == old(u[..j]) && u[j + |v| + 1..] == old(u[j + |v| + 1..])
  {
    hide Val, Weight;
    ValEmpty();
    var n := |v|;
    var carry: u64 := 0;
    ghost var before := u[j..];
    assert u[j..j + 0] == [] && before[..0] == [] && v[..0] == [];
    for i := 0 to n
      invariant carry <= 1
      invariant Val(u[j..j + i]) + carry as int * Weight(i) == Val(before[..i]) + Val(v[..i])
      invariant u[..j] == old(u[..j]) && u[j + i..] == before[i..]
    {
      var sum := u[i + j] as u64 + v[i] as u64 + carry;
      ghost var done := u[j..j + i];
      assert u[i + j] == before[i];
      u[i + j] := Low(sum);
      ExtendWindow(u, j, i, done);
      ValExtend(before, i);
      ValExtend(v, i);
      CarryStep(before[i] as int + v[i] as int, carry as int, Low(sum) as int, High(sum) as int, Weight(i));
      MulDistributes(Weight(i), before[i] as int, v[i] as int);
      WeightStep(i);
      carry := High(sum);
    }
    var top := u[j + n] as u64 + carry;
    ghost var done := u[j..j + n];
    assert u[j + n] == before[n];
    u[j + n] := Low(top);
    ExtendWindow(u, j, n, done);
    ValExtend(before, n);
    assert v[..n] == v;
    assert before[..n + 1] == old(u[j..j + n + 1]);
    WeightStep(n);
    ValBound(u[j..j + n + 1]);
    CarryDropped(before[n] as int, carry as int, Low(top) as int, High(top) as int, Weight(n), Val(done), Val(u[j..j + n + 1]),
                 Val(before[..n + 1]) + Val(v));
  }

  lemma CarryDropped(x: int, carry: int, low: int, high: int, w: int, done: int, after: int, sum: int)
    requires x + carry == low + high * BASE && w > 0
    requires sum == done + carry * w + x * w && after == done + low * w && 0 <= after < BASE * w
    ensures after == sum % (BASE * w)
  {
    CarryStep(x, carry, low, high, w);
    DivModUnique(sum, BASE * w, high, after);
  }

  /** The divisor the step works with: at least two limbs, the top one with its high bit set. */
  predicate Normalised(v: seq<u32>) {
    |v| >= 2 && v[|v| - 1] as int >= HALF
  }

  /** One digit of the division: the window is replaced by its remainder. Nothing else moves. */
  method DivideStep(u: array<u32>, j: nat, v: seq<u32>)
    requires Normalised(v) && j + |v| < u.Length
    requires Val(u[j + 1..j + |v| + 1]) < Val(v)
    modifies u
    ensures Val(v) > 0 && Val(u[j..j + |v| + 1]) == old(Val(u[j..j + |v| + 1])) % Val(v)
    ensures u[..j] == old(u[..j]) && u[j + |v| + 1..] == old(u[j + |v| + 1..])
  {
    hide Val, Weight;
    var n := |v|;
    ghost var w := u[j..j + n + 1];
    assert w[1..] == u[j + 1..j + n + 1];
    assert w[n] == u[j + n] && w[n - 1] == u[j + n - 1] && w[n - 2] == u[j + n - 2];
    TopLimbBelow(w, v);
    var qhat := EstimateDigit(u[j + n], u[j + n - 1], u[j + n - 2], v[n - 1], v[n - 2]);
    WindowDigit(w, v, qhat as int);
    var negative := SubtractMultiple(u, j, v, qhat);
    ghost var difference := Val(w) - qhat as int * Val(v);
    ValBound(u[j..j + n + 1]);
    ValBound(v);
    WeightStep(n);
    assert negative <==> difference < 0;
    if negative {
      AddBack(u, j, v);
      DivModUnique(difference + Weight(n + 1) + Val(v), Weight(n + 1), 1, difference + Val(v));
      MulDistributes(Val(v), qhat as int, 1);
      DivModUnique(Val(w), Val(v), qhat as int - 1, difference + Val(v));
    } else {
      DivModUnique(Val(w), Val(v), qhat as int, difference);
    }
  }

  lemma TopLimbBelow(w: seq<u32>, v: seq<u32>)
    requires |w| == |v| + 1 && |v| >= 2 && Val(w[1..]) < Val(v)
    ensures w[|v|] <= v[|v| - 1]
  {
    if w[|v|] > v[|v| - 1] {
      HighestDifferenceDecides(v, w[1..], |v| - 1);
    }
  }

  lemma WindowDigit(w: seq<u32>, v: seq<u32>, qhat: int)
    requires Normalised(v) && |w| == |v| + 1 && Val(w[1..]) < Val(v)
    requires var n := |v|;
             qhat == Min(BASE - 1, ((w[n] as int * BASE + w[n - 1] as int) * BASE + w[n - 2] as int) / (v[n - 1] as int * BASE + v[n - 2] as int))
    ensures 0 <= qhat < BASE && 0 <= Val(w) - qhat * Val(v) + Val(v) && Val(w) - qhat * Val(v) < Val(v)
  {
    hide Val, Weight;
    var k := |v| - 2;
    ValSplit(w, k);
    ThreeLimbs(w[k..]);
    ValSplit(v, k);
    TwoLimbs(v[k..]);
    ValBound(w[..k]);
    ValBound(v[..k]);
    BelowBaseTimes(w, Val(v));
    EstimateAtMostOneTooLarge(Val(w), Val(v), Val(w[k..]), Val(v[k..]), Val(w[..k]), Val(v[..k]), Weight(k), qhat);
  }

  lemma BelowBaseTimes(w: seq<u32>, v: nat)
    requires w != [] && Val(w[1..]) < v
    ensures Val(w) < BASE * v
  {
    ValSplit(w, 1);
    ValBound(w[..1]);
    assert Weight(1) == BASE;
  }

  lemma TwoLimbs(s: seq<u32>)
    requires |s| == 2
    ensures Val(s) == s[1] as int * BASE + s[0] as int
  {
    OneLimb(s[0]);
    assert s[..1] == [s[0]];
    assert Weight(0) == 1 && Weight(1) == BASE * Weight(0);
  }

  lemma ThreeLimbs(s: seq<u32>)
    requires |s| == 3
    ensures Val(s) == (s[2] as int * BASE + s[1] as int) * BASE + s[0] as int
  {
    TwoLimbs(s[..2]);
    assert Weight(0) == 1 && Weight(1) == BASE * Weight(0) && Weight(2) == BASE * Weight(1);
  }

  // ------------------------------------------------------------------ the whole division

  /** The remainder of a whole dividend, by one step per limb from the top. */
  method DivideAll(u: array<u32>, v: seq<u32>)
    requires Normalised(v) && u.Length >= |v| + 1
    requires Val(u[u.Length - |v|..]) < Val(v)
    modifies u
    ensures Val(v) > 0 && Val(u[..]) == old(Val(u[..])) % Val(v)
  {
    hide Val, Weight;
    var n := |v|;
    ghost var u0 := u[..];
    var j := u.Length - n;
    DivModUnique(Val(u[j..]), Val(v), 0, Val(u[j..]));
    while j > 0
      invariant 0 <= j <= u.Length - n
      invariant Val(u[j..]) == Val(u0[j..]) % Val(v)
      invariant u[..j] == u0[..j] && |u0| == u.Length
    {
      j := j - 1;
      BringDown(u[..], u0, j, v);
      assert u[..][j + 1..j + n + 1] == u[j + 1..j + n + 1] && u[..][j..j + n + 1] == u[j..j + n + 1];
      assert u[..][j + n + 1..] == u[j + n + 1..];
      DivideStep(u, j, v);
      assert u[..][j + n + 1..] == u[j + n + 1..];
      WindowIsSuffix(u[..], j, n);
      assert u[..][j..] == u[j..] && u[..][j..j + n + 1] == u[j..j + n + 1];
    }
    assert u[0..] == u[..] && u0[0..] == u0;
  }

  /** A remainder below the divisor occupies no limb above the divisor's. */
  lemma NothingAboveWindow(s: seq<u32>, v: seq<u32>)
    requires |v| <= |s| && Val(s) < Val(v)
    ensures Val(s[|v|..]) == 0 && Val(s[..|v|]) == Val(s)
  {
    hide Val, Weight;
    ValSplit(s, |v|);
    ValBound(v);
    if Val(s[|v|..]) > 0 {
      MulLeft(1, Val(s[|v|..]), Weight(|v|));
    }
  }

  lemma WindowIsSuffix(u: seq<u32>, j: nat, n: nat)
    requires j + n + 1 <= |u| && Val(u[j + n + 1..]) == 0
    ensures Val(u[j..]) == Val(u[j..j + n + 1])
  {
    ValSplit(u[j..], n + 1);
    assert u[j..][..n + 1] == u[j..j + n + 1] && u[j..][n + 1..] == u[j + n + 1..];
  }

  /** The window a step works on: the limbs above it are spent, its upper n limbs are below the
      divisor, and it is congruent to everything of the dividend from limb j up. */
  lemma BringDown(u: seq<u32>, u0: seq<u32>, j: nat, v: seq<u32>)
    requires |u| == |u0| && j + |v| < |u| && Val(v) > 0 && u[..j + 1] == u0[..j + 1]
    requires Val(u[j + 1..]) == Val(u0[j + 1..]) % Val(v)
    ensures Val(u[j + 1..j + |v| + 1]) < Val(v) && Val(u[j + |v| + 1..]) == 0
    ensures Val(u[j..j + |v| + 1]) % Val(v) == Val(u0[j..]) % Val(v)
  {
    hide Val, Weight;
    var above := u[j + 1..];
    DivBasics(Val(u0[j + 1..]), Val(v));
    assert Val(above) < Val(v);
    WindowAbove(u, j, v);
    assert u[j] == u[..j + 1][j] && u0[j] == u0[..j + 1][j];
    assert u[j..] == [u0[j]] + above;
    assert u0[j..] == [u0[j]] + u0[j + 1..];
    RemainderOfCons(u0[j], above, u0[j + 1..], Val(v));
  }

  lemma WindowAbove(u: seq<u32>, j: nat, v: seq<u32>)
    requires j + |v| < |u| && Val(u[j + 1..]) < Val(v)
    ensures Val(u[j + 1..j + |v| + 1]) < Val(v) && Val(u[j + |v| + 1..]) == 0
    ensures Val(u[j..j + |v| + 1]) == Val(u[j..])
  {
    hide Val;
    var above := u[j + 1..];
    NothingAboveWindow(above, v);
    var window, over := u[j + 1..j + |v| + 1], u[j + |v| + 1..];
    assert window == above[..|v|];
    assert over == above[|v|..];
    WindowIsSuffix(u, j, |v|);
  }

  /** Bringing down a limb: only the remainder of what is above it matters. */
  lemma RemainderOfCons(x: u32, reduced: seq<u32>, full: seq<u32>, v: nat)
    requires v > 0 && Val(reduced) == Val(full) % v
    ensures Val([x] + reduced) % v == Val([x] + full) % v
  {
    ValCons(x, reduced);
    ValCons(x, full);
    OnlyRemainderMatters(x as int, Val(reduced), Val(full), v, Val([x] + reduced), Val([x] + full));
  }

  lemma OnlyRemainderMatters(x: int, reduced: int, full: int, v: int, a: int, b: int)
    requires v > 0 && reduced == full % v && a == x + BASE * reduced && b == x + BASE * full
    ensures a % v == b % v
  {
    CongMod(full, v);
    CongScale(reduced, full, BASE, v);
    CongAdd(x, x, BASE * reduced, BASE * full, v);
  }

  // ------------------------------------------------------------------ normalisation

  function ShiftedLimb(src: seq<u32>, sh: nat, i: nat): nat
    requires i < |src| && sh <= 32
  {
    if i == 0 then Shl(src[0], sh) as nat else BitOr(Shl(src[i], sh) as nat, Shr(src[i - 1], 32 - sh) as nat)
  }

  /** dst = src << sh, in the low limbs; the bits leaving the top are the caller's. */
  method ShiftInto(dst: array<u32>, src: seq<u32>, sh: nat)
    requires 0 < sh < 32 && 0 < |src| <= dst.Length
    modifies dst
    ensures Val(dst[..|src|]) + Shr(src[|src| - 1], 32 - sh) as int * Weight(|src|) == Val(src) * Pow(2, sh)
    ensures dst[|src|..] == old(dst[|src|..])
  {
    var i := |src| - 1;
    while i > 0
      invariant 0 <= i < |src|
      invariant forall k :: i < k < |src| ==> dst[k] as nat == ShiftedLimb(src, sh, k)
      invariant dst[|src|..] == old(dst[|src|..])
    {
      ShiftedLimbSum(src, sh, i);
      dst[i] := BitOr(Shl(src[i], sh) as nat, Shr(src[i - 1], 32 - sh) as nat) as u32;
      i := i - 1;
    }
    dst[0] := Shl(src[0], sh);
    ShiftedValue(src, dst[..|src|], sh, |src|);
    assert src[..|src|] == src && dst[..|src|][..|src|] == dst[..|src|];
  }

  /** A limb shifted left, split at the limb boundary. */
  lemma ShiftSplit(x: u32, sh: nat)
    requires sh <= 32
    ensures x as int * Pow(2, sh) == Shl(x, sh) as int + Shr(x, 32 - sh) as int * BASE
    ensures Shr(x, 32 - sh) as int < Pow(2, sh)
    ensures Pow(2, 32 - sh) > 0 && Shl(x, sh) as int == x as int % Pow(2, 32 - sh) * Pow(2, sh)
  {
    PowAdd(2, 32 - sh, sh);
    PowerOfTwo32();
    PowPositive(2, 32 - sh);
    SplitAt(x as int, Pow(2, 32 - sh), Pow(2, sh));
    assert Shl(x, sh) as int == x as int % Pow(2, 32 - sh) * Pow(2, sh);
  }

  /** Multiplying by e moves the part above d = BASE / e out of the word. */
  lemma SplitAt(x: nat, d: nat, e: nat)
    requires d > 0 && d * e == BASE && x < BASE
    ensures (x * e) % BASE == x % d * e && x / d < e && x * e == x % d * e + x / d * BASE
  {
    DivBasics(x, d);
    SplitParts(x, x / d, x % d, d, e);
    DivModUnique(x * e, BASE, x / d, x % d * e);
  }

  lemma SplitParts(x: int, q: int, r: int, d: int, e: int)
    requires x == q * d + r && 0 <= r < d && d * e == BASE && 0 <= x < BASE
    ensures x * e == q * BASE + r * e && 0 <= r * e < BASE && q < e
  {
    MulDistributes(e, q * d, r);
    MulAssociative(q, d, e);
    if e <= 0 {
      MulLeft(0, -e, d);
    }
    MulStrict(r, d, e);
    MulLeft(0, r, e);
    if q >= e {
      MulLeft(e, q, d);
    }
  }

  lemma ShiftedLimbSum(src: seq<u32>, sh: nat, i: nat)
    requires 0 < i < |src| && sh <= 32
    ensures ShiftedLimb(src, sh, i) == Shl(src[i], sh) as nat + Shr(src[i - 1], 32 - sh) as nat
    ensures ShiftedLimb(src, sh, i) < BASE
  {
    ShiftSplit(src[i], sh);
    ShiftSplit(src[i - 1], sh);
    var k := src[i] as int % Pow(2, 32 - sh);
    OrOfDisjoint(k, Shr(src[i - 1], 32 - sh) as nat, sh);
    PowAdd(2, 32 - sh, sh);
    PowerOfTwo32();
    SumBelow(k, Shr(src[i - 1], 32 - sh) as nat, Pow(2, 32 - sh), Pow(2, sh));
  }

  lemma SumBelow(k: int, low: int, d: int, e: int)
    requires 0 <= k < d && 0 <= low < e
    ensures k * e + low < d * e
  {
    MulStrict(k, d, e);
  }

  lemma {:induction false} ShiftedValue(src: seq<u32>, dst: seq<u32>, sh: nat, k: nat)
    requires 0 < sh < 32 && 0 < k <= |src| == |dst|
    requires forall i :: 0 <= i < |src| ==> dst[i] as nat == ShiftedLimb(src, sh, i)
    ensures Val(dst[..k]) + Shr(src[k - 1], 32 - sh) as int * Weight(k) == Val(src[..k]) * Pow(2, sh)
  {
    var i := k - 1;
    ValExtend(src, i);
    ValExtend(dst, i);
    ShiftSplit(src[i], sh);
    WeightStep(i);
    if i > 0 {
      ShiftedValue(src, dst, sh, i);
      ShiftedLimbSum(src, sh, i);
      ShiftedStep(Val(src[..i]), Val(dst[..i]), src[i] as int, Shl(src[i], sh) as int, Shr(src[i], 32 - sh) as int,
                  Shr(src[i - 1], 32 - sh) as int, Weight(i), Pow(2, sh));
    } else {
      ShiftedStep(0, 0, src[0] as int, Shl(src[0], sh) as int, Shr(src[0], 32 - sh) as int, 0, Weight(0), Pow(2, sh));
    }
  }

  lemma ShiftedStep(s: int, t: int, x: int, low: int, high: int, below: int, w: int, e: int)
    requires t + below * w == s * e && x * e == low + high * BASE
    ensures t + (low + below) * w + high * (BASE * w) == (s + x * w) * e
  {
    MulDistributes(w, low, below);
    MulDistributes(e, s, x * w);
    MulAssociative(high, BASE, w);
    MulDistributes(w, low, high * BASE);
    MulAssociative(x, w, e);
    MulAssociative(x, e, w);
  }

  /** The low n limbs of u, shifted right in place. */
  method ShiftOutOf(u: array<u32>, n: nat, sh: nat)
    requires 0 < sh < 32 && 0 < n <= u.Length
    modifies u
    ensures Pow(2, sh) > 0 && Val(u[..n]) == old(Val(u[..n])) / Pow(2, sh)
  {
    ghost var before := u[..];
    for i := 0 to n - 1
      invariant forall k :: 0 <= k < i ==> u[k] as nat == LoweredLimb(before, sh, k)
      invariant u[i..] == before[i..]
    {
      LoweredLimbSum(before, sh, i);
      assert u[i] == before[i] && u[i + 1] == before[i + 1];
      u[i] := BitOr(Shl(u[i + 1], 32 - sh) as nat, Shr(u[i], sh) as nat) as u32;
    }
    assert u[n - 1] == before[n - 1];
    u[n - 1] := Shr(u[n - 1], sh);
    LoweredWhole(before[..n], u[..n], sh);
    assert before[..n] == old(u[..n]);
  }

  function LoweredLimb(s: seq<u32>, sh: nat, i: nat): nat
    requires i + 1 < |s| && sh <= 32
  {
    BitOr(Shl(s[i + 1], 32 - sh) as nat, Shr(s[i], sh) as nat)
  }

  lemma ModIsDropped(x: u32, sh: nat)
    requires sh <= 32
    ensures Pow(2, sh) > 0
    ensures Shl(x, 32 - sh) as int * Pow(2, sh) == x as int % Pow(2, sh) * BASE
    ensures Shr(x, sh) as int * Pow(2, sh) == x as int - x as int % Pow(2, sh)
    ensures Shr(x, sh) as int < Pow(2, 32 - sh)
    ensures Shl(x, 32 - sh) as int == x as int % Pow(2, sh) * Pow(2, 32 - sh)
  {
    ShiftSplit(x, 32 - sh);
    PowPositive(2, sh);
    PowAdd(2, sh, 32 - sh);
    PowerOfTwo32();
    DivBasics(x as nat, Pow(2, sh));
    DroppedParts(x as int, x as int / Pow(2, sh), x as int % Pow(2, sh), Pow(2, sh), Pow(2, 32 - sh));
  }

  lemma DroppedParts(x: int, q: int, r: int, e: int, d: int)
    requires x == q * e + r && e * d == BASE
    ensures r * d * e == r * BASE && q * e == x - r
  {
    MulAssociative(r, d, e);
  }

  lemma LoweredLimbSum(s: seq<u32>, sh: nat, i: nat)
    requires i + 1 < |s| && sh <= 32
    ensures LoweredLimb(s, sh, i) == Shl(s[i + 1], 32 - sh) as nat + Shr(s[i], sh) as nat
    ensures LoweredLimb(s, sh, i) < BASE
  {
    ModIsDropped(s[i + 1], sh);
    ModIsDropped(s[i], sh);
    var k := s[i + 1] as int % Pow(2, sh);
    OrOfDisjoint(k, Shr(s[i], sh) as nat, 32 - sh);
    PowAdd(2, sh, 32 - sh);
    PowerOfTwo32();
    SumBelow(k, Shr(s[i], sh) as nat, Pow(2, sh), Pow(2, 32 - sh));
  }

  lemma {:induction false} LoweredValue(s: seq<u32>, t: seq<u32>, sh: nat, k: nat)
    requires 0 < sh < 32 && k < |s| == |t|
    requires forall i :: 0 <= i < |s| - 1 ==> t[i] as nat == LoweredLimb(s, sh, i)
    ensures Pow(2, sh) > 0
    ensures Val(t[..k]) * Pow(2, sh) + s[0] as int % Pow(2, sh) == Val(s[..k]) + s[k] as int % Pow(2, sh) * Weight(k)
  {
    PowPositive(2, sh);
    if k > 0 {
      var i := k - 1;
      LoweredValue(s, t, sh, i);
      ValExtend(s, i);
      ValExtend(t, i);
      LoweredLimbSum(s, sh, i);
      ModIsDropped(s[i], sh);
      ModIsDropped(s[k], sh);
      WeightStep(i);
      LoweredStep(Val(s[..i]), Val(t[..i]), s[i] as int, Shl(s[k], 32 - sh) as int, Shr(s[i], sh) as int,
                  s[i] as int % Pow(2, sh), s[k] as int % Pow(2, sh), s[0] as int % Pow(2, sh), Weight(i), Pow(2, sh));
    }
  }

  lemma LoweredStep(s: int, t: int, x: int, high: int, low: int, r: int, next: int, first: int, w: int, e: int)
    requires t * e + first == s + r * w && high * e == next * BASE && low * e == x - r
    ensures (t + (high + low) * w) * e + first == s + x * w + next * (BASE * w)
  {
    MulDistributes(e, t, (high + low) * w);
    MulAssociative(high + low, w, e);
    MulAssociative(high + low, e, w);
    MulDistributes(e, high, low);
    MulDistributes(w, next * BASE, x - r);
    MulDistributes(w, x, r);
    MulAssociative(next, BASE, w);
  }

  lemma LoweredWhole(s: seq<u32>, t: seq<u32>, sh: nat)
    requires 0 < sh < 32 && 0 < |s| == |t|
    requires forall i :: 0 <= i < |s| - 1 ==> t[i] as nat == LoweredLimb(s, sh, i)
    requires t[|s| - 1] == Shr(s[|s| - 1], sh)
    ensures Pow(2, sh) > 0 && Val(t) == Val(s) / Pow(2, sh)
  {
    hide Val, Weight, Pow, LoweredLimb, Shr;
    var n := |s| - 1;
    assert s[..n + 1] == s && t[..n + 1] == t;
    ValExtend(s, n);
    ValExtend(t, n);
    LoweredValue(s, t, sh, n);
    ModIsDropped(s[n], sh);
    LoweredTop(Val(s[..n]), Val(t[..n]), s[n] as int, t[n] as int, s[n] as int % Pow(2, sh), s[0] as int % Pow(2, sh),
               Weight(n), Pow(2, sh), Val(s), Val(t));
    DivBasics(s[0] as nat, Pow(2, sh));
    DivModUnique(Val(s), Pow(2, sh), Val(t), s[0] as int % Pow(2, sh));
  }

  lemma LoweredTop(s: int, t: int, x: int, low: int, r: int, first: int, w: int, e: int, wholeS: int, wholeT: int)
    requires t * e + first == s + r * w && low * e == x - r
    requires wholeS == s + x * w && wholeT == t + low * w
    ensures wholeS == wholeT * e + first
  {
    MulDistributes(e, t, low * w);
    MulAssociative(low, w, e);
    MulAssociative(low, e, w);
    MulDistributes(w, x, r);
  }

  /** Scaling dividend and divisor by the same factor scales the remainder. */
  lemma ScaledRemainder(x: nat, m: nat, e: nat)
    requires m > 0 && e > 0
    ensures m * e > 0 && (x * e) % (m * e) == x % m * e && (x % m * e) / e == x % m
  {
    var q, r := x / m, x % m;
    MulLeft(1, m, e);
    assert x == q * m + r;
    MulDistributes(e, q * m, r);
    MulAssociative(q, m, e);
    MulStrict(r, m, e);
    MulLeft(0, r, e);
    DivModUnique(x * e, m * e, q, r * e);
    DivModUnique(r * e, e, r, 0);
  }

  // ------------------------------------------------------------------ rem

  /** `x mod m`, and `x` itself when `m` is zero. */
  method Rem(x: BigUint, m: BigUint) returns (r: BigUint)
    requires x.Valid() && m.Valid()
    ensures r.Valid()
    ensures m.Value() == 0 ==> r == x
    ensures m.Value() > 0 ==> r.Value() == x.Value() % m.Value()
  {
    ZeroIsEmpty(m.limbs);
    var order := x.Cmp(m);
    if m.limbs == [] || order == Less {
      if m.limbs != [] {
        DivModUnique(x.Value(), m.Value(), 0, x.Value());
      }
      return x;
    }
    if |m.limbs| == 1 {
      r := RemByOneLimb(x, m.limbs[0]);
      OneLimb(m.limbs[0]);
      assert m.limbs == [m.limbs[0]];
      return;
    }
    r := RemByMany(x, m);
  }

  method RemByOneLimb(x: BigUint, d: u32) returns (r: BigUint)
    requires x.Valid() && d > 0
    ensures r.Valid() && r.Value() == x.Value() % d as nat
  {
    hide Val, Weight, Pow, BitOr;
    ValEmpty();
    var rem: u64 := 0;
    var k := |x.limbs|;
    assert x.limbs[k..] == [];
    DivModUnique(0, d as int, 0, 0);
    while k > 0
      invariant 0 <= k <= |x.limbs|
      invariant rem as int == Val(x.limbs[k..]) % d as int
    {
      var l := x.limbs[k - 1];
      ghost var above, whole := x.limbs[k..], x.limbs[k - 1..];
      assert whole == [l] + above;
      ValCons(l, above);
      var joined := JoinLimbs(rem, l);
      OnlyRemainderMatters(l as int, rem as int, Val(above), d as int, joined as int, Val(whole));
      rem := Low(joined % d as u64) as u64;
      k := k - 1;
    }
    assert x.limbs[0..] == x.limbs;
    OneLimb(rem as u32);
    r := BigUint.Trim([rem as u32]);
  }

  /** `(r << 32) | l`. */
  function JoinLimbs(r: u64, l: u32): (joined: u64)
    requires r as int < BASE
    ensures joined as int == r as int * BASE + l as int
  {
    PowerOfTwo32();
    OrOfDisjoint(r as nat, l as nat, 32);
    BitOr(r as nat * BASE, l as nat) as u64
  }

  method RemByMany(x: BigUint, m: BigUint) returns (r: BigUint)
    requires x.Valid() && m.Valid() && |m.limbs| >= 2 && x.Value() >= m.Value()
    ensures r.Valid() && m.Value() > 0 && r.Value() == x.Value() % m.Value()
  {
    hide Val, Weight;
    if |x.limbs| < |m.limbs| {
      LongerIsLarger(x.limbs, m.limbs);
    }
    var n := |m.limbs|;
    var sh := LeadingZeros(m.limbs[n - 1]);
    var u, v := Normalise(x.limbs, m.limbs);
    TopWindowBelow(u[..], v, x.limbs, sh);
    assert u[..][u.Length - n..] == u[u.Length - n..];
    DivideAll(u, v);
    ValAtLeast(m.limbs);
    PowPositive(2, sh);
    ScaledRemainder(x.Value(), m.Value(), Pow(2, sh));
    DivBasics(x.Value() * Pow(2, sh), Val(v));
    NothingAboveWindow(u[..], v);
    assert u[..][..n] == u[..n];
    if sh != 0 {
      ShiftOutOf(u, n, sh);
    }
    r := BigUint.Trim(u[..n]);
  }

  /** Both numbers shifted left so that the divisor's top limb has its high bit set; the dividend
      gets one more limb for what leaves its top. */
  method Normalise(x: seq<u32>, m: seq<u32>) returns (u: array<u32>, v: seq<u32>)
    requires |m| >= 2 && m[|m| - 1] != 0 && x != []
    ensures fresh(u) && u.Length == |x| + 1 && |v| == |m| && Normalised(v)
    ensures var sh := LeadingZeros(m[|m| - 1]);
            Val(u[..]) == Val(x) * Pow(2, sh) && Val(v) == Val(m) * Pow(2, sh)
  {
    var n, ulen := |m|, |x|;
    var sh := LeadingZeros(m[n - 1]);
    u := new u32[ulen + 1](_ => 0);
    v := m;
    ghost var low: seq<u32>;
    if sh == 0 {
      forall i | 0 <= i < ulen {
        u[i] := x[i];
      }
      low := x;
      assert u[..ulen] == low;
      assert Pow(2, 0) == 1;
    } else {
      var vbuf := new u32[n];
      ShiftInto(vbuf, m, sh);
      v := vbuf[..];
      assert vbuf[..n] == v;
      NormalisedDivisor(m, v, sh);
      ShiftInto(u, x, sh);
      low := u[..ulen];
      u[ulen] := Shr(x[ulen - 1], 32 - sh);
      assert u[..ulen] == low;
    }
    ExtendArray(u, ulen, low);
    assert u[..ulen + 1] == u[..];
  }

  /** Shifted by its leading zeros the divisor keeps its length and gets its high bit set. */
  lemma NormalisedDivisor(m: seq<u32>, v: seq<u32>, sh: nat)
    requires |m| >= 2 && m[|m| - 1] != 0 && 0 < sh < 32 && sh == LeadingZeros(m[|m| - 1])
    requires |v| == |m| && Val(v) + Shr(m[|m| - 1], 32 - sh) as int * Weight(|m|) == Val(m) * Pow(2, sh)
    ensures Normalised(v) && Val(v) == Val(m) * Pow(2, sh)
  {
    hide Val, Weight, Pow, Shl, Shr, LeadingZeros;
    var n := |m| - 1;
    NoOverflow(m[n], sh);
    assert Val(v) == Val(m) * Pow(2, sh);
    ValExtend(v, n);
    ValExtend(m, n);
    assert v[..n + 1] == v && m[..n + 1] == m;
    ValBound(v[..n]);
    TopLimbHigh(Val(v[..n]), v[n] as int, Val(m[..n]), m[n] as int, Pow(2, sh), Weight(n), Val(v), Val(m));
  }

  lemma NoOverflow(x: u32, sh: nat)
    requires sh < 32 && x as int * Pow(2, sh) < BASE
    ensures Shr(x, 32 - sh) == 0
  {
    ShiftSplit(x, sh);
  }

  lemma TopLimbHigh(low: int, top: int, rest: int, mtop: int, e: int, w: int, v: int, m: int)
    requires v == low + top * w && m == rest + mtop * w && v == m * e && low < w && 0 <= rest && e > 0 && w > 0 && mtop * e >= HALF
    ensures top >= HALF
  {
    MulDistributes(e, rest, mtop * w);
    MulAssociative(mtop, w, e);
    MulAssociative(mtop, e, w);
    MulLeft(HALF, mtop * e, w);
    MulLeft(0, rest, e);
    if top < HALF {
      MulLeft(top + 1, HALF, w);
      MulDistributes(w, top, 1);
    }
  }

  /** Before the first digit the top n limbs of the shifted dividend are already below the divisor. */
  lemma TopWindowBelow(u: seq<u32>, v: seq<u32>, x: seq<u32>, sh: nat)
    requires Normalised(v) && |v| <= |x| && |u| == |x| + 1 && sh < 32
    requires Val(u) == Val(x) * Pow(2, sh)
    ensures Val(u[|u| - |v|..]) < Val(v)
  {
    hide Val, Weight, Pow;
    ExtensionLimb(u, x, sh);
    SmallerTopLimb(u[|u| - |v|..], v);
  }

  lemma SmallerTopLimb(s: seq<u32>, v: seq<u32>)
    requires |s| == |v| > 0 && s[|v| - 1] < v[|v| - 1]
    ensures Val(s) < Val(v)
  {
    HighestDifferenceDecides(s, v, |v| - 1);
  }

  lemma ExtensionLimb(u: seq<u32>, x: seq<u32>, sh: nat)
    requires |u| == |x| + 1 && sh < 32 && Val(u) == Val(x) * Pow(2, sh)
    ensures (u[|x|] as int) < HALF
  {
    PowPositive(2, sh);
    ValBound(x);
    PowMonotone(2, sh, 31);
    PowerOfTwo31();
    var e, w := Pow(2, sh), Weight(|x|);
    assert Val(u) == Val(u[..|x|]) + u[|x|] as int * w;
    ExtensionLimbSmall(Val(u[..|x|]), u[|x|] as int, Val(x), e, w, Val(u));
  }

  lemma ExtensionLimbSmall(low: int, top: int, x: int, e: int, w: int, whole: int)
    requires whole == low + top * w && whole == x * e && 0 <= low && 0 <= x < w && 0 < e <= HALF
    ensures top < HALF
  {
    MulStrict(x, w, e);
    MulLeft(e, HALF, w);
    if top >= HALF {
      MulLeft(HALF, top, w);
    }
  }
}
