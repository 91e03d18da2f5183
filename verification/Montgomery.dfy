/** One Montgomery multiplication in the CIOS form: a pass per limb of `a`, each adding a multiple of
    `b`, then a multiple of the modulus chosen to clear the bottom limb, which is shifted away. */
module Montgomery {
  import opened Words
  import opened Power
  import opened Congruence
  import opened LimbValue
  import opened BigUints

  /** `n0` is -1/m[0] modulo 2^32. */
  predicate NegInverse(n0: u32, m: seq<u32>) {
    m != [] && (n0 as int * m[0] as int + 1) % BASE == 0
  }

  /** t += ai * b, over the n + 2 limbs of the scratch buffer. */
  method MultiplyPass(t: array<u32>, ai: u32, b: array<u32>)
    requires t != b && t.Length == b.Length + 2
    modifies t
    ensures Val(t[..]) == old(Val(t[..b.Length + 1])) + ai as int * Val(b[..])
  {
    hide Val, Weight, Pow;
    ValEmpty();
    var n := b.Length;
    var carry: u64 := 0;
    ghost var before, bs := t[..], b[..];
    assert t[..0] == [] && before[..0] == [] && bs[..0] == [];
    for j := 0 to n
      invariant carry as int < BASE
      invariant Val(t[..j]) + carry as int * Weight(j) == Val(before[..j]) + ai as int * Val(bs[..j])
      invariant t[j..] == before[j..] && b[..] == bs
    {
      var cur := MulAdd(t[j], ai, b[j], carry);
      ghost var done := t[..j];
      assert t[j] == before[j] && b[j] == bs[j];
      t[j] := Low(cur);
      ExtendArray(t, j, done);
      ValExtend(before, j);
      ValExtend(bs, j);
      WeightStep(j);
      MultiplyStep(before[j] as int, ai as int, bs[j] as int, carry as int, Low(cur) as int, High(cur) as int, Weight(j), Val(bs[..j]));
      carry := High(cur);
    }
    var cur := t[n] as u64 + carry;
    ghost var done := t[..n];
    assert t[n] == before[n] && bs[..n] == bs;
    t[n] := Low(cur);
    t[n + 1] := High(cur) as u32;
    TwoMore(t[..], done, Low(cur), High(cur) as u32);
    TopOfMultiply(before, n, carry as int, Low(cur) as int, High(cur) as int);
    assert before[..n + 1] == old(t[..b.Length + 1]);
  }

  lemma TwoMore(t: seq<u32>, done: seq<u32>, x: u32, y: u32)
    requires t == done + [x, y]
    ensures Val(t) == Val(done) + x as int * Weight(|done|) + y as int * Weight(|done| + 1)
  {
    ValExtend(t, |done|);
    ValExtend(t, |done| + 1);
    assert t[..|done|] == done && t[..|done| + 2] == t;
  }

  lemma TopOfMultiply(before: seq<u32>, n: nat, carry: int, low: int, high: int)
    requires n < |before| && before[n] as int + carry == low + high * BASE
    ensures Val(before[..n]) + low * Weight(n) + high * Weight(n + 1) == Val(before[..n + 1]) + carry * Weight(n)
  {
    hide Val, Weight;
    ValExtend(before, n);
    WeightStep(n);
    CarryStep(before[n] as int, carry, low, high, Weight(n));
  }

  lemma MultiplyStep(x: int, a: int, y: int, carry: int, low: int, high: int, w: int, rest: int)
    requires low + high * BASE == x + a * y + carry
    ensures low * w + high * (BASE * w) + a * rest == x * w + carry * w + a * (rest + y * w)
  {
    CarryStep(x + a * y, carry, low, high, w);
    MulDistributes(w, x, a * y);
    MulDistributes(a, rest, y * w);
    MulAssociative(a, y, w);
  }

  /** The multiple of the modulus that clears the bottom limb. */
  lemma BottomLimbCleared(t0: u32, n0: u32, m: seq<u32>)
    requires NegInverse(n0, m)
    ensures (t0 as int + WrappingMul(t0, n0) as int * m[0] as int) % BASE == 0
  {
    var a, b, c := t0 as int, n0 as int, m[0] as int;
    var mp := WrappingMul(t0, n0) as int;
    CongMod(a * b, BASE);
    CongScale(mp, a * b, c, BASE);
    CongAdd(a, a, mp * c, a * b * c, BASE);
    MulAssociative(a, b, c);
    MulDistributes(a, b * c, 1);
    CongScale(b * c + 1, 0, a, BASE);
  }

  /** t := (t + mp * m) / 2^32. The bound on t is what keeps the new top limb at 0 or 1, so the
      addition that forms it cannot overflow. */
  method ReducePass(t: array<u32>, m: seq<u32>, n0: u32) returns (ghost mp: nat)
    requires NegInverse(n0, m) && t.Length == |m| + 2
    requires Val(t[..]) + (BASE - 1) * Val(m) < 2 * (BASE * Weight(|m|))
    modifies t
    ensures mp < BASE && BASE * Val(t[..|m| + 1]) == old(Val(t[..])) + mp * Val(m)
  {
    hide Val, Weight, Pow;
    ValEmpty();
    var n := |m|;
    var q := WrappingMul(t[0], n0);
    mp := q as nat;
    ghost var before := t[..];
    BottomLimbCleared(t[0], n0, m);
    var first := MulAdd(t[0], q, m[0], 0);
    var carry := High(first);
    FirstLimb(before, m, mp, Low(first) as int, carry as int);
    for j := 1 to n
      invariant carry as int < BASE
      invariant BASE * Val(t[..j - 1]) + carry as int * Weight(j) == Val(before[..j]) + mp * Val(m[..j])
      invariant t[j..] == before[j..]
    {
      var cur := MulAdd(t[j], q, m[j], carry);
      ghost var done := t[..j - 1];
      assert t[j] == before[j];
      t[j - 1] := Low(cur);
      ExtendArray(t, j - 1, done);
      ValExtend(before, j);
      ValExtend(m, j);
      WeightStep(j - 1);
      WeightStep(j);
      MultiplyStep(before[j] as int, mp, m[j] as int, carry as int, Low(cur) as int, High(cur) as int, Weight(j), Val(m[..j]));
      ShiftedDown(Low(cur) as int, Weight(j - 1));
      carry := High(cur);
    }
    assert t[n] == before[n] && t[n + 1] == before[n + 1] && m[..n] == m;
    var cur := t[n] as u64 + carry;
    ghost var done := t[..n - 1];
    TopOfReduce(before, n, BASE * Val(done), carry as int, mp, m, Low(cur) as int, High(cur) as int, Val(done));
    t[n - 1] := Low(cur);
    t[n] := t[n + 1] + High(cur) as u32;
    TwoMore(t[..n + 1], done, Low(cur), before[n + 1] + High(cur) as u32);
  }

  /** The last two limbs of a reduction, from the state the inner loop leaves. */
  lemma TopOfReduce(before: seq<u32>, n: nat, shifted: int, carry: int, mp: nat, m: seq<u32>, low: int, high: int, done: int)
    requires |before| == n + 2 && n == |m| > 0 && mp < BASE
    requires before[n] as int + carry == low + high * BASE && 0 <= low && 0 <= high && 0 <= done && shifted == BASE * done
    requires shifted + carry * Weight(n) == Val(before[..n]) + mp * Val(m)
    requires Val(before) + (BASE - 1) * Val(m) < 2 * (BASE * Weight(n))
    ensures before[n + 1] as int + high <= 1
    ensures BASE * (done + low * Weight(n - 1) + (before[n + 1] as int + high) * Weight(n)) == Val(before) + mp * Val(m)
  {
    hide Val, Weight;
    TopOfMultiply(before, n, carry, low, high);
    ValExtend(before, n + 1);
    assert before[..n + 2] == before;
    WeightStep(n - 1);
    WeightStep(n);
    MulLeft(mp, BASE - 1, Val(m));
    ShiftedDown(low, Weight(n - 1));
    TopLimbIsBit(done + low * Weight(n - 1), before[n + 1] as int, high, Weight(n), Val(before) + mp * Val(m));
  }

  lemma FirstLimb(before: seq<u32>, m: seq<u32>, mp: nat, low: int, carry: int)
    requires before != [] && m != [] && low + carry * BASE == before[0] as int + mp * m[0] as int && low % BASE == 0 && 0 <= low < BASE
    ensures carry * Weight(1) == Val(before[..1]) + mp * Val(m[..1])
  {
    OneLimb(before[0]);
    OneLimb(m[0]);
    assert before[..1] == [before[0]] && m[..1] == [m[0]];
    assert Weight(1) == BASE * Weight(0);
  }

  lemma ShiftedDown(low: int, w: int)
    ensures BASE * (low * w) == low * (BASE * w)
  {
    MulAssociative(low, BASE, w);
    MulAssociative(BASE, low, w);
  }

  lemma TopLimbIsBit(low: int, over: int, high: int, w: int, total: int)
    requires 0 <= low && w > 0 && 0 <= over && 0 <= high
    requires total == BASE * low + high * (BASE * w) + over * (BASE * w) && total < 2 * (BASE * w)
    ensures over + high <= 1 && BASE * (low + (over + high) * w) == total
  {
    MulDistributes(BASE * w, high, over);
    if over + high >= 2 {
      MulLeft(2, over + high, BASE * w);
    }
    ShiftedDown(over + high, w);
  }

  /** Whether the running value, n limbs and a top bit, has reached the modulus. */
  method ReachesModulus(t: array<u32>, m: seq<u32>) returns (ge: bool)
    requires t.Length > |m|
    ensures ge <==> Val(t[..|m| + 1]) >= Val(m)
  {
    hide Val, Weight, Pow;
    var n := |m|;
    ghost var low := t[..n];
    ExtendArray(t, n, low);
    ValBound(m);
    if t[n] != 0 {
      MulLeft(1, t[n] as int, Weight(n));
      return true;
    }
    var j := n;
    while j > 0
      invariant 0 <= j <= n
      invariant low[j..] == m[j..]
    {
      j := j - 1;
      if t[j] != m[j] {
        assert t[j] == low[j];
        if t[j] > m[j] {
          HighestDifferenceDecides(m, low, j);
          return true;
        } else {
          HighestDifferenceDecides(low, m, j);
          return false;
        }
      }
      assert low[j..] == [low[j]] + low[j + 1..] && m[j..] == [m[j]] + m[j + 1..];
    }
    assert low == low[0..] && m == m[0..];
    return true;
  }

  /** out := t - m, the borrow cancelling the top bit. */
  method SubtractModulus(t: array<u32>, m: seq<u32>, out: array<u32>)
    requires t != out && t.Length > |m| && out.Length == |m|
    requires Val(m) <= Val(t[..|m| + 1]) < 2 * Val(m)
    modifies out
    ensures Val(out[..]) == Val(t[..|m| + 1]) - Val(m)
  {
    hide Val, Weight, Pow;
    ValEmpty();
    var n := |m|;
    var borrow: i64 := 0;
    ghost var ts := t[..];
    assert out[..0] == [] && ts[..0] == [] && m[..0] == [];
    for j := 0 to n
      invariant 0 <= borrow <= 1 && t[..] == ts
      invariant Val(out[..j]) == Val(ts[..j]) - Val(m[..j]) + borrow as int * Weight(j)
    {
      var d := t[j] as i64 - m[j] as i64 - borrow;
      ghost var done := out[..j];
      out[j] := Wrap(d);
      ExtendArray(out, j, done);
      ValExtend(ts, j);
      ValExtend(m, j);
      WeightStep(j);
      BorrowStep(ts[j] as int, m[j] as int, borrow as int, Wrap(d) as int, if d < 0 then 1 else 0, Weight(j));
      borrow := if d < 0 then 1 else 0;
    }
    assert out[..n] == out[..] && m[..n] == m;
    ValExtend(ts, n);
    assert ts[..n + 1] == t[..n + 1];
    ValBound(out[..]);
    ValBound(m);
    BorrowCancels(Val(out[..]), Val(ts[..n]), Val(m), borrow as int, ts[n] as int, Weight(n));
  }

  lemma BorrowCancels(v: int, low: int, m: int, borrow: int, top: int, w: int)
    requires v == low - m + borrow * w && 0 <= v < w && m < w && 0 <= top
    requires m <= low + top * w < 2 * m
    ensures v == low + top * w - m
  {
    MulDistributes(w, top, borrow);
    if top > borrow {
      MulLeft(1, top - borrow, w);
    } else if top < borrow {
      MulLeft(1, borrow - top, w);
    }
  }

  /** The invariant of the passes: after i of them the running value times 2^(32 i) is the product of
      the low i limbs of `a` with `b`, up to `k` multiples of the modulus. */
  lemma PassStep(t: int, t': int, ai: int, b: int, mp: int, m: int, w: int, done: int, k: int)
    requires t * w == done * b + k * m && BASE * t' == t + ai * b + mp * m
    ensures t' * (BASE * w) == (done + ai * w) * b + (k + mp * w) * m
  {
    MulAssociative(t', BASE, w);
    MulDistributes(w, t + ai * b, mp * m);
    MulDistributes(w, t, ai * b);
    MulDistributes(b, done, ai * w);
    MulDistributes(m, k, mp * w);
    assert (ai * b) * w == (ai * w) * b;
    assert (mp * m) * w == (mp * w) * m;
  }

  /** A running value below 2m stays below 2m. */
  lemma StaysBelowTwice(t: int, t': int, ai: int, b: int, mp: int, m: int)
    requires 0 <= t < 2 * m && 0 <= ai < BASE && 0 <= b < m && 0 <= mp < BASE
    requires BASE * t' == t + ai * b + mp * m
    ensures t' < 2 * m
  {
    MulLeft(ai, BASE - 1, b);
    MulLeft(mp, BASE - 1, m);
  }

  lemma RoomForReduction(t: int, before: int, ai: int, b: int, m: int, w: int)
    requires t == before + ai * b && before < 2 * m && 0 <= ai < BASE && 0 <= b < m < w
    ensures t + (BASE - 1) * m < 2 * (BASE * w)
  {
    MulLeft(ai, BASE - 1, b);
  }

  /** One whole pass for limb `ai`: t := (t + ai * b + mp * m) / 2^32, which stays below 2m. */
  method Pass(t: array<u32>, ai: u32, b: array<u32>, m: seq<u32>, n0: u32) returns (ghost mp: nat)
    requires NegInverse(n0, m) && t != b && b.Length == |m| && t.Length == |m| + 2
    requires Val(b[..]) < Val(m) && Val(t[..|m| + 1]) < 2 * Val(m)
    modifies t
    ensures BASE * Val(t[..|m| + 1]) == old(Val(t[..|m| + 1])) + ai as int * Val(b[..]) + mp * Val(m)
    ensures Val(t[..|m| + 1]) < 2 * Val(m)
  {
    hide Val, Weight, Pow, NegInverse;
    ghost var before, bv := Val(t[..|m| + 1]), Val(b[..]);
    MultiplyPass(t, ai, b);
    ValBound(m);
    RoomForReduction(Val(t[..]), before, ai as int, bv, Val(m), Weight(|m|));
    mp := ReducePass(t, m, n0);
    StaysBelowTwice(before, Val(t[..|m| + 1]), ai as int, bv, mp, Val(m));
  }

  /** All the passes, from a cleared scratch buffer. */
  method Accumulate(a: array<u32>, b: array<u32>, m: seq<u32>, n0: u32, t: array<u32>) returns (ghost k: nat)
    requires NegInverse(n0, m)
    requires a.Length == b.Length == |m| && t.Length == |m| + 2 && t != a && t != b
    requires Val(b[..]) < Val(m)
    modifies t
    ensures Val(t[..|m| + 1]) < 2 * Val(m)
    ensures Val(t[..|m| + 1]) * Weight(|m|) == Val(a[..]) * Val(b[..]) + k * Val(m)
  {
    hide Val, Weight, Pow, NegInverse;
    ValEmpty();
    var n := |m|;
    ghost var as_, bs := a[..], b[..];
    k := 0;
    forall i | 0 <= i < t.Length {
      t[i] := 0;
    }
    ghost var low := t[..n + 1];
    assert a[..] == as_ && b[..] == bs && AllZero(low) && as_[..0] == [];
    ValZeros(low);
    for i := 0 to n
      invariant a[..] == as_ && b[..] == bs
      invariant Val(t[..n + 1]) < 2 * Val(m)
      invariant Val(t[..n + 1]) * Weight(i) == Val(as_[..i]) * Val(bs) + k * Val(m)
    {
      ghost var before := Val(t[..n + 1]);
      assert a[i] == as_[i];
      ghost var mp := Pass(t, a[i], b, m, n0);
      NextPass(as_, i, before, Val(t[..n + 1]), Val(bs), mp, Val(m), k);
      k := k + mp * Weight(i);
    }
    assert as_[..n] == as_;
  }

  lemma NextPass(a: seq<u32>, i: nat, t: int, t': int, b: int, mp: int, m: int, k: int)
    requires i < |a| && t * Weight(i) == Val(a[..i]) * b + k * m && BASE * t' == t + a[i] as int * b + mp * m
    ensures t' * Weight(i + 1) == Val(a[..i + 1]) * b + (k + mp * Weight(i)) * m
  {
    hide Val, Weight;
    ValExtend(a, i);
    WeightStep(i);
    PassStep(t, t', a[i] as int, b, mp, m, Weight(i), Val(a[..i]), k);
  }

  /** The one conditional subtraction that brings a value below 2m into range. */
  method Settle(t: array<u32>, m: seq<u32>, out: array<u32>)
    requires t != out && t.Length > |m| && out.Length == |m|
    requires Val(t[..|m| + 1]) < 2 * Val(m)
    modifies out
    ensures Val(out[..]) < Val(m)
    ensures Val(out[..]) == old(Val(t[..|m| + 1])) || Val(out[..]) == old(Val(t[..|m| + 1])) - Val(m)
  {
    hide Val, Weight, Pow;
    var n := |m|;
    ghost var ts := t[..];
    assert ts[..n + 1] == t[..n + 1];
    ValBound(m);
    var ge := ReachesModulus(t, m);
    if ge {
      SubtractModulus(t, m, out);
      assert t[..] == ts;
    } else {
      TopLimbZero(ts, n, Val(m));
      forall i | 0 <= i < n {
        out[i] := t[i];
      }
      assert out[..] == ts[..n];
    }
  }

  /** out = a * b / 2^(32 n) modulo m, fully reduced. */
  method MontMul(a: array<u32>, b: array<u32>, m: seq<u32>, n0: u32, t: array<u32>, out: array<u32>)
    requires NegInverse(n0, m)
    requires a.Length == b.Length == out.Length == |m| && t.Length == |m| + 2
    requires t != a && t != b && t != out && out != a && out != b
    requires Val(b[..]) < Val(m)
    modifies t, out
    ensures Val(out[..]) < Val(m)
    ensures Cong(Val(out[..]) * Weight(|m|), Val(a[..]) * Val(b[..]), Val(m))
  {
    hide Val, Weight, Pow, Cong, NegInverse;
    ghost var as_, bs := a[..], b[..];
    ghost var k := Accumulate(a, b, m, n0, t);
    ghost var running := Val(t[..|m| + 1]);
    Settle(t, m, out);
    assert a[..] == as_ && b[..] == bs;
    ReducedOnce(running, Val(out[..]), Val(as_) * Val(bs), k, Weight(|m|), Val(m));
  }

  lemma ReducedOnce(running: int, out: int, product: int, k: int, w: int, m: int)
    requires m > 0 && running * w == product + k * m && (out == running || out == running - m)
    ensures Cong(out * w, product, m)
  {
    if out == running {
      CongByMultiple(out * w, product, k, m);
    } else {
      MulDistributes(w, running, m);
      MulDistributes(m, k, w);
      CongByMultiple(out * w, product, k - w, m);
    }
  }

  lemma TopLimbZero(t: seq<u32>, n: nat, m: nat)
    requires n < |t| && Val(t[..n + 1]) < m <= Weight(n)
    ensures Val(t[..n]) == Val(t[..n + 1])
  {
    ValExtend(t, n);
    if t[n] != 0 {
      MulLeft(1, t[n] as int, Weight(n));
    }
  }
}
