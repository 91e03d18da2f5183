/** The unsigned bignum of the SRP handshake: base-2^32 limbs, least significant first, and never a
    zero limb on top. Every operation is specified by the value its limbs stand for. */
module BigUints {
  import opened Words
  import opened Power
  import opened LimbValue
  import opened ByteStrings

  datatype Ordering = Less | Equal | Greater

  datatype BigUint = BigUint(limbs: seq<u32>) {

    predicate Valid() {
      Trimmed(limbs)
    }

    function Value(): nat {
      Val(limbs)
    }

    predicate IsZero() {
      limbs == []
    }

    static method FromBytesBe(b: Bytes) returns (r: BigUint)
      ensures r.Valid() && r.Value() == BytesVal(b)
    {
      var limbs: seq<u32> := [];
      var i := |b|;
      while i > 0
        invariant 0 <= i <= |b|
        invariant i > 0 ==> |b| - i == 4 * |limbs|
        invariant Val(limbs) == BytesVal(b[i..])
      {
        var lo := if i < 4 then 0 else i - 4;
        var v := LimbOfBytes(b[lo..i]);
        assert b[lo..] == b[lo..i] + b[i..];
        BytesValConcat(b[lo..i], b[i..]);
        WeightInBytes(|limbs|);
        ValConcat(limbs, [v]);
        OneLimb(v);
        limbs := limbs + [v];
        i := lo;
      }
      assert b[0..] == b;
      r := Trim(limbs);
    }

    /** The minimal big-endian bytes, which is the form the hashes are taken over. */
    method ToBytesBe() returns (b: Bytes)
      requires Valid()
      ensures b == NatBytes(Value())
    {
      if limbs == [] {
        return [];
      }
      hide Val, Weight, Pow, BytesVal, Strip;
      ValEmpty();
      BytesEmpty();
      var out: Bytes := [];
      var k := |limbs|;
      while k > 0
        invariant 0 <= k <= |limbs|
        invariant BytesVal(out) == Val(limbs[k..])
      {
        AppendLimb(out, limbs[k - 1], limbs[k..]);
        assert limbs[k - 1..] == [limbs[k - 1]] + limbs[k..];
        out := out + U32Be(limbs[k - 1]);
        k := k - 1;
      }
      assert limbs[0..] == limbs;
      var first := 0;
      while first < |out| && out[first] == 0
        invariant first <= |out|
        invariant Strip(out[first..]) == Strip(out)
      {
        assert out[first..][1..] == out[first + 1..];
        StripStep(out[first..]);
        first := first + 1;
      }
      StripStep(out[first..]);
      StripIsNatBytes(out);
      b := out[first..];
    }

    static method Trim(limbs: seq<u32>) returns (r: BigUint)
      ensures r.Valid() && r.Value() == Val(limbs)
    {
      var s := limbs;
      while s != [] && s[|s| - 1] == 0
        invariant Val(s) == Val(limbs)
        decreases |s|
      {
        s := s[..|s| - 1];
      }
      r := BigUint(s);
    }

    /** The limb-wise comparison is the comparison of the values. */
    method Cmp(other: BigUint) returns (o: Ordering)
      requires Valid() && other.Valid()
      ensures o.Less? <==> Value() < other.Value()
      ensures o.Equal? <==> Value() == other.Value()
    {
      if |limbs| != |other.limbs| {
        if |limbs| < |other.limbs| {
          LongerIsLarger(limbs, other.limbs);
          return Less;
        }
        LongerIsLarger(other.limbs, limbs);
        return Greater;
      }
      var i := |limbs|;
      while i > 0
        invariant 0 <= i <= |limbs|
        invariant limbs[i..] == other.limbs[i..]
      {
        i := i - 1;
        if limbs[i] < other.limbs[i] {
          HighestDifferenceDecides(limbs, other.limbs, i);
          return Less;
        }
        if limbs[i] > other.limbs[i] {
          HighestDifferenceDecides(other.limbs, limbs, i);
          return Greater;
        }
        assert limbs[i..] == [limbs[i]] + limbs[i + 1..] && other.limbs[i..] == [other.limbs[i]] + other.limbs[i + 1..];
      }
      assert limbs == limbs[0..] && other.limbs == other.limbs[0..];
      return Equal;
    }

    /** `self - other`, which the callers only ask for with `self >= other`; below zero the borrow
        runs off the top limb and the result is the difference modulo 2^(32 n). */
    method Sub(other: BigUint) returns (r: BigUint)
      requires Valid() && other.Valid()
      ensures r.Valid()
      ensures Value() >= other.Value() ==> r.Value() == Value() - other.Value()
      ensures r.Value() == (Value() - LowValue(other.limbs, |limbs|)) % Weight(|limbs|)
    {
      var out: seq<u32> := [];
      var borrow: i64 := 0;
      for i := 0 to |limbs|
        invariant |out| == i && 0 <= borrow <= 1
        invariant Val(out) == Val(limbs[..i]) - LowValue(other.limbs, i) + borrow as int * Weight(i)
      {
        var d := limbs[i] as i64 - Limb(other.limbs, i) as i64 - borrow;
        var borrowOut: i64 := 0;
        if d < 0 {
          d := d + 0x1_0000_0000;
          borrowOut := 1;
        }
        ValExtend(limbs, i);
        LowValueExtend(other.limbs, i);
        ValConcat(out, [d as u32]);
        OneLimb(d as u32);
        BorrowStep(limbs[i] as int, Limb(other.limbs, i) as int, borrow as int, d as int, borrowOut as int, Weight(i));
        borrow := borrowOut;
        out := out + [d as u32];
      }
      assert limbs[..|limbs|] == limbs;
      ValBound(out);
      DivModUnique(Value() - LowValue(other.limbs, |limbs|), Weight(|limbs|), -borrow as int, Val(out));
      if Value() >= other.Value() {
        if |other.limbs| > |limbs| {
          LongerIsLarger(limbs, other.limbs);
        }
        assert other.limbs[..|other.limbs|] == other.limbs;
        NoBorrowLeft(Val(out), Value() - other.Value(), borrow as int, Weight(|limbs|));
      }
      r := Trim(out);
    }

    method Add(other: BigUint) returns (r: BigUint)
      requires Valid() && other.Valid()
      ensures r.Valid() && r.Value() == Value() + other.Value()
    {
      hide Val, Weight;
      ValEmpty();
      var n := (if |limbs| < |other.limbs| then |other.limbs| else |limbs|) + 1;
      var out := new u32[n];
      var carry: u64 := 0;
      for i := 0 to n
        invariant carry <= 1
        invariant Val(out[..i]) + carry as int * Weight(i) == LowValue(limbs, i) + LowValue(other.limbs, i)
        invariant i == n ==> carry == 0
      {
        var x, y := Limb(limbs, i), Limb(other.limbs, i);
        var s := x as u64 + y as u64 + carry;
        ghost var done := out[..i];
        out[i] := Low(s);
        ExtendArray(out, i, done);
        LowValueExtend(limbs, i);
        LowValueExtend(other.limbs, i);
        CarryStep(x as int + y as int, carry as int, Low(s) as int, High(s) as int, Weight(i));
        MulDistributes(Weight(i), x as int, y as int);
        WeightStep(i);
        carry := High(s);
      }
      assert out[..n] == out[..];
      assert limbs[..|limbs|] == limbs && other.limbs[..|other.limbs|] == other.limbs;
      r := Trim(out[..]);
    }

    /** Schoolbook multiplication, one pass over `other` for each limb of `self`. */
    method Mul(other: BigUint) returns (r: BigUint)
      requires Valid() && other.Valid()
      ensures r.Valid() && r.Value() == Value() * other.Value()
    {
      if IsZero() || other.IsZero() {
        return BigUint([]);
      }
      hide Val, Weight, Pow;
      ValEmpty();
      var n, k := |limbs|, |other.limbs|;
      var out := new u32[n + k](_ => 0);
      ValZeros(out[..k]);
      for i := 0 to n
        invariant Val(out[..i + k]) == Val(limbs[..i]) * other.Value()
        invariant AllZero(out[i + k..])
      {
        ghost var above := out[i + k + 1..];
        assert AllZero(above);
        MulPass(out, i, limbs[i], other.limbs);
        assert out[i + 1 + k..] == above && out[..i + 1 + k] == out[..i + k + 1];
        NextRow(limbs, i, other.Value(), Val(out[..i + 1 + k]));
      }
      assert out[..n + k] == out[..] && limbs[..n] == limbs;
      r := Trim(out[..]);
    }

    function Bits(): nat {
      if limbs == [] then 0 else (|limbs| - 1) * 32 + 32 - LeadingZeros(limbs[|limbs| - 1])
    }

    predicate Bit(i: nat) {
      i / 32 < |limbs| && Shr(limbs[i / 32], i % 32) % 2 == 1
    }
  }

  lemma {:induction false} WeightInBits(k: nat)
    ensures Weight(k) == Pow(2, 32 * k)
  {
    PowOfPow(2, 32, k);
    PowerOfTwo32();
  }

  /** `bit(i)` reads bit i of the value. */
  lemma BitOfValue(x: BigUint, i: nat)
    ensures Pow(2, i) > 0
    ensures x.Bit(i) <==> x.Value() / Pow(2, i) % 2 == 1
  {
    hide Val, Weight, Pow;
    var k := i / 32;
    PowPositive(2, i);
    if k < |x.limbs| {
      BitInside(x.limbs, i, k, i % 32);
      assert x.Bit(i) <==> Shr(x.limbs[k], i % 32) % 2 == 1;
    } else {
      ValBound(x.limbs);
      WeightInBits(|x.limbs|);
      PowMonotone(2, 32 * |x.limbs|, i);
      DivModUnique(x.Value(), Pow(2, i), 0, x.Value());
    }
  }

  lemma BitInside(s: seq<u32>, i: nat, k: nat, r: nat)
    requires k < |s| && r < 32 && i == 32 * k + r
    ensures Pow(2, i) > 0 && Val(s) / Pow(2, i) % 2 == Shr(s[k], r) as int % 2
  {
    hide Val, Weight, Pow;
    PowPositive(2, r);
    WeightInBits(k);
    PowAdd(2, 32 * k, r);
    ValSplit(s, k);
    ValBound(s[..k]);
    var h := Val(s[k..]);
    DivModUnique(Val(s), Weight(k), h, Val(s[..k]));
    DivDiv(Val(s), Weight(k), Pow(2, r));
    assert Pow(2, i) == Weight(k) * Pow(2, r);
    assert s[k..] == [s[k]] + s[k + 1..];
    ValCons(s[k], s[k + 1..]);
    PowAdd(2, r, 31 - r);
    PowerOfTwo31();
    EvenMultiple(h, s[k] as nat, Val(s[k + 1..]), Pow(2, r), Pow(2, 31 - r));
  }

  lemma EvenMultiple(h: nat, limb: nat, rest: nat, d: nat, e: nat)
    requires h == limb + BASE * rest && d > 0 && 2 * (d * e) == BASE
    ensures h / d % 2 == limb / d % 2
  {
    DivBasics(limb, d);
    var q, rem, x := limb / d, limb % d, e * rest;
    MulAssociative(d, e, rest);
    MulDistributes(d, q, 2 * x);
    DivModUnique(h, d, q + 2 * x, rem);
  }

  /** `bits()` is the length of the number in bits: none at or above it is set, and the one below is. */
  lemma BitsBound(x: BigUint)
    requires x.Valid()
    ensures x.Value() < Pow(2, x.Bits())
    ensures x.Value() > 0 ==> x.Bits() > 0 && Pow(2, x.Bits() - 1) <= x.Value()
  {
    if x.limbs != [] {
      hide Weight, Pow, Val, LeadingZeros;
      var n := |x.limbs| - 1;
      var top := x.limbs[n];
      var z := LeadingZeros(top);
      ValExtend(x.limbs, n);
      assert x.limbs[..n + 1] == x.limbs;
      ValBound(x.limbs[..n]);
      WeightInBits(n);
      PowAdd(2, 32 * n, 32 - z);
      PowAdd(2, 32 * n, 31 - z);
      PowAdd(2, z, 32 - z);
      PowAdd(2, 31 - z, 1);
      PowerOfTwo32();
      PowPositive(2, z);
      TwoIsPow();
      TopLimbBits(Val(x.limbs[..n]), top as nat, Weight(n), Pow(2, z), Pow(2, 32 - z));
      TopBitSet(Val(x.limbs[..n]), top as nat, Weight(n), Pow(2, z), Pow(2, 31 - z));
    } else {
      PowPositive(2, 0);
      ValEmpty();
    }
  }

  lemma TwoIsPow()
    ensures Pow(2, 1) == 2
  {
    assert Pow(2, 0) == 1;
  }

  lemma TopBitSet(low: int, top: int, w: int, e: int, d: int)
    requires 0 <= low && 0 <= w && e > 0 && e * (d * 2) == BASE && BASE <= 2 * (top * e)
    ensures w * d <= low + top * w
  {
    MulAssociative(e, d, 2);
    if top < d {
      MulStrict(top, d, e);
    }
    MulLeft(d, top, w);
  }

  lemma TopLimbBits(low: int, top: int, w: int, e: int, d: int)
    requires 0 <= low < w && e > 0 && e * d == BASE && top * e < BASE
    ensures low + top * w < w * d
  {
    if top >= d {
      MulLeft(d, top, e);
    }
    MulLeft(top + 1, d, w);
    MulDistributes(w, top, 1);
  }

  /** One pass: out[i..] += a * other * 2^(32 i), the final carry landing in a limb no pass has
      reached yet. */
  method MulPass(out: array<u32>, i: nat, a: u32, other: seq<u32>)
    requires i + |other| < out.Length
    modifies out
    ensures Val(out[..i + |other| + 1]) == old(Val(out[..i + |other|])) + a as int * Weight(i) * Val(other)
    ensures out[i + |other| + 1..] == old(out[i + |other| + 1..])
  {
    hide Val, Weight, MulAdd, Low, High;
    ValEmpty();
    var k := |other|;
    var carry: u64 := 0;
    ghost var before := out[..];
    for j := 0 to k
      invariant carry as int < BASE
      invariant Val(out[..i + j]) + carry as int * Weight(i + j) == Val(before[..i + j]) + a as int * Weight(i) * Val(other[..j])
      invariant out[i + j..] == before[i + j..]
    {
      var cur := MulAdd(out[i + j], a, other[j], carry);
      ghost var done := out[..i + j];
      MulAddCarry(out[i + j], a, other[j], carry);
      out[i + j] := Low(cur);
      ExtendArray(out, i + j, done);
      MulPassLimb(before, other, i, j, a, Val(done), carry as int, Low(cur) as int, High(cur) as int);
      carry := High(cur);
    }
    ghost var done := out[..i + k];
    out[i + k] := carry as u32;
    ExtendArray(out, i + k, done);
    assert other[..k] == other;
  }

  /** The invariant of a pass, one limb on. */
  lemma MulPassLimb(before: seq<u32>, other: seq<u32>, i: nat, j: nat, a: u32, done: int, carry: int, low: int, high: int)
    requires i + j < |before| && j < |other|
    requires done + carry * Weight(i + j) == Val(before[..i + j]) + a as int * Weight(i) * Val(other[..j])
    requires low + high * BASE == before[i + j] as int + a as int * other[j] as int + carry
    ensures done + low * Weight(i + j) + high * Weight(i + j + 1)
            == Val(before[..i + j + 1]) + a as int * Weight(i) * Val(other[..j + 1])
  {
    hide Val, Weight;
    ValExtend(before, i + j);
    ValExtend(other, j);
    WeightAdd(i, j);
    WeightStep(i + j);
    MulPassStep(before[i + j] as int, a as int, other[j] as int, carry, low, high, Weight(i), Weight(j), Val(other[..j]));
  }

  lemma NextRow(s: seq<u32>, i: nat, v: int, total: int)
    requires i < |s| && total == Val(s[..i]) * v + s[i] as int * Weight(i) * v
    ensures total == Val(s[..i + 1]) * v
  {
    ValExtend(s, i);
    MulDistributes(v, Val(s[..i]), s[i] as int * Weight(i));
  }

  /** Writing limb `k` of an array extends the value of its low limbs. */
  lemma ExtendArray(a: array<u32>, k: nat, done: seq<u32>)
    requires k < a.Length && a[..k] == done
    ensures Val(a[..k + 1]) == Val(done) + a[k] as int * Weight(k)
  {
    ValExtend(a[..], k);
    assert a[..][..k] == a[..k] && a[..][..k + 1] == a[..k + 1];
  }

  lemma WeightStep(k: nat)
    ensures Weight(k + 1) == BASE * Weight(k)
  {
  }

  lemma OneLimb(x: u32)
    ensures Val([x]) == x as nat
  {
    assert [x][..0] == [];
  }

  lemma {:induction false} WeightInBytes(k: nat)
    ensures Weight(k) == Pow(256, 4 * k)
  {
    PowOfPow(256, 4, k);
    assert Pow(256, 4) == BASE;
  }

  lemma AppendLimb(out: Bytes, x: u32, rest: seq<u32>)
    requires BytesVal(out) == Val(rest)
    ensures BytesVal(out + U32Be(x)) == Val([x] + rest)
  {
    BytesValConcat(out, U32Be(x));
    ValCons(x, rest);
    assert Pow(256, 4) == BASE;
  }

  /** `v = (v << 8) | byte` over at most four bytes. */
  method LimbOfBytes(b: Bytes) returns (v: u32)
    requires |b| <= 4
    ensures v as nat == BytesVal(b)
  {
    v := 0;
    for j := 0 to |b|
      invariant v as nat == BytesVal(b[..j])
    {
      ghost var front := b[..j];
      assert b[..j + 1][..j] == front;
      ByteShiftFits(front, v);
      ByteOr(v, b[j]);
      v := BitOr(Shl(v, 8) as nat, b[j] as nat) as u32;
    }
    assert b[..|b|] == b;
  }

  lemma ByteShiftFits(front: Bytes, v: u32)
    requires |front| <= 3 && v as nat == BytesVal(front)
    ensures v < 0x100_0000
  {
    BytesValBound(front);
    PowMonotone(256, |front|, 3);
    assert Pow(256, 3) == 0x100_0000;
  }

  lemma ByteOr(v: u32, byte: u8)
    requires v < 0x100_0000
    ensures BitOr(Shl(v, 8) as nat, byte as nat) == v as nat * 256 + byte as nat
  {
    hide BitOr, Pow;
    TwoToTheEighth();
    DivModUnique(v as int * 256, BASE, 0, v as int * 256);
    OrOfDisjoint(v as nat, byte as nat, 8);
  }

  lemma TwoToTheEighth()
    ensures Pow(2, 8) == 256
  {
  }

  /** The carry of a multiply-and-accumulate is again a word. */
  lemma MulAddCarry(acc: u32, a: u32, b: u32, carry: u64)
    requires carry as int < BASE
    ensures var cur := MulAdd(acc, a, b, carry);
            cur as int == Low(cur) as int + High(cur) as int * BASE && High(cur) as int < BASE
  {
  }

  lemma CarryStep(x: int, carry: int, low: int, high: int, w: int)
    requires x + carry == low + high * BASE
    ensures low * w + high * (BASE * w) == x * w + carry * w
  {
    MulAssociative(high, BASE, w);
    MulDistributes(w, x, carry);
    MulDistributes(w, low, high * BASE);
  }

  lemma BorrowStep(x: int, y: int, borrow: int, d: int, borrowOut: int, w: int)
    requires d == x - y - borrow + borrowOut * BASE
    ensures d * w == x * w - y * w - borrow * w + borrowOut * (BASE * w)
  {
    MulAssociative(borrowOut, BASE, w);
    MulDistributes(w, x - y - borrow, borrowOut * BASE);
    MulDistributes(w, x - y, borrow);
    MulDistributes(w, x, y);
  }

  lemma NoBorrowLeft(v: int, difference: int, borrow: int, w: int)
    requires 0 <= v < w && 0 <= difference && v == difference + borrow * w && 0 <= borrow <= 1
    ensures v == difference
  {
  }

  lemma MulPassStep(x: int, a: int, b: int, carry: int, low: int, high: int, wi: int, wj: int, rest: int)
    requires low + high * BASE == x + a * b + carry
    ensures low * (wi * wj) + high * (BASE * (wi * wj)) + a * wi * rest
         == x * (wi * wj) + carry * (wi * wj) + a * wi * (rest + b * wj)
  {
    var w := wi * wj;
    CarryStep(x + a * b, carry, low, high, w);
    MulDistributes(w, x, a * b);
    MulDistributes(a * wi, rest, b * wj);
    calc {
      (a * b) * w;
      { MulAssociative(a, b, w); MulAssociative(b, wi, wj); MulAssociative(wi, b, wj); }
      a * (wi * (b * wj));
      { MulAssociative(a, wi, b * wj); }
      a * wi * (b * wj);
    }
  }
}
