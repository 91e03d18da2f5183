/** What a sequence of base-2^32 limbs, least significant first, stands for. */
module LimbValue {
  import opened Words
  import opened Power

  /** The weight of limb `k`. */
  function Weight(k: nat): (w: nat)
    ensures w > 0
  {
    PowPositive(BASE, k);
    Pow(BASE, k)
  }

  function Val(s: seq<u32>): nat {
    if s == [] then 0 else Val(s[..|s| - 1]) + s[|s| - 1] as nat * Weight(|s| - 1)
  }

  /** No top zero limb: the one form a value has. */
  predicate Trimmed(s: seq<u32>) {
    s != [] ==> s[|s| - 1] != 0
  }

  predicate AllZero(s: seq<u32>) {
    forall i :: 0 <= i < |s| ==> s[i] == 0
  }

  /** The value of the low `k` limbs, with zeros past the end. */
  function LowValue(s: seq<u32>, k: nat): nat {
    Val(s[..if k < |s| then k else |s|])
  }

  /** Limb `i`, zero past the end: `*limbs.get(i).unwrap_or(&0)`. */
  function Limb(s: seq<u32>, i: nat): u32 {
    if i < |s| then s[i] else 0
  }

  lemma ValEmpty()
    ensures Val([]) == 0 && Weight(0) == 1
  {
  }

  lemma ValExtend(s: seq<u32>, i: nat)
    requires i < |s|
    ensures Val(s[..i + 1]) == Val(s[..i]) + s[i] as nat * Weight(i)
  {
    assert s[..i + 1][..i] == s[..i];
  }

  lemma LowValueExtend(s: seq<u32>, i: nat)
    ensures LowValue(s, i + 1) == LowValue(s, i) + Limb(s, i) as nat * Weight(i)
  {
    if i < |s| {
      ValExtend(s, i);
    }
  }

  lemma {:induction false} ValBound(s: seq<u32>)
    ensures Val(s) < Weight(|s|)
  {
    if s != [] {
      var n := |s| - 1;
      ValBound(s[..n]);
      MulLeft(s[n] as int, BASE - 1, Weight(n));
    }
  }

  lemma WeightAdd(i: nat, j: nat)
    ensures Weight(i + j) == Weight(i) * Weight(j)
  {
    PowAdd(BASE, i, j);
  }

  lemma Regroup(w: int, v: int, x: int, y: int)
    ensures w * (v + x * y) == w * v + x * (w * y)
  {
    MulDistributes(w, v, x * y);
    MulAssociative(x, w, y);
    MulAssociative(w, x, y);
  }

  lemma {:induction false} ValConcat(a: seq<u32>, b: seq<u32>)
    ensures Val(a + b) == Val(a) + Weight(|a|) * Val(b)
  {
    if b == [] {
      assert a + b == a;
    } else {
      var n := |b| - 1;
      assert (a + b)[..|a| + n] == a + b[..n];
      ValConcat(a, b[..n]);
      WeightAdd(|a|, n);
      Regroup(Weight(|a|), Val(b[..n]), b[n] as int, Weight(n));
    }
  }

  lemma ValCons(x: u32, s: seq<u32>)
    ensures Val([x] + s) == x as nat + BASE * Val(s)
  {
    ValConcat([x], s);
    assert [x][..0] == [];
    assert Weight(1) == BASE * Weight(0);
    MulLeft(Weight(1), BASE, Val(s));
    MulLeft(BASE, Weight(1), Val(s));
  }

  lemma ValSplit(s: seq<u32>, k: nat)
    requires k <= |s|
    ensures Val(s) == Val(s[..k]) + Weight(k) * Val(s[k..])
  {
    assert s == s[..k] + s[k..];
    ValConcat(s[..k], s[k..]);
  }

  lemma {:induction false} ValZeros(s: seq<u32>)
    requires AllZero(s)
    ensures Val(s) == 0
  {
    if s != [] {
      ValZeros(s[..|s| - 1]);
    }
  }

  /** A trimmed number of n limbs is at least 2^(32(n-1)). */
  lemma ValAtLeast(s: seq<u32>)
    requires s != [] && s[|s| - 1] != 0
    ensures Val(s) >= Weight(|s| - 1)
  {
    MulLeft(1, s[|s| - 1] as int, Weight(|s| - 1));
  }

  /** More limbs, larger number. */
  lemma LongerIsLarger(a: seq<u32>, b: seq<u32>)
    requires Trimmed(b) && |a| < |b|
    ensures Val(a) < Val(b)
  {
    ValBound(a);
    ValAtLeast(b);
    PowMonotone(BASE, |a|, |b| - 1);
  }

  /** The highest limb in which two numbers differ decides. */
  lemma HighestDifferenceDecides(a: seq<u32>, b: seq<u32>, i: nat)
    requires |a| == |b| && i < |a| && a[i] < b[i] && a[i + 1..] == b[i + 1..]
    ensures Val(a) < Val(b)
  {
    ValSplit(a, i + 1);
    ValSplit(b, i + 1);
    ValExtend(a, i);
    ValExtend(b, i);
    ValBound(a[..i]);
    MulStrict(a[i] as int, b[i] as int, Weight(i));
  }

  lemma {:induction false} SameLengthInjective(a: seq<u32>, b: seq<u32>)
    requires |a| == |b| && Val(a) == Val(b)
    ensures a == b
  {
    if a != [] {
      var n := |a| - 1;
      if a[n] < b[n] {
        HighestDifferenceDecides(a, b, n);
      } else if b[n] < a[n] {
        HighestDifferenceDecides(b, a, n);
      } else {
        SameLengthInjective(a[..n], b[..n]);
        assert a == a[..n] + [a[n]] && b == b[..n] + [b[n]];
      }
    }
  }

  lemma ZeroIsEmpty(s: seq<u32>)
    requires Trimmed(s)
    ensures Val(s) == 0 <==> s == []
  {
    if s != [] {
      ValAtLeast(s);
    }
  }
}
