/** Byte strings read as big-endian numbers, and the minimal byte string of a number. */
module ByteStrings {
  import opened Words
  import opened Power

  type Bytes = seq<u8>

  function BytesVal(b: Bytes): nat {
    if b == [] then 0 else BytesVal(b[..|b| - 1]) * 256 + b[|b| - 1] as nat
  }

  /** The minimal big-endian form: no leading zero, and nothing at all for zero. */
  function NatBytes(n: nat): Bytes {
    if n == 0 then [] else NatBytes(n / 256) + [(n % 256) as u8]
  }

  /** The byte string without its leading zeros. */
  function Strip(b: Bytes): Bytes {
    if b != [] && b[0] == 0 then Strip(b[1..]) else b
  }

  lemma StripStep(b: Bytes)
    ensures Strip(b) == if b != [] && b[0] == 0 then Strip(b[1..]) else b
  {
  }

  lemma BytesEmpty()
    ensures BytesVal([]) == 0
  {
  }

  lemma OneByte()
    ensures BytesVal([1]) == 1
  {
    assert [1 as u8][..0] == [];
  }

  predicate Minimal(b: Bytes) {
    b != [] ==> b[0] != 0
  }

  lemma {:induction false} BytesValConcat(a: Bytes, b: Bytes)
    ensures BytesVal(a + b) == BytesVal(a) * Pow(256, |b|) + BytesVal(b)
  {
    if b == [] {
      assert a + b == a;
    } else {
      var n := |b| - 1;
      assert (a + b)[..|a| + n] == a + b[..n];
      BytesValConcat(a, b[..n]);
      MulAssociative(BytesVal(a), Pow(256, n), 256);
    }
  }

  lemma {:induction false} BytesValBound(b: Bytes)
    ensures BytesVal(b) < Pow(256, |b|)
  {
    if b != [] {
      BytesValBound(b[..|b| - 1]);
    }
  }

  /** Byte strings of one length are told apart by their numbers. */
  lemma {:induction false} SameLengthSameBytes(a: Bytes, b: Bytes)
    requires |a| == |b| && BytesVal(a) == BytesVal(b)
    ensures a == b
  {
    if a != [] {
      var n := |a| - 1;
      SameLengthSameBytes(a[..n], b[..n]);
      assert a == a[..n] + [a[n]] && b == b[..n] + [b[n]];
    }
  }

  lemma {:induction false} NatBytesRoundTrip(n: nat)
    ensures BytesVal(NatBytes(n)) == n && Minimal(NatBytes(n))
  {
    if n != 0 {
      NatBytesRoundTrip(n / 256);
      var front := NatBytes(n / 256);
      assert NatBytes(n)[..|front|] == front;
    }
  }

  /** Every byte string is its minimal form behind some zeros. */
  lemma {:induction false} StripIsNatBytes(b: Bytes)
    ensures Strip(b) == NatBytes(BytesVal(b))
  {
    if b == [] {
    } else if b[0] == 0 {
      StripIsNatBytes(b[1..]);
      LeadingZero(b);
    } else {
      MinimalIsNatBytes(b);
    }
  }

  lemma LeadingZero(b: Bytes)
    requires b != [] && b[0] == 0
    ensures BytesVal(b) == BytesVal(b[1..])
  {
    assert b == [b[0]] + b[1..];
    BytesValConcat([b[0]], b[1..]);
  }

  lemma {:induction false} MinimalIsNatBytes(b: Bytes)
    requires Minimal(b)
    ensures b == NatBytes(BytesVal(b))
  {
    if b != [] {
      var n := |b| - 1;
      MinimalIsNatBytes(b[..n]);
      if n > 0 {
        NonzeroValue(b[..n]);
      }
      assert BytesVal(b) / 256 == BytesVal(b[..n]) && BytesVal(b) % 256 == b[n] as nat;
      assert b == b[..n] + [b[n]];
    }
  }

  lemma {:induction false} NonzeroValue(b: Bytes)
    requires b != [] && b[0] != 0
    ensures BytesVal(b) > 0
  {
    if |b| > 1 {
      NonzeroValue(b[..|b| - 1]);
    }
  }

  /** `limb.to_be_bytes()`. */
  function U32Be(x: u32): (b: Bytes)
    ensures |b| == 4 && BytesVal(b) == x as nat
  {
    var b := [(x / 0x100_0000) as u8, (x / 0x1_0000 % 0x100) as u8, (x / 0x100 % 0x100) as u8, (x % 0x100) as u8];
    FourDigits(x as nat);
    FourBytes(b[0], b[1], b[2], b[3]);
    b
  }

  lemma FourDigits(x: nat)
    requires x < BASE
    ensures x == ((x / 0x100_0000 * 256 + x / 0x1_0000 % 0x100) * 256 + x / 0x100 % 0x100) * 256 + x % 0x100
  {
    assert x / 0x1_0000 == x / 0x100 / 0x100 && x / 0x100_0000 == x / 0x1_0000 / 0x100;
  }

  lemma FourBytes(p: u8, q: u8, r: u8, s: u8)
    ensures BytesVal([p, q, r, s]) == ((p as nat * 256 + q as nat) * 256 + r as nat) * 256 + s as nat
  {
    assert [p, q, r, s][..3] == [p, q, r] && [p, q, r][..2] == [p, q] && [p, q][..1] == [p];
    assert BytesVal([p]) == p as nat;
    assert BytesVal([p, q]) == p as nat * 256 + q as nat;
    assert BytesVal([p, q, r]) == (p as nat * 256 + q as nat) * 256 + r as nat;
  }
}
