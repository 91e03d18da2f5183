/** Fixed-width integers as bytes, in both byte orders. */
module LittleEndian {
  import opened Words
  import opened Power
  import opened ByteStrings

  /** `x.to_le_bytes()` for a k-byte integer. */
  function Le(x: nat, k: nat): (b: Bytes)
    ensures |b| == k
  {
    if k == 0 then [] else [(x % 256) as u8] + Le(x / 256, k - 1)
  }

  /** `x.to_be_bytes()`. */
  function Be(x: nat, k: nat): (b: Bytes)
    ensures |b| == k
  {
    if k == 0 then [] else Be(x / 256, k - 1) + [(x % 256) as u8]
  }

  function LeVal(b: Bytes): nat {
    if b == [] then 0 else b[0] as nat + 256 * LeVal(b[1..])
  }

  /** The little-endian integer of k bytes at an offset. */
  function LeAt(b: Bytes, at: nat, k: nat): nat
    requires at + k <= |b|
  {
    LeVal(b[at..at + k])
  }

  lemma {:induction false} LeRoundTrip(x: nat, k: nat)
    requires x < Pow(256, k)
    ensures LeVal(Le(x, k)) == x
  {
    if k > 0 {
      LeRoundTrip(x / 256, k - 1);
    }
  }

  lemma {:induction false} BeRoundTrip(x: nat, k: nat)
    requires x < Pow(256, k)
    ensures BytesVal(Be(x, k)) == x
  {
    if k > 0 {
      BeRoundTrip(x / 256, k - 1);
      assert Be(x, k)[..k - 1] == Be(x / 256, k - 1);
    }
  }

  lemma {:induction false} LeValBound(b: Bytes)
    ensures LeVal(b) < Pow(256, |b|)
  {
    if b != [] {
      LeValBound(b[1..]);
    }
  }

  /** Decoding and encoding again gives the bytes back. */
  lemma {:induction false} LeOfVal(b: Bytes)
    ensures Le(LeVal(b), |b|) == b
  {
    if b != [] {
      LeOfVal(b[1..]);
      assert LeVal(b) % 256 == b[0] as nat && LeVal(b) / 256 == LeVal(b[1..]);
      assert b == [b[0]] + b[1..];
    }
  }

  /** The powers the field widths need. */
  lemma Widths()
    ensures Pow(256, 1) == 0x100 && Pow(256, 2) == 0x1_0000 && Pow(256, 4) == 0x1_0000_0000
    ensures Pow(256, 8) == 0x1_0000_0000_0000_0000
  {
    PowAdd(256, 1, 1);
    PowAdd(256, 2, 2);
    PowAdd(256, 4, 4);
  }
}
