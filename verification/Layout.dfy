/** Words of a file spelled out byte by byte, least byte first, and what the byte-order functions write
    and read in these terms. */
module Layout {
  import opened Words
  import opened Power
  import opened ByteStrings
  import opened LittleEndian

  function Word16(b: Bytes, at: nat): nat
    requires at + 2 <= |b|
  {
    b[at] as nat + 0x100 * b[at + 1] as nat
  }

  function Word32(b: Bytes, at: nat): nat
    requires at + 4 <= |b|
  {
    b[at] as nat + 0x100 * b[at + 1] as nat + 0x1_0000 * b[at + 2] as nat + 0x100_0000 * b[at + 3] as nat
  }

  function Word64(b: Bytes, at: nat): nat
    requires at + 8 <= |b|
  {
    Word32(b, at) + 0x1_0000_0000 * Word32(b, at + 4)
  }

  lemma TwoLe(p: u8, q: u8)
    ensures LeVal([p, q]) == p as nat + 0x100 * q as nat
  {
    assert [p, q][1..] == [q] && [q][1..] == [];
    assert LeVal([q]) == q as nat + 256 * LeVal([]);
  }

  lemma FourLe(p: u8, q: u8, r: u8, s: u8)
    ensures LeVal([p, q, r, s]) == p as nat + 0x100 * q as nat + 0x1_0000 * r as nat + 0x100_0000 * s as nat
  {
    TwoLe(r, s);
    assert [p, q, r, s][1..] == [q, r, s] && [q, r, s][1..] == [r, s];
  }

  lemma {:induction false} LeValConcat(a: Bytes, b: Bytes)
    ensures LeVal(a + b) == LeVal(a) + Pow(256, |a|) * LeVal(b)
  {
    if a == [] {
      assert a + b == b;
    } else {
      assert (a + b)[1..] == a[1..] + b;
      LeValConcat(a[1..], b);
      MulAssociative(256, Pow(256, |a| - 1), LeVal(b));
      MulAssociative(Pow(256, |a| - 1), 256, LeVal(b));
    }
  }

  /** The integer at an offset is its bytes, least first. */
  lemma WordsAt(b: Bytes, at: nat)
    ensures at + 2 <= |b| ==> LeAt(b, at, 2) == Word16(b, at)
    ensures at + 4 <= |b| ==> LeAt(b, at, 4) == Word32(b, at)
    ensures at + 8 <= |b| ==> LeAt(b, at, 8) == Word64(b, at)
  {
    hide LeVal, Pow;
    if at + 2 <= |b| {
      assert b[at..at + 2] == [b[at], b[at + 1]];
      TwoLe(b[at], b[at + 1]);
    }
    if at + 4 <= |b| {
      assert b[at..at + 4] == [b[at], b[at + 1], b[at + 2], b[at + 3]];
      FourLe(b[at], b[at + 1], b[at + 2], b[at + 3]);
    }
    if at + 8 <= |b| {
      assert b[at..at + 8] == [b[at], b[at + 1], b[at + 2], b[at + 3]] + [b[at + 4], b[at + 5], b[at + 6], b[at + 7]];
      FourLe(b[at + 4], b[at + 5], b[at + 6], b[at + 7]);
      LeValConcat([b[at], b[at + 1], b[at + 2], b[at + 3]], [b[at + 4], b[at + 5], b[at + 6], b[at + 7]]);
      Widths();
    }
  }

  /** An integer that fits its field is written as these bytes. */
  lemma WordsWritten(n: nat)
    ensures n < 0x1_0000 ==> Word16(Le(n, 2), 0) == n
    ensures n < 0x1_0000_0000 ==> Word32(Le(n, 4), 0) == n
    ensures n < 0x1_0000_0000_0000_0000 ==> Word64(Le(n, 8), 0) == n
  {
    hide LeVal, Pow, Le, Word16, Word32, Word64;
    Widths();
    WordsAt(Le(n, 2), 0);
    WordsAt(Le(n, 4), 0);
    WordsAt(Le(n, 8), 0);
    assert Le(n, 2)[0..2] == Le(n, 2) && Le(n, 4)[0..4] == Le(n, 4) && Le(n, 8)[0..8] == Le(n, 8);
    if n < 0x1_0000 {
      LeRoundTrip(n, 2);
    }
    if n < 0x1_0000_0000 {
      LeRoundTrip(n, 4);
    }
    if n < 0x1_0000_0000_0000_0000 {
      LeRoundTrip(n, 8);
    }
  }

  /** Big-endian words are the same bytes, greatest first. */
  lemma BigEndian(n: nat)
    requires n < 0x1_0000_0000
    ensures var b := Be(n, 4);
            n == 0x100_0000 * b[0] as nat + 0x1_0000 * b[1] as nat + 0x100 * b[2] as nat + b[3] as nat
  {
    hide Be, Pow;
    Widths();
    BeRoundTrip(n, 4);
    var b := Be(n, 4);
    assert b == [b[0], b[1], b[2], b[3]];
    FourBytes(b[0], b[1], b[2], b[3]);
  }

  predicate AllZero(b: Bytes, from: nat, to: nat)
    requires to <= |b|
  {
    forall k :: from <= k < to ==> b[k] == 0
  }

  /** A vector of 32-bit words, one behind the other. */
  predicate IsVector(b: Bytes, list: seq<nat>) {
    |b| == 4 * |list| && forall i :: 0 <= i < |list| ==> Word32(b, 4 * i) == list[i]
  }
}
