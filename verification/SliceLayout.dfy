/** Array slices byte by byte: the raw length, then each element's bytes in its canonical place. */
module SliceLayout {
  import opened Words
  import opened Power
  import opened ByteStrings
  import opened LittleEndian
  import opened Layout
  import opened XdrRow
  import opened XdrSlice
  import opened XdrLayout
  import RunLength

  // ------------------------------------------------------------------ what is written

  /** A slice opens with the length of the native elements, most significant byte first; an element stands
      behind the one before it. */
  lemma SliceOpens(sh: Shape, data: Bytes)
    requires sh.length == 0 || Wide(sh)
    requires Slice(sh, data).Some? && |data| < 0x1_0000_0000
    ensures var b := Slice(sh, data).value;
            && |b| >= 4
            && |data| == 0x100_0000 * b[0] as nat + 0x1_0000 * b[1] as nat + 0x100 * b[2] as nat + b[3] as nat
    ensures Supported(sh.dtype) ==>
              && sh.length > 0 && AllOf(sh, Chunks(data, sh.length)) && Slice(sh, data).value[4..] == Elements(sh, Chunks(data, sh.length))
  {
    hide Be, Chunks, Elements, Join;
    BigEndian(|data|);
    if Supported(sh.dtype) {
      ChunksJoin(data, sh.length);
    }
  }

  lemma {:induction false} ElementsConcat(sh: Shape, a: seq<Bytes>, b: seq<Bytes>)
    requires Wide(sh) && Supported(sh.dtype) && AllOf(sh, a) && AllOf(sh, b)
    ensures AllOf(sh, a + b) && Elements(sh, a + b) == Elements(sh, a) + Elements(sh, b)
  {
    hide Element, Padded, Wide, Supported, AllOf;
    AllOfConcat(sh, a, b);
    if b == [] {
      assert a + b == a && Elements(sh, a) + [] == Elements(sh, a);
    } else {
      var n, all := |b| - 1, a + b;
      AllOfFront(sh, b);
      AllOfFront(sh, all);
      ElementsConcat(sh, a, b[..n]);
      assert all[..|all| - 1] == a + b[..n] && all[|all| - 1] == b[n];
      Associative(Elements(sh, a), Elements(sh, b[..n]), Padded(Element(sh, b[n])));
    }
  }

  lemma AllOfConcat(sh: Shape, a: seq<Bytes>, b: seq<Bytes>)
    requires AllOf(sh, a) && AllOf(sh, b)
    ensures AllOf(sh, a + b)
  {
  }

  lemma AllOfFront(sh: Shape, s: seq<Bytes>)
    requires s != [] && AllOf(sh, s)
    ensures AllOf(sh, s[..|s| - 1]) && |s[|s| - 1]| == sh.length
  {
    assert s[|s| - 1] in s;
  }

  /** The i-th piece of a slice is its i-th run of that many bytes. */
  lemma {:induction false} ChunkIs(data: Bytes, d: nat, i: nat)
    requires d > 0 && |data| % d == 0 && i < |data| / d
    ensures i * d + d <= |data| && |Chunks(data, d)| == |data| / d && Chunks(data, d)[i] == data[i * d..i * d + d]
    decreases |data|
  {
    hide Chunks, Join;
    ChunkEnds(|data|, d, i);
    ChunksStep(data, d);
    var front := data[..|data| - d];
    if i < |data| / d - 1 {
      ChunkIs(front, d, i);
    }
  }

  lemma ChunksStep(data: Bytes, d: nat)
    requires d > 0 && |data| % d == 0 && |data| >= d
    ensures (|data| - d) % d == 0 && (|data| - d) / d == |data| / d - 1 && |Chunks(data, d)| == |data| / d
    ensures |Chunks(data[..|data| - d], d)| == |data| / d - 1
    ensures Chunks(data, d) == Chunks(data[..|data| - d], d) + [data[|data| - d..]]
  {
    hide Join;
    WholeElements(|data|, d);
    ChunksJoin(data, d);
    ChunksJoin(data[..|data| - d], d);
  }

  lemma ChunkEnds(n: nat, d: nat, i: nat)
    requires d > 0 && n % d == 0 && i < n / d
    ensures i * d + d <= n && n >= d && (i == n / d - 1 ==> i * d == n - d)
  {
    DivBasics(n, d);
    MulLeft(i + 1, n / d, d);
    MulDistributes(d, i, 1);
  }

  /** A number's element: the bytes its type takes, most significant first; a 16-bit one widened by its
      sign; a time stamp's two halves each for itself. */
  lemma NumberElement(sh: Shape, e: Bytes)
    requires Wide(sh) && Supported(sh.dtype) && sh.dtype != TEXT && sh.dtype != VARYING && |e| == sh.length
    ensures var b := Element(sh, e);
            && (sh.dtype == SHORT ==> b == if e[1] >= 0x80 then [0xff, 0xff, e[1], e[0]] else [0, 0, e[1], e[0]])
            && (sh.dtype in {LONG, REAL, SQL_DATE, SQL_TIME} ==> b == [e[3], e[2], e[1], e[0]])
            && (sh.dtype in {INT64, DOUBLE} ==> b == [e[7], e[6], e[5], e[4], e[3], e[2], e[1], e[0]])
            && (sh.dtype == TIMESTAMP ==> b == [e[3], e[2], e[1], e[0], e[7], e[6], e[5], e[4]])
  {
    hide ToBe, LeVal, Be, Pow;
    if sh.dtype == SHORT {
      ShortElementBytes(e);
    } else if sh.dtype in {LONG, REAL, SQL_DATE, SQL_TIME} {
      FourReversed(e[..4]);
    } else if sh.dtype == TIMESTAMP {
      FourReversed(e[..8][..4]);
      FourReversed(e[..8][4..]);
    } else {
      EightReversed(e[..8]);
    }
  }

  lemma FourReversed(b: Bytes)
    requires |b| == 4
    ensures ToBe(b) == [b[3], b[2], b[1], b[0]]
  {
    hide ToBe;
    ToBeReverses(b);
  }

  lemma EightReversed(b: Bytes)
    requires |b| == 8
    ensures ToBe(b) == [b[7], b[6], b[5], b[4], b[3], b[2], b[1], b[0]]
  {
    hide ToBe;
    ToBeReverses(b);
  }

  lemma ShortElementBytes(e: Bytes)
    requires |e| >= 2
    ensures BeInt(Signed(LeVal(e[..2]), 2), 4) == if e[1] >= 0x80 then [0xff, 0xff, e[1], e[0]] else [0, 0, e[1], e[0]]
  {
    hide Pow, LeVal, Be;
    Widths();
    assert e[..2] == [e[0], e[1]];
    TwoLe(e[0], e[1]);
    var x := e[0] as nat + 0x100 * e[1] as nat;
    var v := Signed(x, 2);
    var r := if e[1] >= 0x80 then x + 0xffff_0000 else x;
    DivModUnique(v, Pow(256, 4), if v < 0 then -1 else 0, r);
    BigEndian(r);
    FourDigitsBe(Be(r, 4), if e[1] >= 0x80 then 0xff else 0, e[1], e[0]);
  }

  /** A text's element is its slot; a varying one's is its count - cut to the slot, and widened by its
      sign - and its bytes. Both are filled up with zeros to a multiple of four. */
  lemma TextElement(sh: Shape, e: Bytes)
    requires Wide(sh) && (sh.dtype == TEXT || sh.dtype == VARYING) && |e| == sh.length
    ensures sh.dtype == TEXT ==> Element(sh, e) == e
    ensures sh.dtype == VARYING ==>
              var said := e[0] as nat + 0x100 * e[1] as nat;
              var n := if said < sh.length - 2 then said else sh.length - 2;
              Element(sh, e) == (if n >= 0x8000 then [0xff, 0xff] else [0, 0]) + [(n / 0x100) as u8, (n % 0x100) as u8] + e[2..2 + n]
  {
    hide Pow, LeVal, Be, LeAt;
    if sh.dtype == VARYING {
      WordsAt(e, 0);
      var n := Count(sh, e);
      CountElement(n);
    }
  }

  lemma CountElement(n: nat)
    requires n < 0x1_0000
    ensures BeInt(Signed(n, 2), 4) == (if n >= 0x8000 then [0xff, 0xff] else [0, 0]) + [(n / 0x100) as u8, (n % 0x100) as u8]
  {
    hide Pow, Be;
    Widths();
    var v := Signed(n, 2);
    var r := if n >= 0x8000 then n + 0xffff_0000 else n;
    DivModUnique(v, Pow(256, 4), if v < 0 then -1 else 0, r);
    BigEndian(r);
    FourDigitsBe(Be(r, 4), if n >= 0x8000 then 0xff else 0, (n / 0x100) as u8, (n % 0x100) as u8);
  }

  lemma PaddedIs(b: Bytes)
    ensures |b| <= |Padded(b)| < |b| + 4 && |Padded(b)| % 4 == 0 && Padded(b)[..|b|] == b && AllZero(Padded(b), |b|, |Padded(b)|)
  {
  }

  // ------------------------------------------------------------------ what is read

  /** A number's element back in its native place: turned round, a 16-bit one from its last two bytes, a
      time stamp's halves each for itself. */
  lemma NumberNative(xdr: Bytes, at: nat, c: RCol)
    requires c.fieldType in {7, 8, 9, 10, 12, 13, 16, 23, 27, 35}
    ensures var n := if c.fieldType in {9, 16, 27, 35} then 8 else 4;
            if at + n > |xdr| then DecodeElement(xdr, at, c) == Bad("an array slice ended mid-element")
            else
              && DecodeElement(xdr, at, c).Native? && DecodeElement(xdr, at, c).at == at + n
              && NativeIs(DecodeElement(xdr, at, c).element, xdr, at, c.fieldType)
  {
    hide FromBe, BytesVal, Le, LeVal;
    if at + 4 <= |xdr| {
      TakenReversed(xdr, at, 4);
      if c.fieldType == 7 {
        LowHalf(xdr, at);
      }
    }
    if at + 8 <= |xdr| {
      TakenReversed(xdr, at, 8);
      TakenReversed(xdr, at + 4, 4);
      assert xdr[at..at + 8][..4] == xdr[at..at + 4] && xdr[at..at + 8][4..] == xdr[at + 4..at + 8];
    }
  }

  predicate NativeIs(e: Bytes, b: Bytes, at: nat, fieldType: int)
    requires at + 4 <= |b| && (fieldType in {9, 16, 27, 35} ==> at + 8 <= |b|)
  {
    && (fieldType == 7 ==> e == [b[at + 3], b[at + 2]])
    && (fieldType == 23 ==> e == [b[at]])
    && (fieldType in {8, 10, 12, 13} ==> Reversed(e, b, at, 4))
    && (fieldType in {16, 27} ==> Reversed(e, b, at, 8))
    && (fieldType in {9, 35} ==> |e| == 8 && Reversed(e[..4], b, at, 4) && Reversed(e[4..], b, at + 4, 4))
  }

  lemma LowHalf(xdr: Bytes, at: nat)
    requires at + 4 <= |xdr|
    ensures Le(BytesVal(xdr[at..at + 4]) % 0x1_0000, 2) == [xdr[at + 3], xdr[at + 2]]
  {
    hide BytesVal, Le;
    BigIs(xdr, at, 4);
    BigFour(xdr, at);
    var low := 0x100 * xdr[at + 2] as nat + xdr[at + 3] as nat;
    DivModUnique(BytesVal(xdr[at..at + 4]), 0x1_0000, 0x100 * xdr[at] as nat + xdr[at + 1] as nat, low);
    RunLength.TwoBytes(low);
  }

  /** A text's bytes as they are; a varying one's behind its count, in a slot of its column's length. */
  lemma TextNative(xdr: Bytes, at: nat, c: RCol)
    requires c.fieldType == 14 || (c.fieldType == 37 && at + 4 <= |xdr|)
    ensures var from := if c.fieldType == 37 then at + 4 else at;
            var n := if c.fieldType == 37 then Big(xdr, at, 4) else c.length;
            DecodeElement(xdr, at, c)
            == if n > c.length then Bad("an array element longer than its column")
               else if from + n > |xdr| then Bad("an array slice ended mid-element")
               else Native(if c.fieldType == 14 then xdr[from..from + n] else Le(n, 2) + xdr[from..from + n] + XdrRow.Zeros(c.length - n),
                           from + n + (if n % 4 == 0 then 0 else 4 - n % 4))
  {
    hide BytesVal, Big, Le;
    if c.fieldType == 37 {
      BigIs(xdr, at, 4);
    }
  }
}
