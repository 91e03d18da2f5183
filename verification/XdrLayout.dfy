/** Transportable rows byte by byte: where each byte of a record image goes, and where the reader takes
    each byte of a value from, in terms of positions alone. */
module XdrLayout {
  import opened Words
  import opened Power
  import opened ByteStrings
  import opened LittleEndian
  import opened Layout
  import opened XdrRow

  // ------------------------------------------------------------------ byte order is reversal

  lemma {:induction false} BeReversed(b: Bytes, k: nat)
    requires k < |b|
    ensures Be(LeVal(b), |b|)[|b| - 1 - k] == b[k]
    decreases |b|
  {
    var n := |b|;
    var whole, rest := Be(LeVal(b), n), Be(LeVal(b[1..]), n - 1);
    assert LeVal(b) % 256 == b[0] as nat && LeVal(b) / 256 == LeVal(b[1..]);
    assert whole == rest + [b[0]];
    if k > 0 {
      BeReversed(b[1..], k - 1);
    }
  }

  /** Native bytes go out in the opposite order. */
  lemma ToBeReverses(native: Bytes)
    ensures forall k :: 0 <= k < |native| ==> ToBe(native)[k] == native[|native| - 1 - k]
  {
    hide Be, LeVal;
    forall k | 0 <= k < |native| ensures ToBe(native)[k] == native[|native| - 1 - k] {
      BeReversed(native, |native| - 1 - k);
    }
  }

  /** And come back so. */
  lemma FromBeReverses(b: Bytes)
    ensures forall k :: 0 <= k < |b| ==> FromBe(b)[k] == b[|b| - 1 - k]
  {
    hide Be, Le, LeVal, BytesVal;
    var native := seq(|b|, k requires 0 <= k < |b| => b[|b| - 1 - k]);
    ToBeReverses(native);
    assert ToBe(native) == b;
    OrderRoundTrip(native);
  }

  // ------------------------------------------------------------------ what is written

  /** The column's bytes are in the image, and its null bit is clear. */
  predicate Live(image: Bytes, c: Col, n: nat) {
    !IsNull(image, c.bit) && c.offset + n <= |image|
  }

  predicate BitSet(b: nat, low: nat) {
    (if low == 0 then b else if low == 1 then b / 2 else if low == 2 then b / 4 else if low == 3 then b / 8
     else if low == 4 then b / 16 else if low == 5 then b / 32 else if low == 6 then b / 64 else b / 128) % 2 == 1
  }

  /** The null bit of a column: bit 0 of a byte is its lowest. */
  lemma NullBit(image: Bytes, bit: nat)
    ensures IsNull(image, bit) <==> bit / 8 < |image| && BitSet(image[bit / 8] as nat, bit % 8)
  {
    PowersOfTwo();
  }

  lemma PowersOfTwo()
    ensures Pow2(0) == 1 && Pow2(1) == 2 && Pow2(2) == 4 && Pow2(3) == 8
    ensures Pow2(4) == 16 && Pow2(5) == 32 && Pow2(6) == 64 && Pow2(7) == 128
  {
  }

  /** A 16-bit number is widened by its sign. */
  lemma ShortBytes(image: Bytes, c: Col)
    requires c.dtype == SHORT
    ensures Field(image, c).Some? && |Field(image, c).value| == 4
    ensures var b := Field(image, c).value;
            if Live(image, c, 2) then
              var low, high := image[c.offset], image[c.offset + 1];
              b == if high >= 0x80 then [0xff, 0xff, high, low] else [0, 0, high, low]
            else b == [0, 0, 0, 0]
  {
    hide Pow, LeVal, IsNull, Be;
    Widths();
    var s := StoredOrZero(image, c, 2);
    assert s == [s[0], s[1]];
    TwoLe(s[0], s[1]);
    var x := s[0] as nat + 0x100 * s[1] as nat;
    var v := Signed(x, 2);
    var r := if s[1] >= 0x80 then x + 0xffff_0000 else x;
    DivModUnique(v, Pow(256, 4), if v < 0 then -1 else 0, r);
    BigEndian(r);
    FourDigitsBe(Be(r, 4), if s[1] >= 0x80 then 0xff else 0, s[1], s[0]);
  }

  lemma FourDigitsBe(b: Bytes, top: u8, high: u8, low: u8)
    requires |b| == 4
    requires 0x100_0000 * b[0] as nat + 0x1_0000 * b[1] as nat + 0x100 * b[2] as nat + b[3] as nat
             == 0x100_0000 * top as nat + 0x1_0000 * top as nat + 0x100 * high as nat + low as nat
    ensures b == [top, top, high, low]
  {
  }

  /** A 32-bit or 64-bit number goes out most significant byte first, zero when null or not there. */
  lemma NumberBytes(image: Bytes, c: Col, n: nat)
    requires (n == 4 && c.dtype in {LONG, REAL, SQL_DATE, SQL_TIME}) || (n == 8 && c.dtype in {INT64, DOUBLE})
    ensures Field(image, c).Some? && |Field(image, c).value| == n
    ensures forall k :: 0 <= k < n ==>
              Field(image, c).value[k] == if Live(image, c, n) then image[c.offset + n - 1 - k] else 0
  {
    hide Pow, LeVal, IsNull, Be, Le;
    var s := StoredOrZero(image, c, n);
    LeValBound(s);
    SignedResidue(LeVal(s), n);
    assert Field(image, c) == Some(ToBe(s));
    ToBeReverses(s);
  }

  lemma SignedResidue(x: nat, n: nat)
    requires x < Pow(256, n)
    ensures Residue(Signed(x, n), n) == x
  {
    if 2 * x < Pow(256, n) {
      DivModUnique(x, Pow(256, n), 0, x);
    } else {
      DivModUnique(x - Pow(256, n), Pow(256, n), -1, x);
    }
  }

  /** A time stamp and a blob's or array's id are two such 32-bit numbers. */
  lemma TwoLongsBytes(image: Bytes, c: Col)
    requires c.dtype in {TIMESTAMP, BLOB, ARRAY}
    ensures Field(image, c).Some? && |Field(image, c).value| == 8
    ensures forall k :: 0 <= k < 8 ==>
              Field(image, c).value[k] == if Live(image, c, 8) then image[c.offset + (if k < 4 then 3 - k else 11 - k)] else 0
  {
    hide LeVal, IsNull, Be;
    var s := StoredOrZero(image, c, 8);
    var a, b := ToBe(s[..4]), ToBe(s[4..]);
    ToBeReverses(s[..4]);
    ToBeReverses(s[4..]);
    assert Field(image, c) == Some(a + b);
    forall k | 0 <= k < 8 ensures (a + b)[k] == s[if k < 4 then 3 - k else 11 - k] {
      if k < 4 {
        assert (a + b)[k] == a[k] == s[..4][3 - k];
      } else {
        assert (a + b)[k] == b[k - 4] == s[4..][7 - k];
      }
    }
  }

  /** A boolean is its byte and three zeros. */
  lemma BooleanBytes(image: Bytes, c: Col)
    requires c.dtype == BOOLEAN
    ensures Field(image, c) == Some([if Live(image, c, 1) then image[c.offset] else 0, 0, 0, 0])
  {
    hide IsNull;
    var s := StoredOrZero(image, c, 1);
    assert s + XdrRow.Zeros(3) == [s[0], 0, 0, 0];
  }

  /** Text is its bytes - blanks when null or not there - and zeros up to a multiple of four. */
  lemma TextBytes(image: Bytes, c: Col)
    requires c.dtype == TEXT
    ensures Field(image, c).Some? && c.length <= |Field(image, c).value| < c.length + 4 && |Field(image, c).value| % 4 == 0
    ensures forall k :: 0 <= k < |Field(image, c).value| ==>
              Field(image, c).value[k] == if k >= c.length then 0 else if Live(image, c, c.length) then image[c.offset + k] else 32
  {
    hide IsNull;
  }

  /** Varying text is its count - what the image says, cut where the image ends, none when null - in four
      bytes, most significant first, its bytes, and zeros up to a multiple of four. */
  lemma VaryingField(image: Bytes, c: Col)
    requires c.dtype == VARYING
    ensures var said := if Live(image, c, 2) then Word16(image, c.offset) else 0;
            var n := if Live(image, c, 2) && c.offset + 2 + said > |image| then |image| - c.offset - 2 else said;
            var b := Field(image, c);
            && b.Some? && 4 + n <= |b.value| < 4 + n + 4 && |b.value| % 4 == 0
            && b.value[..4] == [0, 0, (n / 0x100) as u8, (n % 0x100) as u8]
            && (if Live(image, c, 2) then b.value[4..4 + n] == image[c.offset + 2..c.offset + 2 + n] else n == 0)
            && forall k :: 4 + n <= k < |b.value| ==> b.value[k] == 0
  {
    hide IsNull, LeVal, Be, Pow, LeAt;
    WordsAt(image, c.offset);
    var b := VaryingBytes(image, c);
    var n := |b|;
    VaryingCount(image, c);
    BigEndian(n);
    var head := Be(n, 4);
    CountDigits(head, n);
  }

  lemma CountDigits(b: Bytes, n: nat)
    requires |b| == 4 && n < 0x1_0000
    requires n == 0x100_0000 * b[0] as nat + 0x1_0000 * b[1] as nat + 0x100 * b[2] as nat + b[3] as nat
    ensures b == [0, 0, (n / 0x100) as u8, (n % 0x100) as u8]
  {
  }

  lemma VaryingCount(image: Bytes, c: Col)
    ensures var said := if Live(image, c, 2) then Word16(image, c.offset) else 0;
            var n := if Live(image, c, 2) && c.offset + 2 + said > |image| then |image| - c.offset - 2 else said;
            && said < 0x1_0000 && VaryingBytes(image, c) == (if Live(image, c, 2) then image[c.offset + 2..c.offset + 2 + n] else []) && |VaryingBytes(image, c)| == n
  {
    hide IsNull, LeVal;
    WordsAt(image, c.offset);
  }

  // ------------------------------------------------------------------ the row

  /** The values in column order, each stored column's own, then the null indicators in column order; a
      computed column has neither. */
  lemma {:induction false} FieldsInOrder(image: Bytes, a: seq<Col>, b: seq<Col>)
    ensures Fields(image, a + b) == Append(Fields(image, a), Fields(image, b))
    ensures Flags(image, a + b) == Flags(image, a) + Flags(image, b)
  {
    hide Field, Flag, IsNull;
    if b == [] {
      assert a + b == a && Flags(image, a) + [] == Flags(image, a);
      if Fields(image, a).Some? {
        assert Fields(image, a).value + [] == Fields(image, a).value;
      }
    } else {
      var n := |b| - 1;
      FieldsInOrder(image, a, b[..n]);
      assert (a + b)[..|a + b| - 1] == a + b[..n] && (a + b)[|a + b| - 1] == b[n];
      var fa, fb, f := Fields(image, a), Fields(image, b[..n]), Field(image, b[n]);
      AppendThree(fa, fb, f);
      assert Flags(image, a) + Flags(image, b[..n]) + [] == Flags(image, a) + Flags(image, b[..n]);
      assert Flags(image, a) + Flags(image, b[..n]) + Flag(IsNull(image, b[n].bit))
             == Flags(image, a) + (Flags(image, b[..n]) + Flag(IsNull(image, b[n].bit)));
    }
  }

  lemma AppendThree(a: Option<Bytes>, b: Option<Bytes>, c: Option<Bytes>)
    ensures Append(Append(a, b), c) == Append(a, Append(b, c))
  {
    if a.Some? && b.Some? && c.Some? {
      assert a.value + b.value + c.value == a.value + (b.value + c.value);
    }
  }

  lemma OneColumn(image: Bytes, c: Col)
    ensures Fields(image, [c]) == if c.computed then Some([]) else Field(image, c)
    ensures Flags(image, [c])
            == if c.computed then [] else if IsNull(image, c.bit) then [0xff, 0xff, 0xff, 0xff] else [0, 0, 0, 0]
    ensures Fields(image, []) == Some([]) && Flags(image, []) == []
  {
    hide Field;
    assert [c][..0] == [];
    if Field(image, c).Some? {
      assert [] + Field(image, c).value == Field(image, c).value;
    }
  }

  lemma ValuesThenFlags(image: Bytes, cols: seq<Col>)
    ensures Row(image, cols) == if Fields(image, cols) == None then None else Some(Fields(image, cols).value + Flags(image, cols))
  {
  }

  // ------------------------------------------------------------------ what is read

  /** A signed number of four or eight bytes, most significant first. */
  function Big(b: Bytes, at: nat, n: nat): nat
    requires at + n <= |b|
  {
    if n == 0 then 0 else Big(b, at, n - 1) * 0x100 + b[at + n - 1] as nat
  }

  lemma {:induction false} BigIs(b: Bytes, at: nat, n: nat)
    requires at + n <= |b|
    ensures BytesVal(b[at..at + n]) == Big(b, at, n)
  {
    if n > 0 {
      BigIs(b, at, n - 1);
      assert b[at..at + n][..n - 1] == b[at..at + n - 1];
    }
  }

  /** Bytes in the opposite order. */
  predicate Reversed(r: Bytes, b: Bytes, at: nat, n: nat)
    requires at + n <= |b|
  {
    |r| == n && forall k :: 0 <= k < n ==> r[k] == b[at + n - 1 - k]
  }

  lemma TakenReversed(xdr: Bytes, at: nat, n: nat)
    requires at + n <= |xdr|
    ensures Reversed(FromBe(xdr[at..at + n]), xdr, at, n)
  {
    FromBeReverses(xdr[at..at + n]);
  }

  /** The bytes a value of a fixed-size type takes up, by its field type; 0 for the others. */
  function Size(c: RCol): nat {
    if c.dims > 0 then 8
    else if c.fieldType in {7, 8, 10, 12, 13, 23} then 4
    else if c.fieldType in {9, 16, 27, 35, 261} then 8
    else if c.fieldType == 26 then 16
    else 0
  }

  /** A value of fixed size: refused exactly when the row is over before its last byte, and otherwise the
      next one starts behind it. */
  lemma FixedRead(xdr: Bytes, at: nat, c: RCol)
    requires Size(c) > 0
    ensures if at + Size(c) > |xdr| then DecodeField(xdr, at, c) == Stop("a data row ended mid-field")
            else DecodeField(xdr, at, c).Step? && DecodeField(xdr, at, c).at == at + Size(c)
  {
  }

  /** Integers of field type 7, 8 and 16, by two's complement. */
  lemma IntegerRead(xdr: Bytes, at: nat, c: RCol)
    requires c.dims <= 0 && c.fieldType in {7, 8, 16} && at + Size(c) <= |xdr|
    ensures var x := Big(xdr, at, Size(c));
            DecodeField(xdr, at, c).value
            == Int(if xdr[at] < 0x80 then x else if c.fieldType == 16 then x - 0x1_0000_0000_0000_0000 else x - 0x1_0000_0000)
  {
    hide BytesVal, Pow, Big;
    Widths();
    BigIs(xdr, at, Size(c));
    TopBit(xdr, at, Size(c));
  }

  lemma TopBit(b: Bytes, at: nat, n: nat)
    requires (n == 4 || n == 8) && at + n <= |b|
    ensures 2 * Big(b, at, n) < Pow(256, n) <==> b[at] < 0x80
  {
    hide Pow;
    Widths();
    BigFour(b, at);
    if n == 8 {
      BigFour(b, at + 4);
      assert Big(b, at, 8) == Big(b, at, 4) * 0x1_0000_0000 + Big(b, at + 4, 4) by {
        BigEight(b, at);
      }
    }
  }

  lemma BigFour(b: Bytes, at: nat)
    requires at + 4 <= |b|
    ensures Big(b, at, 4) == 0x100_0000 * b[at] as nat + 0x1_0000 * b[at + 1] as nat + 0x100 * b[at + 2] as nat + b[at + 3] as nat
  {
    assert Big(b, at, 1) == Big(b, at, 0) * 0x100 + b[at] as nat;
    assert Big(b, at, 2) == Big(b, at, 1) * 0x100 + b[at + 1] as nat;
    assert Big(b, at, 3) == Big(b, at, 2) * 0x100 + b[at + 2] as nat;
  }

  lemma BigEight(b: Bytes, at: nat)
    requires at + 8 <= |b|
    ensures Big(b, at, 8) == Big(b, at, 4) * 0x1_0000_0000 + Big(b, at + 4, 4)
  {
    BigFour(b, at + 4);
    assert Big(b, at, 5) == Big(b, at, 4) * 0x100 + b[at + 4] as nat;
    assert Big(b, at, 6) == Big(b, at, 5) * 0x100 + b[at + 5] as nat;
    assert Big(b, at, 7) == Big(b, at, 6) * 0x100 + b[at + 6] as nat;
    assert Big(b, at, 8) == Big(b, at, 7) * 0x100 + b[at + 7] as nat;
  }

  /** Dates, times and floats of four or eight bytes, and the sixteen bytes of field type 26, are turned
      round as a whole; the two halves of a time stamp each for itself; a boolean is its first byte. */
  lemma NativeRead(xdr: Bytes, at: nat, c: RCol)
    requires c.dims <= 0 && c.fieldType in {9, 10, 12, 13, 23, 26, 27, 35} && at + Size(c) <= |xdr|
    ensures var v := DecodeField(xdr, at, c).value;
            && v.Raw?
            && (c.fieldType in {10, 12, 13, 26, 27} ==> Reversed(v.native, xdr, at, Size(c)))
            && (c.fieldType in {9, 35} ==> |v.native| == 8 && Reversed(v.native[..4], xdr, at, 4) && Reversed(v.native[4..], xdr, at + 4, 4))
            && (c.fieldType == 23 ==> v.native == [xdr[at]])
  {
    hide FromBe, Reversed;
    var n := Size(c);
    TakenReversed(xdr, at, n);
    if c.fieldType == 9 || c.fieldType == 35 {
      TakenReversed(xdr, at, 4);
      TakenReversed(xdr, at + 4, 4);
      assert xdr[at..at + 8][..4] == xdr[at..at + 4] && xdr[at..at + 8][4..] == xdr[at + 4..at + 8];
    } else if c.fieldType == 26 {
      SixteenReversed(xdr, at);
    }
  }

  lemma SixteenReversed(xdr: Bytes, at: nat)
    requires at + 16 <= |xdr|
    ensures var b := xdr[at..at + 16];
            Reversed(FromBe(b[12..]) + FromBe(b[8..12]) + FromBe(b[4..8]) + FromBe(b[..4]), xdr, at, 16)
  {
    var b := xdr[at..at + 16];
    FromBeReverses(b[12..]);
    FromBeReverses(b[8..12]);
    FromBeReverses(b[4..8]);
    FromBeReverses(b[..4]);
    var p, q, u, v := FromBe(b[12..]), FromBe(b[8..12]), FromBe(b[4..8]), FromBe(b[..4]);
    var r := p + q + u + v;
    forall k | 0 <= k < 16 ensures r[k] == xdr[at + 15 - k] {
      if k < 4 {
        assert r[k] == p[k] == b[12..][3 - k];
      } else if k < 8 {
        assert r[k] == q[k - 4] == b[8..12][7 - k];
      } else if k < 12 {
        assert r[k] == u[k - 8] == b[4..8][11 - k];
      } else {
        assert r[k] == v[k - 12] == b[..4][15 - k];
      }
    }
  }

  /** Text: a varying one's count first; its bytes as they are; the padding passed over. */
  lemma TextRead(xdr: Bytes, at: nat, c: RCol)
    requires c.dims <= 0 && (c.fieldType == 14 || (c.fieldType == 37 && at + 4 <= |xdr|))
    ensures var from := if c.fieldType == 37 then at + 4 else at;
            var n := if c.fieldType == 37 then Big(xdr, at, 4) else c.length;
            DecodeField(xdr, at, c)
            == if n > c.length then Stop("a varchar longer than its column")
               else if from + n > |xdr| then Stop("a data row ended mid-field")
               else Step(Chars(xdr[from..from + n]), from + n + (if n % 4 == 0 then 0 else 4 - n % 4))
  {
    hide BytesVal, Big;
    if c.fieldType == 37 {
      BigIs(xdr, at, 4);
    }
  }

  /** A blob and an array stand for what comes behind the row; other field types are refused. */
  lemma OtherRead(xdr: Bytes, at: nat, c: RCol)
    ensures c.dims > 0 && at + 8 <= |xdr| ==> DecodeField(xdr, at, c).value == Array([], [])
    ensures c.dims <= 0 && c.fieldType == 261 && at + 8 <= |xdr| ==> DecodeField(xdr, at, c).value == Blob(false, [])
    ensures c.dims <= 0 && c.fieldType == 37 && at + 4 > |xdr| ==> DecodeField(xdr, at, c) == Stop("a data row ended mid-field")
    ensures c.dims <= 0 && c.fieldType !in {7, 8, 9, 10, 12, 13, 14, 16, 23, 26, 27, 35, 37, 261}
            ==> DecodeField(xdr, at, c) == Stop("a field type outside this restore's surface")
  {
  }

  /** Column by column: each stored value starts where the one before it ended, the first at the start; a
      computed column takes nothing and reads as null. */
  lemma {:induction false} FieldsRead(xdr: Bytes, cols: seq<RCol>, k: nat)
    requires k < |cols| && DecodeFields(xdr, cols).Steps?
    ensures var before, upTo, c := DecodeFields(xdr, cols[..k]), DecodeFields(xdr, cols[..k + 1]), cols[k];
            && before.Steps? && upTo.Steps? && (k == 0 ==> before.at == 0)
            && (if c.computed then DecodeFields(xdr, cols).values[k] == Null && upTo.at == before.at
                else DecodeField(xdr, before.at, c) == Step(DecodeFields(xdr, cols).values[k], upTo.at))
  {
    hide DecodeField;
    var n := |cols| - 1;
    assert cols[..n + 1] == cols;
    if k < n {
      FieldsRead(xdr, cols[..n], k);
      assert cols[..n][..k] == cols[..k] && cols[..n][..k + 1] == cols[..k + 1];
    }
  }

  /** A row is refused exactly for the first value that is. */
  lemma {:induction false} FieldsRefused(xdr: Bytes, cols: seq<RCol>) returns (k: nat)
    requires DecodeFields(xdr, cols).Stopped?
    ensures k < |cols| && DecodeFields(xdr, cols[..k]).Steps? && !cols[k].computed
    ensures DecodeField(xdr, DecodeFields(xdr, cols[..k]).at, cols[k]) == Stop(DecodeFields(xdr, cols).reason)
  {
    hide DecodeField;
    var n := |cols| - 1;
    if DecodeFields(xdr, cols[..n]).Stopped? {
      k := FieldsRefused(xdr, cols[..n]);
      assert cols[..n][..k] == cols[..k];
    } else {
      k := n;
    }
  }

  /** The columns that have a value in the row. */
  function StoredCount(cols: seq<RCol>): nat {
    if cols == [] then 0 else StoredCount(cols[..|cols| - 1]) + if cols[|cols| - 1].computed then 0 else 1
  }

  /** One four-byte word behind the values for each stored column, in order: any word but zero makes its
      value null; a row without room for all of them is refused. */
  lemma {:induction false} FlagsRead(xdr: Bytes, cols: seq<RCol>, values: seq<RVal>, from: nat)
    requires |values| == |cols|
    ensures var n, r := StoredCount(cols), DecodeFlags(xdr, cols, values, from);
            if n > 0 && from + 4 * n > |xdr| then r == Stopped("a data row ended mid-field")
            else r.Steps? && r.at == from + 4 * n && forall k: nat :: k < |cols| ==> FlagTurns(xdr, cols, values, from, k, r.values)
  {
    hide BytesVal;
    if cols != [] {
      var n := |cols| - 1;
      FlagsRead(xdr, cols[..n], values[..n], from);
      var front, all := DecodeFlags(xdr, cols[..n], values[..n], from), DecodeFlags(xdr, cols, values, from);
      if all.Steps? {
        if !cols[n].computed {
          FourZeros(xdr, front.at);
        }
        forall k: nat | k < |cols| ensures FlagTurns(xdr, cols, values, from, k, all.values) {
          if k < n {
            assert FlagTurns(xdr, cols[..n], values[..n], from, k, front.values);
            assert cols[..n][..k] == cols[..k];
          }
        }
      }
    }
  }

  predicate FlagTurns(xdr: Bytes, cols: seq<RCol>, values: seq<RVal>, from: nat, k: nat, nulled: seq<RVal>)
    requires k < |cols| == |values|
  {
    var at := from + 4 * StoredCount(cols[..k]);
    && |nulled| == |cols|
    && if cols[k].computed then nulled[k] == values[k]
       else at + 4 <= |xdr| && nulled[k] == if AllZero(xdr, at, at + 4) then values[k] else Null
  }

  lemma FourZeros(xdr: Bytes, at: nat)
    requires at + 4 <= |xdr|
    ensures BytesVal(xdr[at..at + 4]) == 0 <==> AllZero(xdr, at, at + 4)
  {
    hide BytesVal, Big;
    BigIs(xdr, at, 4);
    BigFour(xdr, at);
    assert AllZero(xdr, at, at + 4) <==> xdr[at] == 0 && xdr[at + 1] == 0 && xdr[at + 2] == 0 && xdr[at + 3] == 0;
  }
}
