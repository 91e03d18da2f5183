/** Numbers as text: minimal upper-case hexadecimal on the way out, any hexadecimal on the way in. */
module HexText {
  import opened Words
  import opened Power
  import opened ByteStrings

  const DIGITS: string := "0123456789ABCDEF"

  function HexDigit(d: nat): (c: char)
    requires d < 16
    ensures DigitOf(c) == d as int
    ensures c == '0' <==> d == 0
  {
    DIGITS[d]
  }

  /** The value of a hexadecimal digit of either case, -1 for any other character. */
  function DigitOf(c: char): (d: int)
    ensures -1 <= d < 16
  {
    if '0' <= c <= '9' then c as int - '0' as int
    else if 'A' <= c <= 'F' then c as int - 'A' as int + 10
    else if 'a' <= c <= 'f' then c as int - 'a' as int + 10
    else -1
  }

  predicate IsHex(s: string) {
    forall i :: 0 <= i < |s| ==> DigitOf(s[i]) >= 0
  }

  function HexVal(s: string): nat
    requires IsHex(s)
  {
    if s == "" then 0 else HexVal(s[..|s| - 1]) * 16 + DigitOf(s[|s| - 1])
  }

  function BytesToHex(b: Bytes): (s: string)
    ensures IsHex(s)
  {
    if b == [] then "" else BytesToHex(b[..|b| - 1]) + [HexDigit(b[|b| - 1] as nat / 16), HexDigit(b[|b| - 1] as nat % 16)]
  }

  function StripZeros(s: string): string {
    if s != "" && s[0] == '0' then StripZeros(s[1..]) else s
  }

  /** `hex_text`: no leading zero, and a single digit for zero. */
  function Text(b: Bytes): string {
    var digits := StripZeros(BytesToHex(b));
    if digits == "" then "0" else digits
  }

  /** `u8::from_str_radix(pair, 16).unwrap_or(0)`, which also takes a plus sign before one digit. */
  function ParsePair(hi: char, lo: char): u8 {
    if DigitOf(hi) >= 0 && DigitOf(lo) >= 0 then (DigitOf(hi) * 16 + DigitOf(lo)) as u8
    else if hi == '+' && DigitOf(lo) >= 0 then DigitOf(lo) as u8
    else 0
  }

  function ParsePairs(s: string): Bytes
    requires |s| % 2 == 0
  {
    if s == "" then [] else ParsePairs(s[..|s| - 2]) + [ParsePair(s[|s| - 2], s[|s| - 1])]
  }

  /** `hex_to_bytes`: an odd number of digits gets a leading zero. */
  function ToBytes(s: string): Bytes {
    if |s| % 2 == 1 then ParsePairs("0" + s) else ParsePairs(s)
  }

  lemma {:induction false} BytesToHexValue(b: Bytes)
    ensures HexVal(BytesToHex(b)) == BytesVal(b)
  {
    if b != [] {
      var n := |b| - 1;
      BytesToHexValue(b[..n]);
      var front, hi, lo := BytesToHex(b[..n]), HexDigit(b[n] as nat / 16), HexDigit(b[n] as nat % 16);
      var s := BytesToHex(b);
      assert s == front + [hi, lo];
      assert s[..|s| - 1] == front + [hi] && (front + [hi])[..|front|] == front;
      assert HexVal(front + [hi]) == HexVal(front) * 16 + DigitOf(hi);
    }
  }

  lemma {:induction false} ParsePairsValue(s: string)
    requires |s| % 2 == 0 && IsHex(s)
    ensures BytesVal(ParsePairs(s)) == HexVal(s)
  {
    if s != "" {
      var n := |s| - 2;
      ParsePairsValue(s[..n]);
      var front, last := ParsePairs(s[..n]), ParsePair(s[n], s[n + 1]);
      assert (front + [last])[..|front|] == front;
      assert s[..|s| - 1][..n] == s[..n];
      assert HexVal(s[..n + 1]) == HexVal(s[..n]) * 16 + DigitOf(s[n]);
    }
  }

  lemma {:induction false} LeadingZeroDigit(s: string)
    requires IsHex(s)
    ensures IsHex("0" + s) && HexVal("0" + s) == HexVal(s)
  {
    var t := "0" + s;
    if s == "" {
      assert t[..0] == "";
    } else {
      var n := |s| - 1;
      LeadingZeroDigit(s[..n]);
      assert t[..|t| - 1] == "0" + s[..n];
    }
  }

  lemma ToBytesValue(s: string)
    requires IsHex(s)
    ensures BytesVal(ToBytes(s)) == HexVal(s)
  {
    hide HexVal, ParsePairs, BytesVal;
    LeadingZeroDigit(s);
    if |s| % 2 == 1 {
      ParsePairsValue("0" + s);
    } else {
      ParsePairsValue(s);
    }
  }

  lemma {:induction false} StripZerosValue(s: string)
    requires IsHex(s)
    ensures IsHex(StripZeros(s)) && HexVal(StripZeros(s)) == HexVal(s)
  {
    if s != "" && s[0] == '0' {
      StripZerosValue(s[1..]);
      LeadingZeroDigit(s[1..]);
      assert s == "0" + s[1..];
    }
  }

  /** A byte string written as minimal hex text and read back is the same number. */
  lemma TextRoundTrip(b: Bytes)
    ensures BytesVal(ToBytes(Text(b))) == BytesVal(b)
  {
    BytesToHexValue(b);
    StripZerosValue(BytesToHex(b));
    var digits := StripZeros(BytesToHex(b));
    if digits == "" {
      assert "0"[..0] == "";
      assert HexVal("0") == 0;
    }
    ToBytesValue(Text(b));
  }

  /** The digits `mp_to_radix` writes: 0 to 9 and A to F, none of the small letters. */
  predicate IsUpperHex(s: string) {
    forall i :: 0 <= i < |s| ==> '0' <= s[i] <= '9' || 'A' <= s[i] <= 'F'
  }

  /** At least one digit, and no zero in front of others. */
  predicate IsMinimal(s: string) {
    s != "" && (|s| > 1 ==> s[0] != '0')
  }

  lemma NoDigits()
    ensures IsUpperHex("")
  {
  }

  lemma {:induction false} UpperDigits(b: Bytes)
    ensures IsUpperHex(BytesToHex(b)) && |BytesToHex(b)| == 2 * |b|
  {
    hide HexDigit, IsUpperHex;
    NoDigits();
    if b != [] {
      var n := |b| - 1;
      UpperDigits(b[..n]);
      OneUpper(b[n] as nat / 16);
      OneUpper(b[n] as nat % 16);
      var front, two := BytesToHex(b[..n]), [HexDigit(b[n] as nat / 16), HexDigit(b[n] as nat % 16)];
      assert BytesToHex(b) == front + two;
      TwoUpper(two);
      UpperConcat(front, two);
    }
  }

  lemma OneUpper(d: nat)
    requires d < 16
    ensures '0' <= HexDigit(d) <= '9' || 'A' <= HexDigit(d) <= 'F'
  {
  }

  lemma TwoUpper(s: string)
    requires |s| == 2 && ('0' <= s[0] <= '9' || 'A' <= s[0] <= 'F') && ('0' <= s[1] <= '9' || 'A' <= s[1] <= 'F')
    ensures IsUpperHex(s)
  {
  }

  lemma UpperConcat(a: string, b: string)
    requires IsUpperHex(a) && IsUpperHex(b)
    ensures IsUpperHex(a + b)
  {
  }

  lemma {:induction false} StripMinimal(s: string)
    requires IsUpperHex(s)
    ensures IsUpperHex(StripZeros(s)) && (StripZeros(s) != "" ==> StripZeros(s)[0] != '0')
  {
    if s != "" && s[0] == '0' {
      StripMinimal(s[1..]);
    }
  }

  /** The text of a byte string: upper-case digits without a leading zero, of the same value. */
  lemma TextIsMinimal(b: Bytes)
    ensures IsUpperHex(Text(b)) && IsMinimal(Text(b)) && HexVal(Text(b)) == BytesVal(b)
  {
    UpperDigits(b);
    StripMinimal(BytesToHex(b));
    BytesToHexValue(b);
    StripZerosValue(BytesToHex(b));
    if StripZeros(BytesToHex(b)) == "" {
      assert "0"[..0] == "";
    }
  }

  lemma {:induction false} NonzeroText(s: string)
    requires IsHex(s) && s != "" && s[0] != '0'
    ensures HexVal(s) > 0
  {
    if |s| > 1 {
      NonzeroText(s[..|s| - 1]);
    }
  }

  lemma {:induction false} SameDigits(s: string, t: string)
    requires IsUpperHex(s) && IsUpperHex(t) && IsHex(s) && IsHex(t) && HexVal(s) == HexVal(t)
    requires (s != "" ==> s[0] != '0') && (t != "" ==> t[0] != '0')
    ensures s == t
    decreases |s|
  {
    if s == "" {
      if t != "" {
        NonzeroText(t);
      }
    } else if t == "" {
      NonzeroText(s);
    } else {
      var m, n := |s| - 1, |t| - 1;
      hide HexVal, DigitOf;
      LastDigit(s);
      LastDigit(t);
      SameLast(HexVal(s[..m]), DigitOf(s[m]), HexVal(t[..n]), DigitOf(t[n]));
      SameDigits(s[..m], t[..n]);
      OneUpperDigit(s[m], t[n]);
      assert s == s[..m] + [s[m]] && t == t[..n] + [t[n]];
    }
  }

  lemma LastDigit(s: string)
    requires IsHex(s) && s != ""
    ensures IsHex(s[..|s| - 1]) && 0 <= DigitOf(s[|s| - 1]) < 16 && HexVal(s) == HexVal(s[..|s| - 1]) * 16 + DigitOf(s[|s| - 1])
  {
  }

  lemma SameLast(x: nat, d: int, y: nat, e: int)
    requires 0 <= d < 16 && 0 <= e < 16 && x * 16 + d == y * 16 + e
    ensures x == y && d == e
  {
  }

  lemma OneUpperDigit(a: char, b: char)
    requires ('0' <= a <= '9' || 'A' <= a <= 'F') && ('0' <= b <= '9' || 'A' <= b <= 'F') && DigitOf(a) == DigitOf(b)
    ensures a == b
  {
  }

  /** And the only such text: a number travels in one way. */
  lemma TextIsUnique(b: Bytes, s: string)
    ensures s == Text(b) <==> IsUpperHex(s) && IsMinimal(s) && HexVal(s) == BytesVal(b)
  {
    TextIsMinimal(b);
    var t := Text(b);
    if IsUpperHex(s) && IsMinimal(s) && HexVal(s) == BytesVal(b) {
      if s[0] == '0' || t[0] == '0' {
        ZeroText(s);
        ZeroText(t);
      } else {
        SameDigits(s, t);
      }
    }
  }

  /** Zero is one digit. */
  lemma ZeroText(s: string)
    requires IsUpperHex(s) && IsMinimal(s)
    ensures HexVal(s) == 0 <==> s == "0"
  {
    if s[0] != '0' {
      NonzeroText(s);
    } else {
      assert s == "0" && "0"[..0] == "";
    }
  }

  /** Any text, read in pairs from its end: two digits are a byte, a plus sign in front of one digit
      counts for nothing, and everything else is a zero byte. */
  lemma {:induction false} PairsAt(s: string, k: nat)
    requires |s| % 2 == 0 && k < |s| / 2
    ensures |ParsePairs(s)| == |s| / 2
    ensures var hi, lo, byte := s[2 * k], s[2 * k + 1], ParsePairs(s)[k] as int;
            && (IsHex([hi, lo]) ==> byte == 16 * DigitOf(hi) + DigitOf(lo))
            && (hi == '+' && IsHex([lo]) ==> byte == DigitOf(lo))
            && (!IsHex([lo]) || (hi != '+' && !IsHex([hi])) ==> byte == 0)
  {
    var n := |s| - 2;
    assert ParsePairs(s) == ParsePairs(s[..n]) + [ParsePair(s[n], s[n + 1])];
    PairsLength(s);
    PairsLength(s[..n]);
    if k < n / 2 {
      PairsAt(s[..n], k);
    } else {
      assert [s[n], s[n + 1]][0] == s[n] && [s[n], s[n + 1]][1] == s[n + 1] && [s[n]][0] == s[n] && [s[n + 1]][0] == s[n + 1];
    }
  }

  lemma {:induction false} PairsLength(s: string)
    requires |s| % 2 == 0
    ensures |ParsePairs(s)| == |s| / 2
  {
    if s != "" {
      PairsLength(s[..|s| - 2]);
    }
  }

  /** `proof_matches`: byte strings compared without their leading zeros. */
  predicate ProofMatches(expected: Bytes, hex: string) {
    Strip(expected) == Strip(ToBytes(hex))
  }

  /** That comparison is the comparison of the two numbers, whatever the text. */
  lemma MatchesByValue(expected: Bytes, hex: string)
    ensures ProofMatches(expected, hex) <==> BytesVal(expected) == BytesVal(ToBytes(hex))
  {
    StripIsNatBytes(expected);
    StripIsNatBytes(ToBytes(hex));
    NatBytesRoundTrip(BytesVal(expected));
    NatBytesRoundTrip(BytesVal(ToBytes(hex)));
  }
}
