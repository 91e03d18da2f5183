/** Fixed-width machine words, and the word-level operations the bignum code uses.

    The words are newtypes, so every `+`, `-` and `*` on them carries the proof obligation that it
    stays inside its width: a method over these types that verifies neither overflows nor wraps.
    Where the program truncates or wraps on purpose, the function below says so. */
module Words {
  import opened Power

  const BASE: int := 0x1_0000_0000

  newtype u8 = x: int | 0 <= x < 0x100
  newtype u16 = x: int | 0 <= x < 0x1_0000
  newtype u32 = x: int | 0 <= x < 0x1_0000_0000
  newtype u64 = x: int | 0 <= x < 0x1_0000_0000_0000_0000
  newtype i64 = x: int | -0x8000_0000_0000_0000 <= x < 0x8000_0000_0000_0000

  /** `x as u32` on an unsigned 64-bit word: the low half. */
  function Low(x: u64): (r: u32)
    ensures r as int == x as int % BASE
  {
    (x % 0x1_0000_0000) as u32
  }

  /** `x >> 32`: the high half. */
  function High(x: u64): (r: u64)
    ensures x as int == r as int * BASE + Low(x) as int
    ensures r as int < BASE
  {
    x / 0x1_0000_0000
  }

  /** `x as u32` on a signed 64-bit word that is at worst one borrow below zero: two's complement
      keeps the residue modulo 2^32. */
  function Wrap(x: i64): (r: u32)
    requires -BASE <= x as int < BASE
    ensures r as int == if x < 0 then x as int + BASE else x as int
  {
    (x as int % BASE) as u32
  }

  /** `a.wrapping_mul(b)`. */
  function WrappingMul(a: u32, b: u32): u32 {
    (a as int * b as int % BASE) as u32
  }

  /** `a.wrapping_sub(b)`. */
  function WrappingSub(a: u32, b: u32): u32 {
    ((a as int - b as int) % BASE) as u32
  }

  /** `acc as u64 + a as u64 * b as u64 + carry`: one multiply-and-accumulate step. Together with a
      carry below 2^32 the product leaves exactly enough room for both additions in 64 bits. */
  function MulAdd(acc: u32, a: u32, b: u32, carry: u64): (r: u64)
    requires carry as int < BASE
    ensures r as int == acc as int + a as int * b as int + carry as int
  {
    ProductFits(a, b);
    acc as u64 + a as u64 * b as u64 + carry
  }

  lemma ProductFits(a: u32, b: u32)
    ensures 0 <= a as int * b as int <= (BASE - 1) * (BASE - 1)
  {
    var x, y := a as int, b as int;
    MulLeft(0, x, y);
    MulLeft(x, BASE - 1, y);
    MulLeft(y, BASE - 1, BASE - 1);
  }

  /** `x << s`: bits pushed past the top are lost. */
  function Shl(x: u32, s: nat): u32 {
    (x as int * Pow(2, s) % BASE) as u32
  }

  /** `x >> s`. */
  function Shr(x: u32, s: nat): u32 {
    PowPositive(2, s);
    DivBasics(x as nat, Pow(2, s));
    (x as nat / Pow(2, s)) as u32
  }

  /** `x | y`, bit by bit. */
  function BitOr(x: nat, y: nat): nat
    decreases x + y
  {
    if x == 0 && y == 0 then 0
    else 2 * BitOr(x / 2, y / 2) + (if x % 2 == 1 || y % 2 == 1 then 1 else 0)
  }

  /** Where the low `s` bits of one operand are clear and the other lives in those bits, the or is a
      sum: this is what makes a shifted limb and the bits shifted in from its neighbour add up. */
  lemma {:induction false} OrOfDisjoint(high: nat, low: nat, s: nat)
    requires low < Pow(2, s)
    ensures BitOr(high * Pow(2, s), low) == high * Pow(2, s) + low
    decreases s, high
  {
    if s == 0 {
      OrWithZero(high);
    } else {
      var h := high * Pow(2, s - 1);
      assert high * Pow(2, s) == 2 * h by {
        MulAssociative(high, 2, Pow(2, s - 1));
      }
      OrOfDisjoint(high, low / 2, s - 1);
    }
  }

  lemma {:induction false} OrWithZero(x: nat)
    ensures BitOr(x, 0) == x
  {
    if x != 0 {
      OrWithZero(x / 2);
    }
  }

  /** `x.leading_zeros()`. */
  function LeadingZeros(x: u32): (z: nat)
    ensures z <= 32
    ensures x > 0 ==> z < 32 && BASE <= 2 * (x as int * Pow(2, z)) && x as int * Pow(2, z) < BASE
    decreases BASE - x as int
  {
    if x == 0 then 32
    else if x >= 0x8000_0000 then 0
    else
      var z := LeadingZeros(2 * x);
      MulAssociative(2, x as int, Pow(2, z));
      MulAssociative(x as int, 2, Pow(2, z));
      ShiftFits(x, z + 1);
      z + 1
  }

  lemma ShiftFits(x: u32, z: nat)
    requires x > 0 && x as int * Pow(2, z) < BASE
    ensures z < 32
  {
    if z >= 32 {
      PowerOfTwo32();
      PowMonotone(2, 32, z);
      MulLeft(1, x as int, Pow(2, z));
    }
  }

  lemma PowerOfTwo31()
    ensures Pow(2, 31) == 0x8000_0000
  {
    PowerOfTwo32();
    PowAdd(2, 1, 31);
    assert Pow(2, 1) == 2;
  }

  lemma PowerOfTwo32()
    ensures Pow(2, 32) == BASE
  {
    PowAdd(2, 8, 8);
    PowAdd(2, 16, 16);
  }
}
