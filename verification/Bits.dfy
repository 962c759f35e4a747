/**
 Fixed-width words and the bit operations of C++ on them.

 A word is a natural number below a power of two. Bitwise operators and shifts are defined one
 bit at a time, so that every fact about them is a linear induction over the bits, and `Bit` is
 the common view through which the results of different operators are compared.
 */
module Bits {

  type u8 = x: int | 0 <= x < 0x100
  type u32 = x: int | 0 <= x < 0x1_0000_0000
  type u64 = x: int | 0 <= x < 0x1_0000_0000_0000_0000

  function Pow2(n: nat): (p: nat)
    ensures p >= 1
  {
    if n == 0 then 1 else 2 * Pow2(n - 1)
  }

  /** Truncation to 64 bits. */
  function Wrap64(x: int): u64 {
    x % 0x1_0000_0000_0000_0000
  }

  /** Truncation to 32 bits. */
  function Wrap32(x: int): u32 {
    x % 0x1_0000_0000
  }

  /** Reading a 64-bit word as two's complement. */
  function Signed64(x: u64): int {
    if x < 0x8000_0000_0000_0000 then x else x - 0x1_0000_0000_0000_0000
  }

  /** Reading a 32-bit word as two's complement. */
  function Signed32(x: u32): int {
    if x < 0x8000_0000 then x else x - 0x1_0000_0000
  }

  /** Bit `i` of `x`, bit 0 being the least significant. */
  predicate Bit(x: nat, i: nat) {
    if i == 0 then x % 2 == 1 else Bit(x / 2, i - 1)
  }

  function And(a: nat, b: nat): nat {
    if a == 0 || b == 0 then 0
    else 2 * And(a / 2, b / 2) + if a % 2 == 1 && b % 2 == 1 then 1 else 0
  }

  function Or(a: nat, b: nat): nat {
    if a == 0 then b else if b == 0 then a
    else 2 * Or(a / 2, b / 2) + if a % 2 == 1 || b % 2 == 1 then 1 else 0
  }

  function Xor(a: nat, b: nat): nat {
    if a == 0 then b else if b == 0 then a
    else 2 * Xor(a / 2, b / 2) + if a % 2 != b % 2 then 1 else 0
  }

  /** `x * 2^k`: `k` doublings. */
  function Scale(x: nat, k: nat): nat {
    if k == 0 then x else 2 * Scale(x, k - 1)
  }

  /** `x >> k` on an unsigned word: `k` halvings. */
  function Shr(x: nat, k: nat): nat {
    if k == 0 then x else Shr(x / 2, k - 1)
  }

  /** `x >> k` on a signed number: `k` halvings, each rounding down. */
  function ArithShr(x: int, k: nat): int
    decreases k
  {
    if k == 0 then x else ArithShr(x / 2, k - 1)
  }

  /** The low `n` bits of `x`. */
  function Low(x: nat, n: nat): nat {
    if n == 0 then 0 else 2 * Low(x / 2, n - 1) + x % 2
  }

  function And64(a: u64, b: u64): u64 {
    AndBelow(a, b);
    And(a, b)
  }

  function Or64(a: u64, b: u64): u64 {
    Pow2Constants();
    OrBelow(a, b, 64);
    Or(a, b)
  }

  function Or32(a: u32, b: u32): u32 {
    Pow2Constants();
    OrBelow(a, b, 32);
    Or(a, b)
  }

  function Xor64(a: u64, b: u64): u64 {
    Pow2Constants();
    XorBelow(a, b, 64);
    Xor(a, b)
  }

  /** `~x` on a 64-bit word. */
  function Not64(x: u64): u64 {
    0xffff_ffff_ffff_ffff - x
  }

  /** `x << k` on a 64-bit word. */
  function Shl64(x: u64, k: nat): u64 {
    Wrap64(Scale(x, k))
  }

  function Shr64(x: u64, k: nat): u64 {
    ShrShrinks(x, k);
    Shr(x, k)
  }

  /** `(int64_t) x >> k`. */
  function Asr64(x: u64, k: nat): u64 {
    Wrap64(ArithShr(Signed64(x), k))
  }

  /** `(int32_t) x >> k`, converted to 64 bits by sign extension. */
  function Asr32(x: u64, k: nat): u64 {
    Wrap64(ArithShr(Signed32(Wrap32(x)), k))
  }

  // ---------------------------------------------------------------- powers of two

  lemma {:induction false} Pow2Monotone(a: nat, b: nat)
    requires a <= b
    ensures Pow2(a) <= Pow2(b)
    decreases b - a
  {
    if a < b { Pow2Monotone(a + 1, b); }
  }

  lemma Pow2Eight(n: nat)
    ensures Pow2(n + 8) == 0x100 * Pow2(n)
  {
    assert Pow2(n + 4) == 2 * Pow2(n + 3) == 4 * Pow2(n + 2) == 8 * Pow2(n + 1);
    assert Pow2(n + 8) == 2 * Pow2(n + 7) == 4 * Pow2(n + 6) == 8 * Pow2(n + 5);
  }

  lemma ScaleEight(x: nat, n: nat)
    ensures Scale(x, n + 8) == 0x100 * Scale(x, n)
  {
    assert Scale(x, n + 4) == 2 * Scale(x, n + 3) == 4 * Scale(x, n + 2) == 8 * Scale(x, n + 1);
    assert Scale(x, n + 8) == 2 * Scale(x, n + 7) == 4 * Scale(x, n + 6) == 8 * Scale(x, n + 5);
  }

  lemma Pow2Constants()
    ensures Pow2(8) == 0x100 && Pow2(16) == 0x1_0000 && Pow2(32) == 0x1_0000_0000
    ensures Pow2(63) == 0x8000_0000_0000_0000 && Pow2(64) == 0x1_0000_0000_0000_0000
  {
    Pow2Eight(0);
    Pow2Eight(8);
    Pow2Eight(16);
    Pow2Eight(24);
    Pow2Eight(32);
    Pow2Eight(40);
    Pow2Eight(48);
    Pow2Eight(56);
  }

  // ---------------------------------------------------------------- shifts are arithmetic

  lemma DivUnique(x: int, d: int, q: int, r: int)
    requires d > 0 && x == q * d + r && 0 <= r < d
    ensures x / d == q && x % d == r
  {
    var e := x / d - q;
    assert e * d == r - x % d by {
      assert (x / d) * d == (q + e) * d == q * d + e * d;
    }
    MulAtLeast(e, d);
  }

  lemma MulAtLeast(e: int, d: int)
    requires d > 0
    ensures e >= 1 ==> e * d >= d
    ensures e <= -1 ==> e * d <= -d
  {
    if e >= 1 {
      assert e * d == (e - 1) * d + d;
    } else if e <= -1 {
      assert -e * d == (-e - 1) * d + d;
    }
  }

  lemma {:induction false} ScaleIsTimes(x: nat, k: nat)
    ensures Scale(x, k) == x * Pow2(k)
  {
    if k > 0 {
      ScaleIsTimes(x, k - 1);
      assert x * (2 * Pow2(k - 1)) == 2 * (x * Pow2(k - 1));
    }
  }

  lemma {:induction false} Split(x: nat, n: nat)
    ensures x == Scale(Shr(x, n), n) + Low(x, n)
    ensures Low(x, n) < Pow2(n)
    decreases n
  {
    if n > 0 { Split(x / 2, n - 1); }
  }

  /** Shifting right and keeping the low bits are quotient and remainder. */
  lemma ShrAndLow(x: nat, n: nat)
    ensures Shr(x, n) == x / Pow2(n) && Low(x, n) == x % Pow2(n)
  {
    Split(x, n);
    ScaleIsTimes(Shr(x, n), n);
    DivUnique(x, Pow2(n), Shr(x, n), Low(x, n));
  }

  lemma {:induction false} ShrAdd(x: nat, a: nat, b: nat)
    ensures Shr(x, a + b) == Shr(Shr(x, a), b)
    decreases a
  {
    if a > 0 { ShrAdd(x / 2, a - 1, b); }
  }

  lemma {:induction false} LowAdd(x: nat, a: nat, b: nat)
    ensures Low(x, a + b) == Scale(Low(Shr(x, a), b), a) + Low(x, a)
    decreases a
  {
    if a > 0 { LowAdd(x / 2, a - 1, b); }
  }

  /** The lowest byte and the bytes above it. */
  lemma Byte(x: nat)
    ensures Shr(x, 8) == x / 0x100 && Low(x, 8) == x % 0x100
  {
    Pow2Eight(0);
    ShrAndLow(x, 8);
  }

  lemma LowIsWrap64(x: nat)
    ensures Low(x, 64) == Wrap64(x)
  {
    Pow2Constants();
    ShrAndLow(x, 64);
  }

  lemma LowIsWrap32(x: nat)
    ensures Low(x, 32) == Wrap32(x)
  {
    Pow2Constants();
    ShrAndLow(x, 32);
  }

  lemma {:induction false} ShrShrinks(x: nat, k: nat)
    ensures Shr(x, k) <= x
    decreases k
  {
    if k > 0 { ShrShrinks(x / 2, k - 1); }
  }

  lemma {:induction false} ArithShrCases(x: nat, k: nat)
    ensures ArithShr(x, k) == Shr(x, k)
    ensures ArithShr(-1 - x, k) == -1 - Shr(x, k)
    decreases k
  {
    if k > 0 {
      assert (-1 - x) / 2 == -1 - x / 2;
      ArithShrCases(x / 2, k - 1);
    }
  }

  // ---------------------------------------------------------------- bits of each operator

  lemma {:induction false} BitOfZero(i: nat)
    ensures !Bit(0, i)
  {
    if i > 0 { BitOfZero(i - 1); }
  }

  lemma AndStep(a: nat, b: nat)
    ensures And(a, b) == 2 * And(a / 2, b / 2) + if a % 2 == 1 && b % 2 == 1 then 1 else 0
  {
  }

  lemma OrStep(a: nat, b: nat)
    ensures Or(a, b) == 2 * Or(a / 2, b / 2) + if a % 2 == 1 || b % 2 == 1 then 1 else 0
  {
  }

  lemma XorStep(a: nat, b: nat)
    ensures Xor(a, b) == 2 * Xor(a / 2, b / 2) + if a % 2 != b % 2 then 1 else 0
  {
  }

  lemma {:induction false} BitAnd(a: nat, b: nat, i: nat)
    ensures Bit(And(a, b), i) == (Bit(a, i) && Bit(b, i))
    decreases i
  {
    var o := And(a, b);
    AndStep(a, b);
    assert o / 2 == And(a / 2, b / 2);
    if i > 0 { BitAnd(a / 2, b / 2, i - 1); }
  }

  lemma {:induction false} BitOr(a: nat, b: nat, i: nat)
    ensures Bit(Or(a, b), i) == (Bit(a, i) || Bit(b, i))
    decreases i
  {
    var o := Or(a, b);
    OrStep(a, b);
    assert o / 2 == Or(a / 2, b / 2);
    if i > 0 { BitOr(a / 2, b / 2, i - 1); }
  }

  lemma {:induction false} BitXor(a: nat, b: nat, i: nat)
    ensures Bit(Xor(a, b), i) == (Bit(a, i) != Bit(b, i))
    decreases i
  {
    var o := Xor(a, b);
    XorStep(a, b);
    assert o / 2 == Xor(a / 2, b / 2);
    if i > 0 { BitXor(a / 2, b / 2, i - 1); }
  }

  /** A number below `2^n` has no bit at or above position `n`. */
  lemma {:induction false} BitAbove(x: nat, n: nat, i: nat)
    requires x < Pow2(n) && n <= i
    ensures !Bit(x, i)
    decreases n
  {
    if n == 0 { BitOfZero(i); } else { BitAbove(x / 2, n - 1, i - 1); }
  }

  lemma {:induction false} BitShr(x: nat, k: nat, i: nat)
    ensures Bit(Shr(x, k), i) == Bit(x, i + k)
    decreases k
  {
    if k > 0 { BitShr(x / 2, k - 1, i); }
  }

  lemma {:induction false} BitScale(x: nat, k: nat, i: nat)
    ensures Bit(Scale(x, k), i) == (i >= k && Bit(x, i - k))
    decreases k
  {
    if k > 0 && i > 0 {
      assert Scale(x, k) / 2 == Scale(x, k - 1);
      BitScale(x, k - 1, i - 1);
    }
  }

  lemma {:induction false} BitLow(x: nat, n: nat, i: nat)
    ensures Bit(Low(x, n), i) == (i < n && Bit(x, i))
    decreases n
  {
    if n == 0 {
      BitOfZero(i);
    } else if i > 0 {
      assert Low(x, n) / 2 == Low(x / 2, n - 1);
      BitLow(x / 2, n - 1, i - 1);
    }
  }

  lemma BitShl64(x: u64, k: nat, i: nat)
    ensures Bit(Shl64(x, k), i) == (k <= i < 64 && Bit(x, i - k))
  {
    LowIsWrap64(Scale(x, k));
    BitLow(Scale(x, k), 64, i);
    BitScale(x, k, i);
  }

  lemma {:induction false} BitComplement(x: nat, n: nat, i: nat)
    requires x < Pow2(n)
    ensures Bit(Pow2(n) - 1 - x, i) == (i < n && !Bit(x, i))
    decreases n
  {
    if n == 0 {
      BitOfZero(i);
    } else if i > 0 {
      assert (Pow2(n) - 1 - x) / 2 == Pow2(n - 1) - 1 - x / 2;
      BitComplement(x / 2, n - 1, i - 1);
    }
  }

  lemma BitNot64(x: u64, i: nat)
    ensures Bit(Not64(x), i) == (i < 64 && !Bit(x, i))
  {
    Pow2Constants();
    BitComplement(x, 64, i);
  }

  lemma BitOnes(n: nat, i: nat)
    ensures Bit(Pow2(n) - 1, i) == (i < n)
  {
    BitComplement(0, n, i);
    BitOfZero(i);
  }

  /** The top bit of a number below `2^n`. */
  lemma {:induction false} BitTop(x: nat, n: nat)
    requires n > 0 && x < Pow2(n)
    ensures Bit(x, n - 1) == (x >= Pow2(n - 1))
  {
    if n > 1 { BitTop(x / 2, n - 1); }
  }

  lemma TopBit64(x: u64)
    ensures Bit(x, 63) == (x >= 0x8000_0000_0000_0000)
  {
    Pow2Constants();
    BitTop(x, 64);
  }

  lemma HighBits64(x: u64, i: nat)
    ensures i >= 64 ==> !Bit(x, i)
  {
    Pow2Constants();
    if i >= 64 { BitAbove(x, 64, i); }
  }

  lemma AsrCases(x: u64, k: nat)
    ensures Asr64(x, k) == if x < 0x8000_0000_0000_0000 then Shr64(x, k) else Not64(Shr64(Not64(x), k))
  {
    if x < 0x8000_0000_0000_0000 {
      ArithShrCases(x, k);
    } else {
      ArithShrCases(Not64(x), k);
    }
  }

  /** An arithmetic shift copies the sign bit into the vacated positions. */
  lemma BitAsr64(x: u64, k: nat, i: nat)
    requires k < 64
    ensures Bit(Asr64(x, k), i) == (i < 64 && Bit(x, if i + k < 64 then i + k else 63))
  {
    AsrCases(x, k);
    TopBit64(x);
    if x < 0x8000_0000_0000_0000 {
      BitShr(x, k, i);
      HighBits64(x, i + k);
    } else {
      BitNot64(Shr64(Not64(x), k), i);
      BitShr(Not64(x), k, i);
      BitNot64(x, i + k);
    }
  }

  // ---------------------------------------------------------------- sizes and sums

  /** Two words with the same bits are the same word. */
  lemma {:induction false} SameBits(a: nat, b: nat, n: nat)
    requires a < Pow2(n) && b < Pow2(n)
    requires forall i: nat :: i < n ==> Bit(a, i) == Bit(b, i)
    ensures a == b
  {
    if n > 0 {
      assert Bit(a, 0) == Bit(b, 0);
      forall i: nat | i < n - 1 ensures Bit(a / 2, i) == Bit(b / 2, i) {
        assert Bit(a, i + 1) == Bit(b, i + 1);
      }
      SameBits(a / 2, b / 2, n - 1);
    }
  }

  lemma {:induction false} AndBelow(a: nat, b: nat)
    ensures And(a, b) <= a && And(a, b) <= b
  {
    if a != 0 && b != 0 { AndBelow(a / 2, b / 2); }
  }

  lemma {:induction false} OrBelow(a: nat, b: nat, n: nat)
    requires a < Pow2(n) && b < Pow2(n)
    ensures Or(a, b) < Pow2(n)
  {
    if a != 0 && b != 0 { OrBelow(a / 2, b / 2, n - 1); }
  }

  lemma {:induction false} XorBelow(a: nat, b: nat, n: nat)
    requires a < Pow2(n) && b < Pow2(n)
    ensures Xor(a, b) < Pow2(n)
  {
    if a != 0 && b != 0 { XorBelow(a / 2, b / 2, n - 1); }
  }

  /** `|` works separately on the bits below position `n` and on those above. */
  lemma {:induction false} OrSplit(a: nat, b: nat, c: nat, d: nat, n: nat)
    requires b < Pow2(n) && d < Pow2(n)
    ensures Or(Scale(a, n) + b, Scale(c, n) + d) == Scale(Or(a, c), n) + Or(b, d)
    decreases n
  {
    if n > 0 {
      var s, t := Scale(a, n) + b, Scale(c, n) + d;
      OrStep(s, t);
      OrStep(b, d);
      assert s / 2 == Scale(a, n - 1) + b / 2 && s % 2 == b % 2;
      assert t / 2 == Scale(c, n - 1) + d / 2 && t % 2 == d % 2;
      OrSplit(a, b / 2, c, d / 2, n - 1);
    }
  }

  /** `|` of words that share no bit position is their sum. */
  lemma OrDisjoint(high: nat, low: nat, n: nat)
    requires low < Pow2(n)
    ensures Or(Scale(high, n), low) == Scale(high, n) + low
  {
    ScaleOfZero(n);
    OrSplit(high, 0, 0, low, n);
  }

  lemma {:induction false} ScaleOfZero(n: nat)
    ensures Scale(0, n) == 0
  {
    if n > 0 { ScaleOfZero(n - 1); }
  }

  /** Adding is adding the carries, doubled, to the sum without carries. */
  lemma {:induction false} HalfAdder(a: nat, b: nat)
    ensures a + b == 2 * And(a, b) + Xor(a, b)
  {
    if a != 0 && b != 0 { HalfAdder(a / 2, b / 2); }
  }
}
