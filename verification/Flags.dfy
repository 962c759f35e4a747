/**
 The condition flags: how a flag-setting operation computes them, and what a condition code
 then says about the operands.
 */
module Flags {
  import opened Bits

  // ---------------------------------------------------------------- the NZCV word

  predicate NFlag(nzcv: u32) { nzcv / 0x8000_0000 % 2 == 1 }
  predicate ZFlag(nzcv: u32) { nzcv / 0x4000_0000 % 2 == 1 }
  predicate CFlag(nzcv: u32) { nzcv / 0x2000_0000 % 2 == 1 }
  predicate VFlag(nzcv: u32) { nzcv / 0x1000_0000 % 2 == 1 }

  /** The word that has exactly the given flags set. */
  function Pack(n: bool, z: bool, c: bool, v: bool): u32 {
    TopFlags(n, z, c) * 0x2000_0000 + if v then 0x1000_0000 else 0
  }

  /** The three most significant flags as a number. */
  function TopFlags(n: bool, z: bool, c: bool): (k: nat)
    ensures k < 8
  {
    (if n then 4 else 0) + (if z then 2 else 0) + (if c then 1 else 0)
  }

  lemma PackFlags(n: bool, z: bool, c: bool, v: bool)
    ensures var f := Pack(n, z, c, v);
            NFlag(f) == n && ZFlag(f) == z && CFlag(f) == c && VFlag(f) == v
  {
  }

  /** Whether condition code `cond` holds of the flags. */
  predicate CondHold(nzcv: u32, cond: nat) {
    CondTable(NFlag(nzcv), ZFlag(nzcv), CFlag(nzcv), VFlag(nzcv), cond)
  }

  predicate CondTable(n: bool, z: bool, c: bool, v: bool, cond: nat) {
    var result :=
      match cond / 2
      case 0 => z
      case 1 => c
      case 2 => n
      case 3 => v
      case 4 => c && !z
      case 5 => n == v
      case 6 => n == v && !z
      case _ => true;
    if cond / 2 >= 7 then true
    else if cond % 2 == 1 then !result else result
  }

  lemma CondHoldOfPack(n: bool, z: bool, c: bool, v: bool, cond: nat)
    ensures CondHold(Pack(n, z, c, v), cond) == CondTable(n, z, c, v, cond)
  {
    PackFlags(n, z, c, v);
  }

  // ---------------------------------------------------------------- flags of a sum

  predicate IsNegative32(x: u32) { x >= 0x8000_0000 }
  predicate IsNegative64(x: u64) { x >= 0x8000_0000_0000_0000 }

  /** Top bit of the overflow-free average `(a & b) + ((a ^ b) >> 1)`. */
  predicate AverageCarry64(a: u64, b: u64) {
    Wrap64(And(a, b) + Shr(Xor(a, b), 1)) >= 0x8000_0000_0000_0000
  }

  predicate AverageCarry32(a: u32, b: u32) {
    Wrap32(And(a, b) + Shr(Xor(a, b), 1)) >= 0x8000_0000
  }

  /** Two operands of one sign whose sum has the other. */
  predicate SumOverflow64(a: u64, b: u64, res: u64) {
    (IsNegative64(a) && IsNegative64(b) && !IsNegative64(res))
    || (!IsNegative64(a) && !IsNegative64(b) && IsNegative64(res))
  }

  predicate SumOverflow32(a: u32, b: u32, res: u32) {
    (IsNegative32(a) && IsNegative32(b) && !IsNegative32(res))
    || (!IsNegative32(a) && !IsNegative32(b) && IsNegative32(res))
  }

  function FlagsOf64(res: u64, a: u64, b: u64): u32 {
    Pack(IsNegative64(res),
         res == 0,
         AverageCarry64(a, b),
         SumOverflow64(a, b, res))
  }

  function FlagsOf32(res: u32, a: u32, b: u32): u32 {
    Pack(IsNegative32(res),
         res == 0,
         AverageCarry32(a, b),
         SumOverflow32(a, b, res))
  }

  /** `-(int64_t) y`, with two's-complement wrap-around of the one value that overflows. */
  function Neg64(y: u64): u64 {
    Wrap64(-Signed64(y))
  }

  /** `-(int32_t) y`, converted to 64 bits by sign extension. */
  function Neg32(y: u64): u64 {
    Wrap64(Signed32(Wrap32(-Signed32(Wrap32(y)))))
  }

  /** The flags that a flag-setting subtract of `y` from `x` leaves. */
  function SubFlags(x: u64, y: u64, bit64: bool): u32 {
    if bit64 then
      var f := FlagsOf64(Wrap64(x + Neg64(y)), x, Neg64(y));
      if Neg64(y) == 0 then Or32(f, 0x2000_0000) else f
    else
      FlagsOf32(Wrap32(Wrap64(x + Neg32(y))), Wrap32(x), Wrap32(Neg32(y)))
  }

  /** The half adder of the carry computation is the average, rounded down. */
  lemma AverageIs(a: nat, b: nat)
    ensures And(a, b) + Shr(Xor(a, b), 1) == (a + b) / 2
  {
    HalfAdder(a, b);
    var x := Xor(a, b);
    assert Shr(x, 1) == x / 2;
  }

  /** The average-based carry is the carry out of the full-width sum. */
  lemma CarryIsExact64(a: u64, b: u64)
    ensures AverageCarry64(a, b) <==> a + b >= 0x1_0000_0000_0000_0000
  {
    AverageIs(a, b);
    WrapOnce64((a + b) / 2);
  }

  lemma CarryIsExact32(a: u32, b: u32)
    ensures AverageCarry32(a, b) <==> a + b >= 0x1_0000_0000
  {
    AverageIs(a, b);
    WrapOnce32((a + b) / 2);
  }

  /** Setting the carry flag with `|=` changes no other flag. */
  lemma SetCarry(n: bool, z: bool, c: bool, v: bool)
    ensures Or32(Pack(n, z, c, v), 0x2000_0000) == Pack(n, z, true, v)
  {
    OrBit29(TopFlags(n, z, c), if v then 0x1000_0000 else 0);
  }

  lemma OrBit29(high: nat, low: nat)
    requires high < 8 && low < 0x2000_0000
    ensures Or(high * 0x2000_0000 + low, 0x2000_0000)
         == (if high % 2 == 1 then high else high + 1) * 0x2000_0000 + low
  {
    Scale29(high);
    Scale29(1);
    Scale29(Or(high, 1));
    PowTwo29();
    OrSplit(high, low, 1, 0, 29);
    OrStep(high, 1);
    assert Or(high, 1) == if high % 2 == 1 then high else high + 1;
  }

  lemma PowTwo29()
    ensures Pow2(29) == 0x2000_0000
  {
    Pow2Eight(21);
    Pow2Eight(13);
    Pow2Eight(5);
  }

  lemma Scale29(x: nat)
    ensures Scale(x, 29) == x * 0x2000_0000
  {
    ScaleIsTimes(x, 29);
    PowTwo29();
  }

  // ---------------------------------------------------------------- meaning of a comparison

  /** What condition `cond` asserts of a comparison of `x` with `y` (section C1.2.4). */
  predicate Relation64(cond: nat, x: u64, y: u64)
    requires cond < 14
  {
    var sx, sy := Signed64(x), Signed64(y);
    match cond
    case 0 => x == y
    case 1 => x != y
    case 2 => x >= y
    case 3 => x < y
    case 4 => IsNegative64(Wrap64(x - y))
    case 5 => !IsNegative64(Wrap64(x - y))
    case 6 => sx - sy < -0x8000_0000_0000_0000 || sx - sy >= 0x8000_0000_0000_0000
    case 7 => -0x8000_0000_0000_0000 <= sx - sy < 0x8000_0000_0000_0000
    case 8 => x > y
    case 9 => x <= y
    case 10 => sx >= sy
    case 11 => sx < sy
    case 12 => sx > sy
    case 13 => sx <= sy
  }

  predicate Relation32(cond: nat, x: u32, y: u32)
    requires cond < 14
  {
    var sx, sy := Signed32(x), Signed32(y);
    match cond
    case 0 => x == y
    case 1 => x != y
    case 2 => x >= y
    case 3 => x < y
    case 4 => IsNegative32(Wrap32(x - y))
    case 5 => !IsNegative32(Wrap32(x - y))
    case 6 => sx - sy < -0x8000_0000 || sx - sy >= 0x8000_0000
    case 7 => -0x8000_0000 <= sx - sy < 0x8000_0000
    case 8 => x > y
    case 9 => x <= y
    case 10 => sx >= sy
    case 11 => sx < sy
    case 12 => sx > sy
    case 13 => sx <= sy
  }

  predicate Relation(cond: nat, x: u64, y: u64, bit64: bool)
    requires cond < 14
  {
    if bit64 then Relation64(cond, x, y) else Relation32(cond, Wrap32(x), Wrap32(y))
  }

  /**
   The operands for which the comparison is decided correctly. Negating the most negative value
   gives it back, which flips the overflow flag; and a 32-bit subtract of zero adds zero, which
   leaves the carry clear where "no borrow" should set it.
   */
  predicate Decidable(cond: nat, x: u64, y: u64, bit64: bool) {
    var k := cond / 2;
    if bit64 then
      y == 0x8000_0000_0000_0000 ==> k != 3 && k != 5 && (k == 6 ==> x == y)
    else
      DecidableWords32(cond, Wrap32(x), Wrap32(y))
  }

  predicate DecidableWords32(cond: nat, a: u32, b: u32) {
    var k := cond / 2;
    && (b == 0 ==> k != 1 && (k == 4 ==> a == 0))
    && (b == 0x8000_0000 ==> k != 3 && k != 5 && (k == 6 ==> a == b))
  }

  /**
   Subtract-then-test agrees with the integer relation for exactly the operands that are
   `Decidable`, for both widths and every condition code that names a relation.
   */
  lemma CompareThenDecide(cond: nat, x: u64, y: u64, bit64: bool)
    requires cond < 14
    ensures CondHold(SubFlags(x, y, bit64), cond) == Relation(cond, x, y, bit64)
            <==> Decidable(cond, x, y, bit64)
  {
    if bit64 {
      Compare64(cond, x, y);
    } else {
      Compare32(cond, x, y);
    }
  }

  lemma WrapOnce64(z: int)
    requires -0x1_0000_0000_0000_0000 <= z < 0x2_0000_0000_0000_0000
    ensures Wrap64(z) == if z < 0 then z + 0x1_0000_0000_0000_0000
                         else if z < 0x1_0000_0000_0000_0000 then z else z - 0x1_0000_0000_0000_0000
  {
  }

  lemma Neg64Is(y: u64)
    ensures Neg64(y) == if y == 0 then 0 else 0x1_0000_0000_0000_0000 - y
  {
    WrapOnce64(-Signed64(y));
  }

  lemma WrapModulus64(z: int)
    ensures Wrap64(z + 0x1_0000_0000_0000_0000) == Wrap64(z)
  {
  }

  lemma DifferenceIsZero64(x: u64, y: u64)
    ensures Wrap64(x - y) == 0 <==> x == y
  {
    WrapOnce64(x - y);
  }

  /** The sum with the negated operand, as integers. */
  lemma NegatedSum64(x: u64, y: u64)
    ensures Wrap64(x + Neg64(y)) == Wrap64(x - y)
    ensures x + Neg64(y) >= 0x1_0000_0000_0000_0000 || Neg64(y) == 0 <==> x >= y
  {
    Neg64Is(y);
    if y != 0 {
      assert x + Neg64(y) == (x - y) + 0x1_0000_0000_0000_0000;
      WrapModulus64(x - y);
    }
  }

  /** Signed overflow of the sum is signed overflow of the difference, unless negation overflowed. */
  lemma NegatedOverflow64(x: u64, y: u64)
    ensures SumOverflow64(x, Neg64(y), Wrap64(x - y)) == Relation64(6, x, y)
            <==> y != 0x8000_0000_0000_0000
  {
    WrapOnce64(x - y);
    Neg64Is(y);
  }

  /** The flags after a 64-bit subtract: zero, carry and sign are those of the difference. */
  lemma SubFlags64(x: u64, y: u64)
    ensures SubFlags(x, y, true)
         == Pack(IsNegative64(Wrap64(x - y)), x == y, x >= y, SumOverflow64(x, Neg64(y), Wrap64(x - y)))
  {
    var m, d := Neg64(y), Wrap64(x - y);
    NegatedSum64(x, y);
    DifferenceIsZero64(x, y);
    CarryIsExact64(x, m);
    SetCarry(IsNegative64(d), d == 0, AverageCarry64(x, m), SumOverflow64(x, m, d));
  }

  lemma Compare64(cond: nat, x: u64, y: u64)
    requires cond < 14
    ensures CondHold(SubFlags(x, y, true), cond) == Relation64(cond, x, y)
            <==> Decidable(cond, x, y, true)
  {
    var d := Wrap64(x - y);
    SubFlags64(x, y);
    CondHoldOfPack(IsNegative64(d), x == y, x >= y, SumOverflow64(x, Neg64(y), d), cond);
    NegatedOverflow64(x, y);
    SignedOrder64(x, y);
  }

  /** Signed order from the sign of the difference and its overflow. */
  lemma SignedOrder64(x: u64, y: u64)
    ensures Signed64(x) >= Signed64(y) <==> (IsNegative64(Wrap64(x - y)) == Relation64(6, x, y))
    ensures Signed64(x) == Signed64(y) <==> x == y
  {
    WrapOnce64(x - y);
  }

  lemma WrapOnce32(z: int)
    requires -0x1_0000_0000 <= z < 0x2_0000_0000
    ensures Wrap32(z) == if z < 0 then z + 0x1_0000_0000
                         else if z < 0x1_0000_0000 then z else z - 0x1_0000_0000
  {
  }

  lemma WrapModulus32(z: int)
    ensures Wrap32(z + 0x1_0000_0000) == Wrap32(z)
  {
  }

  lemma WrapTwice(z: int)
    ensures Wrap32(Wrap64(z)) == Wrap32(z)
  {
    var q := z / 0x1_0000_0000_0000_0000;
    assert z == Wrap64(z) + 0x1_0000_0000 * (0x1_0000_0000 * q);
  }

  lemma WrapSigned32(w: u32)
    ensures Wrap32(Signed32(w)) == w
  {
    WrapOnce32(Signed32(w));
  }

  /** Sums of 32-bit parts, when only the low 32 bits of the result are kept. */
  lemma WrapSum32(x: int, y: int)
    ensures Wrap32(x + y) == Wrap32(Wrap32(x) + Wrap32(y))
  {
    var p, q := x / 0x1_0000_0000, y / 0x1_0000_0000;
    assert x + y == Wrap32(x) + Wrap32(y) + 0x1_0000_0000 * (p + q);
  }

  lemma WrapDifference32(x: int, y: int)
    ensures Wrap32(x - y) == Wrap32(Wrap32(x) as int - Wrap32(y))
  {
    var p, q := x / 0x1_0000_0000, y / 0x1_0000_0000;
    assert x - y == (Wrap32(x) as int - Wrap32(y)) + 0x1_0000_0000 * (p - q);
  }

  /** The low 32 bits of `-(int32_t) y`, whatever the sign extension puts above them. */
  lemma NegatedLow32(y: u64)
    ensures Wrap32(Neg32(y)) == if Wrap32(y) == 0 then 0 else 0x1_0000_0000 - Wrap32(y)
  {
    var z := -Signed32(Wrap32(y));
    WrapTwice(Signed32(Wrap32(z)));
    WrapSigned32(Wrap32(z));
    WrapOnce32(z);
  }

  lemma NegatedSum32(x: u64, y: u64)
    ensures var a: int, b: int, m: int := Wrap32(x), Wrap32(y), Wrap32(Neg32(y));
            && Wrap32(Wrap64(x + Neg32(y))) == Wrap32(a - b)
            && m == Wrap32(0 - b)
            && (a + m >= 0x1_0000_0000 <==> a >= b && b != 0)
  {
    var a: int, b: int, m: int := Wrap32(x), Wrap32(y), Wrap32(Neg32(y));
    NegatedLow32(y);
    WrapTwice(x + Neg32(y));
    WrapSum32(x, Neg32(y));
    if b != 0 {
      assert a + m == (a - b) + 0x1_0000_0000;
      WrapModulus32(a - b);
    }
    WrapOnce32(0 - b);
  }

  lemma DifferenceIsZero32(a: u32, b: u32)
    ensures Wrap32(a - b) == 0 <==> a == b
  {
    WrapOnce32(a - b);
  }

  lemma NegatedOverflow32(a: u32, b: u32)
    ensures SumOverflow32(a, Wrap32(0 - b), Wrap32(a - b)) == Relation32(6, a, b)
            <==> b != 0x8000_0000
  {
    WrapOnce32(a - b);
    WrapOnce32(0 - b);
  }

  /** The flags after a 32-bit subtract; the carry is wrong when zero is subtracted. */
  lemma SubFlags32(x: u64, y: u64)
    ensures var a, b := Wrap32(x), Wrap32(y);
            SubFlags(x, y, false) ==
            Pack(IsNegative32(Wrap32(a - b)), a == b, a >= b && b != 0, SumOverflow32(a, Wrap32(0 - b), Wrap32(a - b)))
  {
    NegatedSum32(x, y);
    SubFlagsFrom(Wrap32(x), Wrap32(y));
  }

  lemma SubFlagsFrom(a: u32, b: u32)
    requires a as int + Wrap32(0 - b) >= 0x1_0000_0000 <==> a >= b && b != 0
    ensures FlagsOf32(Wrap32(a - b), a, Wrap32(0 - b))
         == Pack(IsNegative32(Wrap32(a - b)), a == b, a >= b && b != 0, SumOverflow32(a, Wrap32(0 - b), Wrap32(a - b)))
  {
    DifferenceIsZero32(a, b);
    CarryIsExact32(a, Wrap32(0 - b));
  }

  lemma SignedOrder32(a: u32, b: u32)
    ensures Signed32(a) >= Signed32(b) <==> (IsNegative32(Wrap32(a - b)) == Relation32(6, a, b))
    ensures Signed32(a) == Signed32(b) <==> a == b
  {
    WrapOnce32(a - b);
  }

  lemma Compare32(cond: nat, x: u64, y: u64)
    requires cond < 14
    ensures CondHold(SubFlags(x, y, false), cond) == Relation32(cond, Wrap32(x), Wrap32(y))
            <==> Decidable(cond, x, y, false)
  {
    SubFlags32(x, y);
    CompareWords32(cond, Wrap32(x), Wrap32(y));
  }

  lemma CompareWords32(cond: nat, a: u32, b: u32)
    requires cond < 14
    ensures var d := Wrap32(a - b);
            CondHold(Pack(IsNegative32(d), a == b, a >= b && b != 0, SumOverflow32(a, Wrap32(0 - b), d)), cond)
            == Relation32(cond, a, b)
            <==> DecidableWords32(cond, a, b)
  {
    var d := Wrap32(a - b);
    CondHoldOfPack(IsNegative32(d), a == b, a >= b && b != 0, SumOverflow32(a, Wrap32(0 - b), d), cond);
    NegatedOverflow32(a, b);
    SignedOrder32(a, b);
  }

  // ---------------------------------------------------------------- meaning of a sum

  /** The flags that a flag-setting add of `x` and `y` leaves. */
  function AddFlags(x: u64, y: u64, bit64: bool): u32 {
    if bit64 then FlagsOf64(Wrap64(x + y), x, y)
    else FlagsOf32(Wrap32(Wrap64(x + y)), Wrap32(x), Wrap32(y))
  }

  /** What condition `cond` asserts of a sum: a comparison of `x` with the exact negation of `y`. */
  predicate SumRelation64(cond: nat, x: u64, y: u64)
    requires cond < 14
  {
    var sum := Signed64(x) + Signed64(y);
    match cond
    case 0 => Wrap64(x + y) == 0
    case 1 => Wrap64(x + y) != 0
    case 2 => x + y >= 0x1_0000_0000_0000_0000
    case 3 => x + y < 0x1_0000_0000_0000_0000
    case 4 => IsNegative64(Wrap64(x + y))
    case 5 => !IsNegative64(Wrap64(x + y))
    case 6 => sum < -0x8000_0000_0000_0000 || sum >= 0x8000_0000_0000_0000
    case 7 => -0x8000_0000_0000_0000 <= sum < 0x8000_0000_0000_0000
    case 8 => x + y > 0x1_0000_0000_0000_0000
    case 9 => x + y <= 0x1_0000_0000_0000_0000
    case 10 => sum >= 0
    case 11 => sum < 0
    case 12 => sum > 0
    case 13 => sum <= 0
  }

  predicate SumRelation32(cond: nat, a: u32, b: u32)
    requires cond < 14
  {
    var sum := Signed32(a) + Signed32(b);
    match cond
    case 0 => Wrap32(a + b) == 0
    case 1 => Wrap32(a + b) != 0
    case 2 => a + b >= 0x1_0000_0000
    case 3 => a + b < 0x1_0000_0000
    case 4 => IsNegative32(Wrap32(a + b))
    case 5 => !IsNegative32(Wrap32(a + b))
    case 6 => sum < -0x8000_0000 || sum >= 0x8000_0000
    case 7 => -0x8000_0000 <= sum < 0x8000_0000
    case 8 => a + b > 0x1_0000_0000
    case 9 => a + b <= 0x1_0000_0000
    case 10 => sum >= 0
    case 11 => sum < 0
    case 12 => sum > 0
    case 13 => sum <= 0
  }

  predicate SumRelation(cond: nat, x: u64, y: u64, bit64: bool)
    requires cond < 14
  {
    if bit64 then SumRelation64(cond, x, y) else SumRelation32(cond, Wrap32(x), Wrap32(y))
  }

  /** The overflow flag of a sum says that the signed sum is out of range. */
  lemma OverflowIsExact64(x: u64, y: u64)
    ensures SumOverflow64(x, y, Wrap64(x + y))
            <==> !(-0x8000_0000_0000_0000 <= Signed64(x) + Signed64(y) < 0x8000_0000_0000_0000)
  {
    WrapOnce64(x + y);
  }

  lemma OverflowIsExact32(a: u32, b: u32)
    ensures SumOverflow32(a, b, Wrap32(a + b)) <==> !(-0x8000_0000 <= Signed32(a) + Signed32(b) < 0x8000_0000)
  {
    WrapOnce32(a + b);
  }

  /** Add-then-test agrees with the integer relation for all operands, both widths and every condition code. */
  lemma AddThenDecide(cond: nat, x: u64, y: u64, bit64: bool)
    requires cond < 14
    ensures CondHold(AddFlags(x, y, bit64), cond) == SumRelation(cond, x, y, bit64)
  {
    if bit64 {
      DecideSum64(cond, x, y);
    } else {
      AddFlags32(x, y, Wrap32(x), Wrap32(y));
      DecideSum32(cond, Wrap32(x), Wrap32(y));
    }
  }

  lemma AddFlags32(x: u64, y: u64, a: u32, b: u32)
    requires a == Wrap32(x) && b == Wrap32(y)
    ensures AddFlags(x, y, false) == FlagsOf32(Wrap32(a + b), a, b)
  {
    WrapTwice(x + y);
    WrapSum32(x, y);
  }

  lemma DecideSum64(cond: nat, x: u64, y: u64)
    requires cond < 14
    ensures CondHold(FlagsOf64(Wrap64(x + y), x, y), cond) == SumRelation64(cond, x, y)
  {
    var d := Wrap64(x + y);
    CondHoldOfPack(IsNegative64(d), d == 0, AverageCarry64(x, y), SumOverflow64(x, y, d), cond);
    CarryIsExact64(x, y);
    OverflowIsExact64(x, y);
    WrapOnce64(x + y);
  }

  lemma DecideSum32(cond: nat, a: u32, b: u32)
    requires cond < 14
    ensures CondHold(FlagsOf32(Wrap32(a + b), a, b), cond) == SumRelation32(cond, a, b)
  {
    var d := Wrap32(a + b);
    CondHoldOfPack(IsNegative32(d), d == 0, AverageCarry32(a, b), SumOverflow32(a, b, d), cond);
    CarryIsExact32(a, b);
    OverflowIsExact32(a, b);
    WrapOnce32(a + b);
  }
}
