/** The 64 x 64 to 128 bit unsigned multiply, built from 32-bit halves. */
module Multiply {
  import opened Bits

  lemma ProductOrder(a: int, b: int, c: nat)
    requires a <= b
    ensures a * c <= b * c
  {
    var d := b - a;
    assert d * c >= 0;
    assert b * c == a * c + d * c;
  }

  /** The product of two 32-bit halves leaves room for the carries added to it later. */
  lemma HalfProduct(x: u32, y: u32)
    ensures 0 <= x * y <= 0xffff_fffe_0000_0001
  {
    ProductOrder(0, x, y);
    ProductOrder(x, 0xffff_ffff, y);
  }

  lemma Foil(ah: int, al: int, bh: int, bl: int)
    ensures (ah * 0x1_0000_0000 + al) * (bh * 0x1_0000_0000 + bl)
         == ah * bh * 0x1_0000_0000_0000_0000 + (al * bh + ah * bl) * 0x1_0000_0000 + al * bl
  {
    var b := bh * 0x1_0000_0000 + bl;
    assert (ah * 0x1_0000_0000 + al) * b == (ah * b) * 0x1_0000_0000 + al * b;
    assert ah * b == (ah * bh) * 0x1_0000_0000 + ah * bl;
    assert al * b == (al * bh) * 0x1_0000_0000 + al * bl;
  }

  /** The 128-bit number `high:low` is the product. */
  predicate IsProduct(high: int, low: int, a: int, b: int) {
    high * 0x1_0000_0000_0000_0000 + low == a * b
  }

  /** The high half is the product divided by 2^64, rounded down. */
  lemma HighHalf(high: u64, low: u64, a: u64, b: u64)
    requires IsProduct(high, low, a, b)
    ensures high == (a as int * b as int) / 0x1_0000_0000_0000_0000
  {
  }

  /** `Umul64`: the union halves are written one after the other, each truncated to its width. */
  method Umul64(arg1: u64, arg2: u64) returns (resHigh: u64, resLow: u64)
    ensures IsProduct(resHigh, resLow, arg1, arg2)
  {
    var aHigh, aLow := arg1 / 0x1_0000_0000, arg1 % 0x1_0000_0000;
    var bHigh, bLow := arg2 / 0x1_0000_0000, arg2 % 0x1_0000_0000;
    HalfProduct(aLow, bLow);
    HalfProduct(aLow, bHigh);
    HalfProduct(aHigh, bLow);
    HalfProduct(aHigh, bHigh);
    Foil(aHigh, aLow, bHigh, bLow);
    var rl: u64 := aLow * bLow;
    var rm: u64 := aLow * bHigh;
    var rn: u64 := aHigh * bLow;
    var rh: u64 := aHigh * bHigh;
    assert arg1 * arg2 == rh * 0x1_0000_0000_0000_0000 + (rm + rn) * 0x1_0000_0000 + rl by {
      assert arg1 == aHigh * 0x1_0000_0000 + aLow;
      assert arg2 == bHigh * 0x1_0000_0000 + bLow;
    }
    resHigh, resLow := AddHalves(rl, rm, rn, rh);
  }

  /** The last carry fits: a high half of 0xfffffffe has a low half of at most one. */
  lemma LastCarry(rh: u64, rhHigh: int, rhLow: int, mHigh: int, nHigh: int, carry: int, q: int, r: int)
    requires rh == rhHigh * 0x1_0000_0000 + rhLow <= 0xffff_fffe_0000_0001
    requires 0 <= rhLow < 0x1_0000_0000 && 0 <= mHigh <= 0xffff_fffe && 0 <= nHigh <= 0xffff_fffe && 0 <= carry <= 2
    requires carry + mHigh + nHigh + rhLow == q * 0x1_0000_0000 + r && 0 <= r < 0x1_0000_0000
    ensures 0 <= q && rhHigh + q < 0x1_0000_0000
  {
    if rhHigh == 0xffff_fffe {
      assert rhLow <= 1;
      assert q <= 1;
    } else {
      assert q <= 2;
    }
  }

  /** The sum of the partial products, half word by half word. */
  lemma ColumnSums(rlHigh: int, rlLow: int, mHigh: int, mLow: int, nHigh: int, nLow: int, rhHigh: int, rhLow: int,
                   q0: int, r0: int, q1: int, r1: int)
    requires rlHigh + mLow + nLow == q0 * 0x1_0000_0000 + r0
    requires q0 + mHigh + nHigh + rhLow == q1 * 0x1_0000_0000 + r1
    ensures ((rhHigh + q1) * 0x1_0000_0000 + r1) * 0x1_0000_0000_0000_0000 + (r0 * 0x1_0000_0000 + rlLow)
         == (rhHigh * 0x1_0000_0000 + rhLow) * 0x1_0000_0000_0000_0000
            + ((mHigh * 0x1_0000_0000 + mLow) + (nHigh * 0x1_0000_0000 + nLow)) * 0x1_0000_0000
            + (rlHigh * 0x1_0000_0000 + rlLow)
  {
  }

  /** The carry chain over the four partial products. */
  method AddHalves(rl: u64, rm: u64, rn: u64, rh: u64) returns (resHigh: u64, resLow: u64)
    requires rl <= 0xffff_fffe_0000_0001 && rm <= 0xffff_fffe_0000_0001
    requires rn <= 0xffff_fffe_0000_0001 && rh <= 0xffff_fffe_0000_0001
    ensures resHigh * 0x1_0000_0000_0000_0000 + resLow
         == rh * 0x1_0000_0000_0000_0000 + (rm + rn) * 0x1_0000_0000 + rl
  {
    var rlHigh, rlLow := rl / 0x1_0000_0000, rl % 0x1_0000_0000;
    var rhHigh, rhLow := rh / 0x1_0000_0000, rh % 0x1_0000_0000;
    var mHigh, mLow := rm / 0x1_0000_0000, rm % 0x1_0000_0000;
    var nHigh, nLow := rn / 0x1_0000_0000, rn % 0x1_0000_0000;
    var c: u64 := rlHigh + mLow + nLow;
    var q0, r0 := c / 0x1_0000_0000, c % 0x1_0000_0000;
    c := q0 + mHigh + nHigh + rhLow;
    var q1, r1 := c / 0x1_0000_0000, c % 0x1_0000_0000;
    LastCarry(rh, rhHigh, rhLow, mHigh, nHigh, q0, q1, r1);
    ColumnSums(rlHigh, rlLow, mHigh, mLow, nHigh, nLow, rhHigh, rhLow, q0, r0, q1, r1);
    resLow := r0 * 0x1_0000_0000 + rlLow;
    resHigh := (rhHigh + q1) % 0x1_0000_0000 * 0x1_0000_0000 + r1;
  }
}
