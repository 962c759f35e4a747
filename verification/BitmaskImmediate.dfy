/**
 Bitmask immediates of the logical instructions: the decoder's doubling loop against the
 pseudocode function DecodeBitMasks() of the Arm architecture manual, chapter J1.
 */
module BitmaskImmediate {
  import opened Bits

  // ---------------------------------------------------------------- the manual's definition

  datatype Masks = Undefined | Masks(wmask: seq<bool>)

  /** Position of the most significant set bit, or -1. */
  function HighestSetBit(x: nat): (p: int)
    ensures p == -1 <==> x == 0
    ensures x != 0 ==> p >= 0 && Pow2(p) <= x < Pow2(p + 1)
  {
    if x == 0 then -1 else HighestSetBit(x / 2) + 1
  }

  /** Bit strings are written least significant bit first. */
  function Ones(n: nat): seq<bool> {
    seq(n, _ => true)
  }

  function ZeroExtend(bits: seq<bool>, n: nat): seq<bool>
    requires |bits| <= n
  {
    bits + seq(n - |bits|, _ => false)
  }

  function Ror(bits: seq<bool>, r: nat): seq<bool>
    requires r <= |bits|
  {
    bits[r..] + bits[..r]
  }

  function Replicate(bits: seq<bool>, n: nat): (s: seq<bool>)
    requires |bits| > 0
    ensures |s| == n
  {
    if n < |bits| then bits[..n] else bits + Replicate(bits, n - |bits|)
  }

  /** The element width selected by the encoding, as a power of two. */
  function ElementLog(immn: nat, imms: nat): int
    requires immn < 2 && imms < 64
  {
    HighestSetBit(64 * immn + (63 - imms))
  }

  /** DecodeBitMasks(immN, imms, immr, TRUE), the mask that a logical immediate denotes. */
  function DecodeBitMasks(immn: nat, imms: nat, immr: nat): Masks
    requires immn < 2 && imms < 64 && immr < 64
  {
    var len := ElementLog(immn, imms);
    if len < 1 then Undefined
    else
      var esize := Pow2(len);
      var s, r := Low(imms, len), Low(immr, len);
      Split(imms, len);
      Split(immr, len);
      if s == esize - 1 then Undefined
      else Masks(Replicate(ManualElement(s, r, esize), 64))
  }

  /** The manual's rotated element: ROR(ZeroExtend(Ones(S + 1), esize), R). */
  function ManualElement(s: nat, r: nat, esize: nat): (bits: seq<bool>)
    requires s < esize && r < esize
    ensures |bits| == esize
    ensures forall i: nat :: i < esize ==> bits[i] == RotatedOnes(i, esize, s, r)
  {
    Ror(ZeroExtend(Ones(s + 1), esize), r)
  }

  /** Bit `i` of an element of `e` bits: `s + 1` ones rotated right by `r`. */
  predicate RotatedOnes(i: nat, e: nat, s: nat, r: nat) {
    (if i + r < e then i + r else i + r - e) <= s
  }

  // ---------------------------------------------------------------- the decoder

  /** `bitmask64`: the low `length` bits set. */
  function BitMask64(length: nat): u64
    requires 0 < length <= 64
  {
    Shr64(0xffff_ffff_ffff_ffff, 64 - length)
  }

  /** `clz32`: leading zeros of a 32-bit word, 32 for zero. */
  function Clz32(x: u32): int {
    if x == 0 then 32 else 31 - HighestSetBit(x)
  }

  /** `word` consists of copies of the low `2^len` bits of `element` in its low `e` bits. */
  ghost predicate Periodic(word: u64, element: u64, e: nat, len: nat) {
    forall i: nat :: Bit(word, i) == (i < e && Bit(element, Low(i, len)))
  }

  ghost predicate NoBitFrom(word: u64, e: nat) {
    forall i: nat :: i >= e ==> !Bit(word, i)
  }

  /** Repeats an element of `2^len` bits over the whole word by doubling. */
  method Replicate64(element: u64, ghost len: nat, e0: nat) returns (mask: u64)
    requires e0 == Pow2(len) && len <= 6
    requires NoBitFrom(element, e0)
    ensures Periodic(mask, element, 64, len)
  {
    mask := element;
    var e := e0;
    ghost var k := len;
    FirstCopy(element, len);
    while e < 64
      invariant len <= k <= 6 && e == Pow2(k)
      invariant Periodic(mask, element, e, len)
      decreases 6 - k
    {
      SmallPowers();
      AnotherCopy(mask, element, k, len);
      mask := Or64(mask, Shl64(mask, e));
      e := e * 2;
      k := k + 1;
    }
    SmallPowers();
    assert k == 6;
  }

  lemma FirstCopy(element: u64, len: nat)
    requires NoBitFrom(element, Pow2(len))
    ensures Periodic(element, element, Pow2(len), len)
  {
    forall i: nat ensures Bit(element, i) == (i < Pow2(len) && Bit(element, Low(i, len))) {
      if i < Pow2(len) { LowOfSmall(i, len); }
    }
  }

  /** One round of the doubling loop. */
  lemma AnotherCopy(mask: u64, element: u64, k: nat, len: nat)
    requires len <= k < 6
    requires Periodic(mask, element, Pow2(k), len)
    ensures Periodic(Or64(mask, Shl64(mask, Pow2(k))), element, 2 * Pow2(k), len)
  {
    var e := Pow2(k);
    var doubled := Or64(mask, Shl64(mask, e));
    SmallPowers();
    forall i: nat ensures Bit(doubled, i) == (i < 2 * e && Bit(element, Low(i, len))) {
      BitOr(mask, Shl64(mask, e), i);
      BitShl64(mask, e, i);
      if e <= i { LowOfDifference(i, k, len); }
    }
  }

  lemma SmallPowers()
    ensures Pow2(0) == 1 && Pow2(1) == 2 && Pow2(2) == 4 && Pow2(3) == 8 && Pow2(4) == 16
    ensures Pow2(5) == 32 && Pow2(6) == 64 && Pow2(7) == 128
  {
  }

  lemma {:induction false} LowOfSmall(i: nat, n: nat)
    requires i < Pow2(n)
    ensures Low(i, n) == i
  {
    if n > 0 { LowOfSmall(i / 2, n - 1); }
  }

  /** Going back by a whole number of elements does not change the position in the element. */
  lemma {:induction false} LowOfDifference(i: nat, k: nat, n: nat)
    requires n <= k && Pow2(k) <= i
    ensures Low(i - Pow2(k), n) == Low(i, n)
    decreases n
  {
    if n > 0 {
      assert (i - Pow2(k)) / 2 == i / 2 - Pow2(k - 1);
      LowOfDifference(i / 2, k - 1, n - 1);
    }
  }

  lemma BitOfMask64(length: nat, i: nat)
    requires 0 < length <= 64
    ensures Bit(BitMask64(length), i) == (i < length)
  {
    Pow2Constants();
    BitShr(0xffff_ffff_ffff_ffff, 64 - length, i);
    BitOnes(64, i + 64 - length);
  }

  /** The element width is between 1 and 64. */
  lemma ElementLogRange(immn: nat, imms: nat)
    requires immn < 2 && imms < 64
    ensures -1 <= ElementLog(immn, imms) <= 6
    ensures ElementLog(immn, imms) >= 0 ==> Pow2(ElementLog(immn, imms)) <= 64
  {
    HighestBitBelow(64 * immn + (63 - imms));
  }

  lemma HighestBitBelow(x: nat)
    requires x < 128
    ensures -1 <= HighestSetBit(x) <= 6
    ensures HighestSetBit(x) >= 0 ==> Pow2(HighestSetBit(x)) <= 64
  {
    var p := HighestSetBit(x);
    SmallPowers();
    if p > 6 {
      Pow2Monotone(7, p);
    } else if p >= 0 {
      Pow2Monotone(p, 6);
    }
  }

  /** The decoder's value of one element. */
  function Element(s: nat, r: nat, e: nat): u64
    requires s < e <= 64 && r < e
  {
    if r == 0 then BitMask64(s + 1)
    else And64(Or64(Shr64(BitMask64(s + 1), r), Shl64(BitMask64(s + 1), e - r)), BitMask64(e))
  }

  /** The decoder's element width: the highest set bit of `immn:NOT(imms)`. */
  function DecodedLog(immn: nat, imms: nat): int
    requires immn < 2 && imms < 64
  {
    SizeField(immn, imms);
    31 - Clz32(Or(Scale(immn, 6), 63 - imms))
  }

  lemma SizeField(immn: nat, imms: nat)
    requires immn < 2 && imms < 64
    ensures Or(Scale(immn, 6), 63 - imms) == 64 * immn + (63 - imms)
  {
    SmallPowers();
    OrDisjoint(immn, 63 - imms, 6);
    ScaleIsTimes(immn, 6);
  }

  lemma DecodedLogIs(immn: nat, imms: nat)
    requires immn < 2 && imms < 64
    ensures DecodedLog(immn, imms) == ElementLog(immn, imms)
  {
    SizeField(immn, imms);
    LeadingZeros(64 * immn + (63 - imms));
  }

  lemma LeadingZeros(x: u32)
    ensures 31 - Clz32(x) == HighestSetBit(x)
  {
  }

  /** `LogicImmDecode`: the mask of a logical immediate, or failure for a reserved encoding. */
  method LogicImmDecode(immn: nat, imms: nat, immr: nat) returns (ok: bool, wmask: u64)
    requires immn < 2 && imms < 64 && immr < 64
    ensures ok <==> DecodeBitMasks(immn, imms, immr).Masks?
    ensures ok ==> IsMask(wmask, DecodeBitMasks(immn, imms, immr))
  {
    ok, wmask := false, 0;
    var len := DecodedLog(immn, imms);
    DecodedLogIs(immn, imms);
    if len < 1 {
      return;
    }
    ElementLogRange(immn, imms);
    var e := Pow2(len);
    var s, r := Low(imms, len), Low(immr, len);
    Split(imms, len);
    Split(immr, len);
    if s == e - 1 {
      return;
    }
    ok := true;
    wmask := RepeatedElement(s, r, len);
  }

  method RepeatedElement(s: nat, r: nat, len: nat) returns (wmask: u64)
    requires len <= 6 && s < Pow2(len) <= 64 && r < Pow2(len)
    ensures IsMask(wmask, Masks(Replicate(ManualElement(s, r, Pow2(len)), 64)))
  {
    var e := Pow2(len);
    var mask := Element(s, r, e);
    ElementFits(s, r, e);
    wmask := Replicate64(mask, len, e);
    MatchesManual(wmask, s, r, len);
  }

  lemma ElementFits(s: nat, r: nat, e: nat)
    requires s < e <= 64 && r < e
    ensures NoBitFrom(Element(s, r, e), e)
  {
    forall i: nat | i >= e ensures !Bit(Element(s, r, e), i) {
      BitOfElement(s, r, e, i);
    }
  }

  lemma BitOfElement(s: nat, r: nat, e: nat, i: nat)
    requires s < e <= 64 && r < e
    ensures Bit(Element(s, r, e), i) == (i < e && RotatedOnes(i, e, s, r))
  {
    var m := BitMask64(s + 1);
    if r == 0 {
      BitOfMask64(s + 1, i);
    } else {
      var right, left := Shr64(m, r), Shl64(m, e - r);
      BitAnd(Or64(right, left), BitMask64(e), i);
      BitOr(right, left, i);
      BitShr(m, r, i);
      BitShl64(m, e - r, i);
      BitOfMask64(e, i);
      BitOfMask64(s + 1, i + r);
      if i >= e - r { BitOfMask64(s + 1, i - (e - r)); }
    }
  }

  // ---------------------------------------------------------------- agreement

  ghost predicate IsMask(w: u64, m: Masks)
    requires m.Masks?
  {
    |m.wmask| == 64 && forall i: nat :: i < 64 ==> Bit(w, i) == m.wmask[i]
  }

  lemma {:induction false} ReplicateAt(bits: seq<bool>, n: nat, len: nat, i: nat)
    requires |bits| == Pow2(len) && i < n
    ensures Low(i, len) < Pow2(len)
    ensures Replicate(bits, n)[i] == bits[Low(i, len)]
    decreases n
  {
    Split(i, len);
    if i < |bits| {
      LowOfSmall(i, len);
    } else {
      LowOfDifference(i, len, len);
      ReplicateAt(bits, n - |bits|, len, i - |bits|);
    }
  }

  lemma ManualBit(s: nat, r: nat, len: nat, i: nat)
    requires s < Pow2(len) && r < Pow2(len) && i < 64
    ensures Low(i, len) < Pow2(len)
    ensures Replicate(ManualElement(s, r, Pow2(len)), 64)[i] == RotatedOnes(Low(i, len), Pow2(len), s, r)
  {
    ReplicateAt(ManualElement(s, r, Pow2(len)), 64, len, i);
  }

  /** A word that repeats the decoder's element is the manual's mask. */
  lemma MatchesManual(w: u64, s: nat, r: nat, len: nat)
    requires s < Pow2(len) <= 64 && r < Pow2(len)
    requires Periodic(w, Element(s, r, Pow2(len)), 64, len)
    ensures IsMask(w, Masks(Replicate(ManualElement(s, r, Pow2(len)), 64)))
  {
    var m := Masks(Replicate(ManualElement(s, r, Pow2(len)), 64));
    forall i: nat | i < 64 ensures Bit(w, i) == m.wmask[i] {
      ManualBit(s, r, len, i);
      BitOfElement(s, r, Pow2(len), Low(i, len));
    }
  }

  /**
   What an accepted immediate looks like: bit `i` depends on `i` modulo the element width only,
   each element is a run of `s + 1` ones rotated right by `r`, and the word is neither zero nor
   all ones.
   */
  lemma AcceptedMask(w: u64, immn: nat, imms: nat, immr: nat)
    requires immn < 2 && imms < 64 && immr < 64
    requires DecodeBitMasks(immn, imms, immr).Masks?
    requires IsMask(w, DecodeBitMasks(immn, imms, immr))
    ensures var len := ElementLog(immn, imms);
            var e := Pow2(len);
            && 1 <= len <= 6 && imms % e < e - 1
            && (forall i: nat :: i < 64 ==> Bit(w, i) == RotatedOnes(i % e, e, imms % e, immr % e))
    ensures w != 0 && w != 0xffff_ffff_ffff_ffff
  {
    var len := ElementLog(immn, imms);
    ElementLogRange(immn, imms);
    var e := Pow2(len);
    ShrAndLow(imms, len);
    ShrAndLow(immr, len);
    Split(imms, len);
    Split(immr, len);
    var s, r := Low(imms, len), Low(immr, len);
    forall i: nat | i < 64 ensures Bit(w, i) == RotatedOnes(i % e, e, s, r) {
      ShrAndLow(i, len);
      ManualBit(s, r, len, i);
    }
    NeitherExtreme(w, e, s, r);
  }

  lemma NeitherExtreme(w: u64, e: nat, s: nat, r: nat)
    requires s < e - 1 && r < e <= 64
    requires forall i: nat :: i < 64 ==> Bit(w, i) == RotatedOnes(i % e, e, s, r)
    ensures w != 0 && w != 0xffff_ffff_ffff_ffff
  {
    var first, gap := if r == 0 then 0 else e - r, e - 1 - r;
    SmallModulo(first, e);
    SmallModulo(gap, e);
    assert Bit(w, first) && !Bit(w, gap);
    BitOfZero(first);
    Pow2Constants();
    BitOnes(64, gap);
  }

  lemma SmallModulo(i: nat, e: nat)
    requires i < e
    ensures i % e == i
  {
  }
}
