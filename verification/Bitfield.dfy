/**
 Bitfield moves: the shift pairs and masked deposits that the decoder emits, against the
 pseudocode of BFM, SBFM and UBFM in section C6.2 of the Arm architecture manual.
 */
module Bitfield {
  import opened Bits

  // ---------------------------------------------------------------- micro-operations

  /** The low `len` bits set; `(1ULL << len) - 1`, which C++ defines for shifts below 64 only. */
  function LowMask(len: nat): u64
    requires len < 64
  {
    Pow2Constants();
    Pow2Monotone(len, 63);
    Pow2(len) - 1
  }

  function UExtract(x: u64, pos: nat, len: nat, bit64: bool): u64
    requires 1 <= len && pos + len <= 64
  {
    var v := if pos + len == 64 then Shr64(x, 64 - len)
             else Shr64(Shl64(x, 64 - len - pos), 64 - len);
    if bit64 then v else Wrap32(v)
  }

  function SExtract(x: u64, pos: nat, len: nat, bit64: bool): u64
    requires 1 <= len && pos + len <= 64
  {
    var v := if pos + len == 64 then Asr64(x, 64 - len)
             else Asr64(Shl64(x, 64 - len - pos), 64 - len);
    if bit64 then v else Wrap64(Signed32(Wrap32(v)))
  }

  /** Replaces the field at `pos`; bits of `imm` above the field are or-ed in as well. */
  function Deposit(dst: u64, imm: u64, pos: nat, len: nat): u64
    requires len < 64
  {
    Or64(And64(dst, Not64(Shl64(LowMask(len), pos))), Shl64(imm, pos))
  }

  function DepositZero(imm: u64, pos: nat, len: nat): u64
    requires len < 64
  {
    Shl64(And64(imm, LowMask(len)), pos)
  }

  // ---------------------------------------------------------------- the decoder's sequence

  datatype Opcode = SBFM | BFM | UBFM

  /** Encodings that are not reserved. */
  predicate Fields(sf: bool, ri: nat, si: nat) {
    var size := if sf then 64 else 32;
    ri < size && si < size
  }

  /** BFM of all 64 bits shifts a 64-bit one by 64, which C++ leaves undefined. */
  predicate DefinedShift(op: Opcode, ri: nat, si: nat) {
    op == BFM ==> si < ri || si - ri < 63
  }

  /** The value that the emitted sequence leaves in the destination register. */
  function Move(op: Opcode, sf: bool, ri: nat, si: nat, src: u64, dst: u64): u64
    requires Fields(sf, ri, si) && DefinedShift(op, ri, si)
  {
    var size := if sf then 64 else 32;
    if si >= ri then
      var len := si - ri + 1;
      match op
      case SBFM => SExtract(src, ri, len, sf)
      case UBFM => UExtract(src, ri, len, sf)
      case BFM =>
        var t := UExtract(src, ri, len, sf);
        Deposit(dst, if sf then t else Wrap32(t), 0, len)
    else
      var len, pos := si + 1, size - ri;
      if op == SBFM && len < ri then
        var t := SExtract(src, 0, len, sf);
        DepositZero(if sf then t else Wrap32(t), pos, ri)
      else
        var t := if sf then src else Wrap32(src);
        if op == BFM then Deposit(dst, t, pos, len) else DepositZero(t, pos, len)
  }

  // ---------------------------------------------------------------- the manual

  /** Index of the bit that a right rotation by `r` brings to position `i`. */
  function RotatedFrom(i: nat, r: nat, size: nat): nat
    requires i < size && r < size
  {
    if i + r < size then i + r else i + r - size
  }

  /**
   Bit `i` of the manual's result. `inField` and `inTarget` are bit `i` of wmask and tmask as
   DecodeBitMasks() gives them for a bitfield move, where the element is the whole register.
   */
  predicate ManualBit(op: Opcode, sf: bool, r: nat, s: nat, src: u64, dst: u64, i: nat)
    requires Fields(sf, r, s)
  {
    var size := if sf then 64 else 32;
    if i >= size then false
    else
      var inField := RotatedFrom(i, r, size) <= s;
      var inTarget := i <= (if s >= r then s - r else s - r + size);
      var rotated := Bit(src, RotatedFrom(i, r, size));
      match op
      case UBFM => inTarget && inField && rotated
      case SBFM => if inTarget then inField && rotated else Bit(src, s)
      case BFM =>
        var bot := if inField then rotated else Bit(dst, i);
        if inTarget then bot else Bit(dst, i)
  }

  /** The register values for which the emitted sequence computes the manual's result. */
  predicate Conforms(op: Opcode, sf: bool, r: nat, s: nat, src: u64, dst: u64)
    requires Fields(sf, r, s)
  {
    match op
    case UBFM => true
    case SBFM => sf || s < r || !Bit(src, s)
    case BFM =>
      if s >= r then sf || dst < 0x1_0000_0000
      else if sf then NoSpill(src, dst, 65 - r + s, 64 - r, 64)
      else dst < 0x1_0000_0000 && Shl64(Wrap32(src), 32 - r) < 0x1_0000_0000
           && NoSpill(src, dst, 33 - r + s, 32 - r, 32)
  }

  /** Source bits above the field, shifted to position `top` and up, fall on set bits of `dst`. */
  predicate NoSpill(src: u64, dst: u64, top: nat, pos: nat, size: nat)
    requires pos <= top
  {
    forall i: nat :: top <= i < size && Bit(src, i - pos) ==> Bit(dst, i)
  }

  // ---------------------------------------------------------------- bits of the micro-operations

  lemma BitLowMask(len: nat, i: nat)
    requires len < 64
    ensures Bit(LowMask(len), i) == (i < len)
  {
    BitOnes(len, i);
  }

  lemma BitWrap32(x: u64, i: nat)
    ensures Bit(Wrap32(x), i) == (i < 32 && Bit(x, i))
  {
    LowIsWrap32(x);
    BitLow(x, 32, i);
  }

  lemma NoHighBit(x: u64, i: nat)
    requires x < 0x1_0000_0000 && 32 <= i
    ensures !Bit(x, i)
  {
    Pow2Constants();
    BitAbove(x, 32, i);
  }

  /** A word that does not fit in 32 bits has a bit above them. */
  lemma HighBit(x: u64) returns (i: nat)
    requires x >= 0x1_0000_0000
    ensures 32 <= i < 64 && Bit(x, i)
  {
    i := 32;
    while i < 64 && !Bit(x, i)
      invariant 32 <= i <= 64
      invariant forall j: nat :: 32 <= j < i ==> !Bit(x, j)
    {
      i := i + 1;
    }
    if i == 64 {
      Pow2Constants();
      forall j: nat | j < 64 ensures Bit(x, j) == Bit(Wrap32(x), j) { BitWrap32(x, j); }
      SameBits(x, Wrap32(x), 64);
    }
  }

  lemma BitUExtract(x: u64, pos: nat, len: nat, bit64: bool, i: nat)
    requires 1 <= len && pos + len <= if bit64 then 64 else 32
    ensures Bit(UExtract(x, pos, len, bit64), i) == (i < len && Bit(x, pos + i))
  {
    var k := 64 - len;
    if pos + len == 64 {
      BitShr(x, k, i);
      HighBits64(x, i + k);
    } else {
      var left := Shl64(x, k - pos);
      BitShr(left, k, i);
      BitShl64(x, k - pos, i + k);
      if !bit64 { BitWrap32(Shr64(left, k), i); }
    }
  }

  /** Sign extension from 32 bits copies bit 31 upwards. */
  lemma BitSignExtend32(x: u64, i: nat)
    ensures Bit(Wrap64(Signed32(Wrap32(x))), i) == (i < 64 && Bit(x, if i < 32 then i else 31))
  {
    var w := Wrap32(x);
    BitWrap32(x, i);
    BitWrap32(x, 31);
    TopBit32(w);
    if w < 0x8000_0000 {
      assert Wrap64(Signed32(w)) == w;
    } else {
      BitHighOnes(w, i);
    }
  }

  lemma TopBit32(w: u32)
    ensures Bit(w, 31) == (w >= 0x8000_0000)
  {
    Pow2Constants();
    assert Pow2(32) == 2 * Pow2(31);
    BitTop(w, 32);
  }

  lemma BitHighOnes(w: u32, i: nat)
    ensures Bit(0xffff_ffff_0000_0000 + w, i) == if i < 32 then Bit(w, i) else i < 64
  {
    var ones := 0xffff_ffff;
    Pow2Constants();
    ScaleIsTimes(ones, 32);
    OrDisjoint(ones, w, 32);
    BitOr(Scale(ones, 32), w, i);
    BitScale(ones, 32, i);
    if i >= 32 {
      BitOnes(32, i - 32);
      BitAbove(w, 32, i);
    }
  }

  /** A 32-bit arithmetic shift is a 64-bit one of the sign-extended word. */
  lemma BitAsr32(x: u64, k: nat, i: nat)
    requires k < 32 && i < 32
    ensures Bit(Wrap32(Asr32(x, k)), i) == Bit(x, if i + k < 32 then i + k else 31)
  {
    var w := Wrap64(Signed32(Wrap32(x)));
    assert Signed64(w) == Signed32(Wrap32(x));
    BitWrap32(Asr64(w, k), i);
    BitAsr64(w, k, i);
    BitSignExtend32(x, i + k);
  }

  lemma BitSExtract(x: u64, pos: nat, len: nat, bit64: bool, i: nat)
    requires 1 <= len && pos + len <= if bit64 then 64 else 32
    ensures Bit(SExtract(x, pos, len, bit64), i)
         == (i < 64 && Bit(x, if i < len then pos + i else pos + len - 1))
  {
    var j := if bit64 || i < 32 then i else 31;
    BitSExtract64(x, pos, len, j);
    if !bit64 { BitSignExtend32(SExtract(x, pos, len, true), i); }
  }

  lemma BitSExtract64(x: u64, pos: nat, len: nat, i: nat)
    requires 1 <= len && pos + len <= 64
    ensures Bit(SExtract(x, pos, len, true), i)
         == (i < 64 && Bit(x, if i < len then pos + i else pos + len - 1))
  {
    var k := 64 - len;
    if pos + len == 64 {
      BitAsr64(x, k, i);
    } else {
      BitAsr64(Shl64(x, k - pos), k, i);
      BitShl64(x, k - pos, if i + k < 64 then i + k else 63);
    }
  }

  lemma BitDeposit(dst: u64, imm: u64, pos: nat, len: nat, i: nat)
    requires len < 64
    ensures Bit(Deposit(dst, imm, pos, len), i)
         == ((Bit(dst, i) && !(pos <= i < pos + len)) || (pos <= i < 64 && Bit(imm, i - pos)))
  {
    var hole := Shl64(LowMask(len), pos);
    BitOr(And64(dst, Not64(hole)), Shl64(imm, pos), i);
    BitAnd(dst, Not64(hole), i);
    BitNot64(hole, i);
    BitShl64(LowMask(len), pos, i);
    if pos <= i { BitLowMask(len, i - pos); }
    BitShl64(imm, pos, i);
    HighBits64(dst, i);
  }

  lemma BitDepositZero(imm: u64, pos: nat, len: nat, i: nat)
    requires len < 64
    ensures Bit(DepositZero(imm, pos, len), i) == (pos <= i < 64 && i < pos + len && Bit(imm, i - pos))
  {
    BitShl64(And64(imm, LowMask(len)), pos, i);
    if pos <= i {
      BitAnd(imm, LowMask(len), i - pos);
      BitLowMask(len, i - pos);
    }
  }

  // ---------------------------------------------------------------- bits of a move

  /** Extractions: the field ends at or above where it begins. */
  lemma BitExtraction(op: Opcode, sf: bool, ri: nat, si: nat, src: u64, dst: u64, i: nat)
    requires Fields(sf, ri, si) && DefinedShift(op, ri, si) && si >= ri && i < 64
    ensures var len := si - ri + 1;
            Bit(Move(op, sf, ri, si, src, dst), i) ==
            (match op
             case UBFM => i < len && Bit(src, ri + i)
             case SBFM => Bit(src, if i < len then ri + i else si)
             case BFM => if i < len then Bit(src, ri + i) else Bit(dst, i))
  {
    var len := si - ri + 1;
    match op
    case UBFM => BitUExtract(src, ri, len, sf, i);
    case SBFM => BitSExtract(src, ri, len, sf, i);
    case BFM =>
      var t := UExtract(src, ri, len, sf);
      BitUExtract(src, ri, len, sf, i);
      if sf {
        BitDeposit(dst, t, 0, len, i);
      } else {
        BitWrap32(t, i);
        BitDeposit(dst, Wrap32(t), 0, len, i);
      }
  }

  /** Insertions: the low `si + 1` source bits land at position `pos`. */
  lemma BitInsertion(op: Opcode, sf: bool, ri: nat, si: nat, src: u64, dst: u64, i: nat)
    requires Fields(sf, ri, si) && si < ri && i < 64
    ensures var size := if sf then 64 else 32;
            var pos := size - ri;
            Bit(Move(op, sf, ri, si, src, dst), i) ==
            (match op
             case UBFM => pos <= i <= pos + si && Bit(src, i - pos)
             case SBFM => pos <= i < size && Bit(src, if i <= pos + si then i - pos else si)
             case BFM =>
               (Bit(dst, i) && !(pos <= i <= pos + si))
               || (pos <= i && (sf || i - pos < 32) && Bit(src, i - pos)))
  {
    var size := if sf then 64 else 32;
    var len, pos := si + 1, size - ri;
    if op == SBFM && len < ri {
      var t := SExtract(src, 0, len, sf);
      BitDepositZero(if sf then t else Wrap32(t), pos, ri, i);
      if pos <= i {
        BitSExtract(src, 0, len, sf, i - pos);
        BitWrap32(t, i - pos);
      }
    } else {
      var t := if sf then src else Wrap32(src);
      if pos <= i { BitWrap32(src, i - pos); }
      if op == BFM {
        BitDeposit(dst, t, pos, len, i);
      } else {
        BitDepositZero(t, pos, len, i);
      }
    }
  }

  // ---------------------------------------------------------------- agreement with the manual

  ghost predicate IsManualResult(v: u64, op: Opcode, sf: bool, r: nat, s: nat, src: u64, dst: u64)
    requires Fields(sf, r, s)
  {
    forall i: nat :: i < 64 ==> Bit(v, i) == ManualBit(op, sf, r, s, src, dst, i)
  }

  /**
   For every field position, operand and width, the emitted sequence computes the manual's
   result exactly for the operands that `Conforms` describes: always for UBFM, 64-bit SBFM and
   64-bit BFXIL; for the others, unless upper or unmasked bits get in the way.
   */
  lemma BitfieldMove(op: Opcode, sf: bool, r: nat, s: nat, src: u64, dst: u64)
    requires Fields(sf, r, s) && DefinedShift(op, r, s)
    ensures IsManualResult(Move(op, sf, r, s, src, dst), op, sf, r, s, src, dst)
            <==> Conforms(op, sf, r, s, src, dst)
  {
    if s >= r {
      ExtractionAgrees(op, sf, r, s, src, dst);
    } else {
      InsertionAgrees(op, sf, r, s, src, dst);
    }
  }

  lemma ExtractionAgrees(op: Opcode, sf: bool, r: nat, s: nat, src: u64, dst: u64)
    requires Fields(sf, r, s) && DefinedShift(op, r, s) && s >= r
    ensures IsManualResult(Move(op, sf, r, s, src, dst), op, sf, r, s, src, dst)
            <==> Conforms(op, sf, r, s, src, dst)
  {
    var v := Move(op, sf, r, s, src, dst);
    if Conforms(op, sf, r, s, src, dst) {
      forall i: nat | i < 64 ensures Bit(v, i) == ManualBit(op, sf, r, s, src, dst, i) {
        BitExtraction(op, sf, r, s, src, dst, i);
        if !sf && i >= 32 && op == BFM { NoHighBit(dst, i); }
      }
    } else {
      var i := 32;
      if op == BFM { i := HighBit(dst); }
      BitExtraction(op, sf, r, s, src, dst, i);
      assert Bit(v, i) && !ManualBit(op, sf, r, s, src, dst, i);
    }
  }

  lemma InsertionAgrees(op: Opcode, sf: bool, r: nat, s: nat, src: u64, dst: u64)
    requires Fields(sf, r, s) && s < r
    ensures IsManualResult(Move(op, sf, r, s, src, dst), op, sf, r, s, src, dst)
            <==> Conforms(op, sf, r, s, src, dst)
  {
    var v := Move(op, sf, r, s, src, dst);
    if Conforms(op, sf, r, s, src, dst) {
      forall i: nat | i < 64 ensures Bit(v, i) == ManualBit(op, sf, r, s, src, dst, i) {
        BitInsertion(op, sf, r, s, src, dst, i);
        if op == BFM && !sf && i >= 32 {
          NoHighBit(dst, i);
          NoHighBit(Shl64(Wrap32(src), 32 - r), i);
          BitSpill(src, 32 - r, i);
        }
      }
    } else {
      var i := SpillPosition(sf, r, s, src, dst);
      BitInsertion(op, sf, r, s, src, dst, i);
      assert Bit(v, i) && !ManualBit(op, sf, r, s, src, dst, i);
    }
  }

  lemma BitSpill(src: u64, pos: nat, i: nat)
    requires i < 64
    ensures Bit(Shl64(Wrap32(src), pos), i) == (pos <= i && i - pos < 32 && Bit(src, i - pos))
  {
    BitShl64(Wrap32(src), pos, i);
    if pos <= i { BitWrap32(src, i - pos); }
  }

  /** Where an insertion that does not conform sets a bit that the manual leaves clear. */
  lemma SpillPosition(sf: bool, r: nat, s: nat, src: u64, dst: u64) returns (i: nat)
    requires Fields(sf, r, s) && s < r && !Conforms(BFM, sf, r, s, src, dst)
    ensures var size := if sf then 64 else 32;
            var pos := size - r;
            && pos + s < i < 64 && (i < size ==> !Bit(dst, i))
            && (Bit(dst, i) || ((sf || i - pos < 32) && Bit(src, i - pos)))
  {
    var size := if sf then 64 else 32;
    var pos := size - r;
    if !sf && dst >= 0x1_0000_0000 {
      i := HighBit(dst);
    } else if !sf && Shl64(Wrap32(src), pos) >= 0x1_0000_0000 {
      i := HighBit(Shl64(Wrap32(src), pos));
      BitSpill(src, pos, i);
    } else {
      i :| pos + s + 1 <= i < size && Bit(src, i - pos) && !Bit(dst, i);
    }
  }
}
