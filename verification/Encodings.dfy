/**
 The fields of an instruction word, bit by bit, and what the encoding tables of section C4 of the
 manual say of the instructions that the decoder methods handle.
 */
module Encodings {
  import opened Bits
  import opened Flags
  import opened Interpreter
  import opened Disassembler
  import Bitfield
  import BitmaskImmediate
  import Pairwise
  import Simd
  import Vectors

  // ---------------------------------------------------------------- fields

  /** Bit `i` of a field. */
  lemma FieldBit(insn: u32, from: nat, len: nat, i: nat)
    requires len > 0 && from + len <= 32
    ensures Bit(Extract32(insn, from, len), i) <==> i < len && Bit(insn, from + i)
  {
    BitLow(Shr(insn, from), len, i);
    BitShr(insn, from, i);
  }

  /** A field of two bits as a number. */
  lemma TwoBits(insn: u32, from: nat)
    requires from <= 30
    ensures Extract32(insn, from, 2) == (if Bit(insn, from + 1) then 2 else 0) + if Bit(insn, from) then 1 else 0
  {
    var f := Extract32(insn, from, 2);
    FieldBit(insn, from, 2, 0);
    FieldBit(insn, from, 2, 1);
    assert f < Pow2(2) == 2 * Pow2(1) == 4;
    assert Bit(f, 1) <==> Bit(f / 2, 0);
  }

  lemma SmallFields(insn: u32, from: nat)
    requires from <= 26
    ensures Reg(insn, from) == insn / Pow2(from) % 0x20 && Six(insn, from) == insn / Pow2(from) % 0x40
    ensures Four(insn, from) == insn / Pow2(from) % 0x10
  {
    BitmaskImmediate.SmallPowers();
    FieldIs(insn, from, 4);
    FieldIs(insn, from, 5);
    FieldIs(insn, from, 6);
  }

  /** A signed field is two's complement: its top bit counts negatively. */
  lemma SignedField(insn: u32, from: nat, len: nat)
    requires len > 0 && from + len <= 32
    ensures SExtract32(insn, from, len)
         == insn / Pow2(from) % Pow2(len) - if Bit(insn, from + len - 1) then Pow2(len) else 0
  {
    var f := Extract32(insn, from, len);
    FieldIs(insn, from, len);
    FieldBit(insn, from, len, len - 1);
    Split(Shr(insn, from), len);
    BitTop(f, len);
  }

  /** A six-bit field reaches 32 exactly when its top bit is set. */
  lemma SixAtLeast(insn: u32, from: nat)
    requires from <= 26
    ensures Six(insn, from) >= 32 <==> Bit(insn, from + 5)
  {
    BitmaskImmediate.SmallPowers();
    FieldBit(insn, from, 6, 5);
    BitTop(Six(insn, from), 6);
  }

  // ---------------------------------------------------------------- operations and operands

  lemma ShiftTypes(insn: u32)
    ensures ShiftOp(Extract32(insn, 22, 2)) ==
            if Bit(insn, 23) then ASR else if Bit(insn, 22) then LSR else LSL
  {
    TwoBits(insn, 22);
  }

  lemma BitfieldOps(insn: u32)
    requires !(Bit(insn, 30) && Bit(insn, 29))
    ensures BitfieldOp(insn) ==
            if Bit(insn, 30) then Bitfield.UBFM else if Bit(insn, 29) then Bitfield.BFM else Bitfield.SBFM
  {
    TwoBits(insn, 29);
  }

  lemma LogicOps(insn: u32)
    ensures LogicOpOf(insn) ==
            if Bit(insn, 30) then (if Bit(insn, 29) then Ands else Eor)
            else if Bit(insn, 29) then Orr else LogicOp.And
  {
    TwoBits(insn, 29);
  }

  /** N is bit 22, `imms` bits 15 to 10 and `immr` bits 21 to 16. */
  lemma LogicMasks(insn: u32)
    ensures LogicMask(insn) ==
            BitmaskImmediate.DecodeBitMasks(if Bit(insn, 22) then 1 else 0, insn / 0x400 % 0x40, insn / 0x1_0000 % 0x40)
  {
    FlagIsBit(insn, 22);
    SmallFields(insn, 10);
    SmallFields(insn, 16);
    Places();
  }

  lemma Places()
    ensures Pow2(5) == 0x20 && Pow2(10) == 0x400 && Pow2(12) == 0x1000 && Pow2(16) == 0x1_0000 && Pow2(19) == 0x8_0000
  {
    BitmaskImmediate.SmallPowers();
    Pow2Eight(2);
    Pow2Eight(4);
    Pow2Eight(8);
    Pow2Eight(3);
    Pow2Eight(11);
  }

  lemma CondCmpOperands(insn: u32, regs: seq<u64>)
    requires |regs| == GPR_COUNT
    ensures CondCmpOperand(insn, regs) ==
            if Bit(insn, 11) then insn / 0x1_0000 % 0x20
            else if Bit(insn, 31) then regs[insn / 0x1_0000 % 0x20] else regs[insn / 0x1_0000 % 0x20] % 0x1_0000_0000
  {
    FlagIsBit(insn, 11);
    FlagIsBit(insn, 31);
    SmallFields(insn, 16);
    Places();
  }

  /** The fallback flags of a conditional compare are N, Z, C and V from the top bit of the field down. */
  lemma FallbackFlags(k: nat)
    requires k < 16
    ensures NFlag(k * 0x1000_0000) == Bit(k, 3) && ZFlag(k * 0x1000_0000) == Bit(k, 2)
    ensures CFlag(k * 0x1000_0000) == Bit(k, 1) && VFlag(k * 0x1000_0000) == Bit(k, 0)
  {
    FourBits(k);
    PackFlags(Bit(k, 3), Bit(k, 2), Bit(k, 1), Bit(k, 0));
  }

  lemma FourBits(k: nat)
    requires k < 16
    ensures k * 0x1000_0000 == Pack(Bit(k, 3), Bit(k, 2), Bit(k, 1), Bit(k, 0))
  {
    assert Bit(k, 3) == Bit(k / 2, 2) == Bit(k / 2 / 2, 1) == Bit(k / 2 / 2 / 2, 0);
    assert Bit(k, 2) == Bit(k / 2, 1) == Bit(k / 2 / 2, 0);
    assert Bit(k, 1) == Bit(k / 2, 0);
  }

  /** What a conditional compare leaves when its condition holds, and when not. */
  lemma CondCmpResults(insn: u32, regs: seq<u64>, nzcv: u32, sf: bool, sub: bool, rn: nat, cond: nat, fallback: nat)
    requires |regs| == GPR_COUNT && sf == Bit(insn, 31) && sub == Bit(insn, 30)
    requires rn == insn / 0x20 % 0x20 && cond == insn / 0x1000 % 0x10 && fallback == insn % 0x10
    ensures var x, b := Sized(regs[rn], sf), CondCmpOperand(insn, regs);
            CondCmpFlags(insn, regs, nzcv) ==
            if CondHold(nzcv, cond) then (if sub then SubFlags(x, b, sf) else AddFlags(x, b, sf)) else fallback * 0x1000_0000
  {
    CondCmpFields(insn);
  }

  lemma CondCmpFields(insn: u32)
    ensures Flag(insn, 31) == Bit(insn, 31) && Flag(insn, 30) == Bit(insn, 30)
    ensures Reg(insn, 5) == insn / 0x20 % 0x20 && Four(insn, 12) == insn / 0x1000 % 0x10 && Four(insn, 0) == insn % 0x10
  {
    FlagIsBit(insn, 30);
    FlagIsBit(insn, 31);
    Places();
    FieldAt(insn, 5, 0x20);
    FieldAt(insn, 12, 0x1000);
    FieldAt(insn, 0, 1);
    assert insn / 1 == insn;
  }

  lemma FieldAt(insn: u32, from: nat, place: nat)
    requires from <= 26 && Pow2(from) == place
    ensures Reg(insn, from) == insn / place % 0x20 && Four(insn, from) == insn / place % 0x10
  {
    SmallFields(insn, from);
  }

  /** CSEL, CSINV, CSINC and CSNEG: the operand, its complement, its successor and its negation. */
  lemma ElseValues(x: u64, sf: bool)
    ensures ElseValue(x, false, false, sf) == Modulo(x, sf)
    ensures ElseValue(x, true, false, sf) == Modulo(-1 - x as int, sf)
    ensures ElseValue(x, false, true, sf) == Modulo(x as int + 1, sf)
    ensures ElseValue(x, true, true, sf) == Modulo(0 - x as int, sf)
  {
    WrapTwice(x);
    WrapTwice(-1 - x as int);
    WrapTwice(x as int + 1);
    WrapModulus64(-1 - x as int);
    WrapOnce64(x);
    ElseNegates(x, sf);
    Complement(x);
  }

  lemma Complement(x: u64)
    ensures Wrap64(Not64(x)) == Wrap64(-1 - x as int) == Not64(x)
    ensures Wrap32(Not64(x)) == Wrap32(-1 - x as int)
  {
    WrapModulus64(-1 - x as int);
    WrapTwice(-1 - x as int);
  }

  /** A branch goes four times the signed field of nineteen bits away. */
  lemma BranchTargets(insn: u32, pc: u64)
    ensures BranchTarget(insn, pc)
         == Wrap64(pc as int + 4 * (insn / 0x20 % 0x8_0000 - if Bit(insn, 23) then 0x8_0000 else 0))
  {
    SignedField(insn, 5, 19);
    Places();
  }

  // ---------------------------------------------------------------- allocated encodings

  /** A bitfield move: opc 3 is reserved, and N, `immr` and `imms` must fit the width. */
  lemma BitfieldTable(insn: u32)
    ensures BitfieldAllocated(insn) <==>
            !(Bit(insn, 30) && Bit(insn, 29))
            && if Bit(insn, 31) then Bit(insn, 22) else !Bit(insn, 22) && !Bit(insn, 21) && !Bit(insn, 15)
  {
    FlagIsBit(insn, 31);
    FlagIsBit(insn, 22);
    TwoBits(insn, 29);
    SixAtLeast(insn, 16);
    SixAtLeast(insn, 10);
  }

  /** Add and subtract of a shifted register: shift type 3 is reserved, and so are long shifts in 32 bits. */
  lemma AddSubTable(insn: u32)
    ensures AddSubAllocated(insn) <==> !(Bit(insn, 23) && Bit(insn, 22)) && (Bit(insn, 31) || !Bit(insn, 15))
  {
    FlagIsBit(insn, 31);
    TwoBits(insn, 22);
    SixAtLeast(insn, 10);
  }

  /** Conditional compares, selects and branches. */
  lemma ConditionalTables(insn: u32)
    ensures CondCmpAllocated(insn) <==> Bit(insn, 29) && !Bit(insn, 10) && !Bit(insn, 4)
    ensures CondSelAllocated(insn) <==> !Bit(insn, 29) && !Bit(insn, 11)
    ensures CondBrAllocated(insn) <==> !Bit(insn, 24) && !Bit(insn, 4)
  {
    FlagIsBit(insn, 29);
    FlagIsBit(insn, 24);
    FlagIsBit(insn, 11);
    FlagIsBit(insn, 10);
    FlagIsBit(insn, 4);
  }

  /** Pairwise addition: the lane size is bits 23 and 22, and eight-byte lanes need the whole register. */
  lemma AddpTable(insn: u32)
    ensures Pairwise.SizeOf(insn) == (if Bit(insn, 23) then 2 else 0) + if Bit(insn, 22) then 1 else 0
    ensures Pairwise.AddpAllocated(insn) <==> !Bit(insn, 29) && (Bit(insn, 30) || !(Bit(insn, 23) && Bit(insn, 22)))
  {
    FlagIsBit(insn, 29);
    FlagIsBit(insn, 30);
    TwoBits(insn, 22);
  }

  /**
   Multiple-structure transfers: opcodes 2, 6, 10 and 7 move four, three, two and one register one
   after the other; opcodes 0, 4 and 8 interleave four, three and two. Bits 11 and 10 are the lane
   size, and bit 30 tells whether the registers have sixteen bytes or eight.
   */
  lemma MultiTable(insn: u32, opcode: nat)
    requires opcode == insn / 0x1000 % 0x10 && Simd.LdStMultiAllocated(insn)
    ensures var s := Simd.ShapeOf(insn);
            && s.rpt == (if opcode == 2 then 4 else if opcode == 6 then 3 else if opcode == 10 then 2 else 1)
            && s.selem == (if opcode == 0 then 4 else if opcode == 4 then 3 else if opcode == 8 then 2 else 1)
            && s.size == (if Bit(insn, 11) then 2 else 0) + (if Bit(insn, 10) then 1 else 0)
            && s.elements * Pow2(s.size) == if Bit(insn, 30) then 16 else 8
  {
    FlagIsBit(insn, 30);
    TwoBits(insn, 10);
    Places();
    FieldAt(insn, 12, 0x1000);
    MultiElements(Simd.ShapeOf(insn), Bit(insn, 30));
  }

  lemma MultiElements(s: Vectors.Shape, q: bool)
    requires s.size < 4 && s.elements == Simd.Elements(q, s.size)
    ensures s.elements * Pow2(s.size) == if q then 16 else 8
  {
    Vectors.LaneWidths(s.elements, s.size);
  }

  /** The allocated opcodes, and the two fixed bits. */
  lemma MultiAllocated(insn: u32, opcode: nat)
    requires opcode == insn / 0x1000 % 0x10
    ensures Simd.LdStMultiAllocated(insn) <==>
            && !Bit(insn, 31) && !Bit(insn, 21) && opcode in {0, 2, 4, 6, 7, 8, 10}
            && (Bit(insn, 11) && Bit(insn, 10) && !Bit(insn, 30) ==> opcode !in {0, 4, 8})
  {
    FlagIsBit(insn, 31);
    FlagIsBit(insn, 30);
    FlagIsBit(insn, 21);
    TwoBits(insn, 10);
    Places();
    FieldAt(insn, 12, 0x1000);
  }
}
