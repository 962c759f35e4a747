/**
 One step of AND, ANDS, ORR or EOR with an immediate, against section C6.2 of the manual: which
 encodings are allocated, where the result goes, and what the flags are.
 */
module LogicStep {
  import opened Bits
  import opened Flags
  import opened Interpreter
  import opened Disassembler
  import BitmaskImmediate

  // ---------------------------------------------------------------- the manual

  /** The allocated encodings: the fields denote a mask, and N is clear in the 32-bit form. */
  predicate ManualAllocated(insn: u32) {
    LogicMask(insn).Masks? && (Flag(insn, 31) || !Flag(insn, 22))
  }

  /** Register 31 is the stack pointer, except as the destination of ANDS. */
  function ManualDestination(insn: u32): GprIndex {
    if LogicOpOf(insn) == Ands then Reg(insn, 0) else HandleAsSP(Reg(insn, 0))
  }

  function Operand(insn: u32, regs: seq<u64>): u64
    requires |regs| == GPR_COUNT
  {
    Sized(regs[Reg(insn, 5)], Flag(insn, 31))
  }

  function Result(insn: u32, mask: u64, regs: seq<u64>): u64
    requires |regs| == GPR_COUNT
  {
    LogicResult(LogicOpOf(insn), Operand(insn, regs), Sized(mask, Flag(insn, 31)))
  }

  /** The registers after the instruction; the zero register takes no result. */
  function ManualAfter(insn: u32, mask: u64, regs: seq<u64>): (after: seq<u64>)
    requires |regs| == GPR_COUNT
    ensures |after| == GPR_COUNT
  {
    var next := regs[PC_IDX := Wrap64(regs[PC_IDX] as int + 4)];
    if ManualDestination(insn) == GPR_ZERO then next else next[ManualDestination(insn) := Result(insn, mask, regs)]
  }

  predicate Negative(x: u64, bit64: bool) {
    x >= if bit64 then 0x8000_0000_0000_0000 else 0x8000_0000
  }

  /** ANDS sets the sign and zero flags and clears carry and overflow. */
  function ManualFlags(insn: u32, mask: u64, regs: seq<u64>, nzcv: u32): u32
    requires |regs| == GPR_COUNT
  {
    var res := Result(insn, mask, regs);
    if LogicOpOf(insn) == Ands then Pack(Negative(res, Flag(insn, 31)), res == 0, false, false) else nzcv
  }

  // ---------------------------------------------------------------- allocation

  /** With N set the element is the whole word, and only the all-ones pattern is reserved. */
  lemma WideMasks(imms: nat, immr: nat)
    requires imms < 64 && immr < 64
    ensures BitmaskImmediate.DecodeBitMasks(1, imms, immr).Masks? <==> imms != 63
  {
    WidestElement(127 - imms);
    WidestField(imms);
    MasksOfWidth(1, imms, immr, 6);
  }

  lemma MasksOfWidth(immn: nat, imms: nat, immr: nat, len: nat)
    requires immn < 2 && imms < 64 && immr < 64
    requires BitmaskImmediate.ElementLog(immn, imms) == len >= 1
    ensures BitmaskImmediate.DecodeBitMasks(immn, imms, immr).Masks? <==> Low(imms, len) != Pow2(len) - 1
  {
  }

  lemma WidestField(imms: nat)
    requires imms < 64
    ensures Low(imms, 6) == imms && Pow2(6) == 64
  {
    BitmaskImmediate.SmallPowers();
    BitmaskImmediate.LowOfSmall(imms, 6);
  }

  lemma WidestElement(x: nat)
    requires 64 <= x < 128
    ensures BitmaskImmediate.HighestSetBit(x) == 6
  {
    var p := BitmaskImmediate.HighestSetBit(x);
    BitmaskImmediate.SmallPowers();
    BitmaskImmediate.HighestBitBelow(x);
    if p < 6 { Pow2Monotone(p + 1, 6); }
  }

  /** The decoder and the manual disagree about the 32-bit encodings with N set, other than `imms == 63`. */
  lemma AcceptsAsManual(insn: u32)
    ensures LogicMask(insn).Masks? == ManualAllocated(insn)
            <==> !(!Flag(insn, 31) && Flag(insn, 22) && Six(insn, 10) != 63)
  {
    if Flag(insn, 22) {
      WideMasks(Six(insn, 10), Six(insn, 16));
    }
  }

  /** One of them: `0x12400000`. */
  lemma ReservedButAccepted(insn: u32)
    requires insn == 0x1240_0000
    ensures LogicMask(insn).Masks? && !ManualAllocated(insn)
  {
    FieldIs(insn, 31, 1);
    FieldIs(insn, 22, 1);
    FieldIs(insn, 10, 6);
    PlaceValues();
    assert !Flag(insn, 31) && Flag(insn, 22) && Six(insn, 10) == 0;
    AcceptsAsManual(insn);
  }

  lemma PlaceValues()
    ensures Pow2(1) == 2 && Pow2(6) == 0x40 && Pow2(10) == 0x400 && Pow2(22) == 0x40_0000 && Pow2(31) == 0x8000_0000
  {
    BitmaskImmediate.SmallPowers();
    Pow2Eight(2);
    Pow2Eight(6);
    Pow2Eight(14);
    Pow2Constants();
  }

  // ---------------------------------------------------------------- flags of ANDS

  /** The carry out of adding the operands, which the flag update computes even for ANDS. */
  predicate CarriesOut(a: u64, m: u64, bit64: bool) {
    a + m >= if bit64 then 0x1_0000_0000_0000_0000 else 0x1_0000_0000
  }

  lemma NegativeAnd(a: u64, m: u64, bit64: bool)
    requires Sized(a, bit64) == a && Sized(m, bit64) == m
    ensures Negative(And64(a, m), bit64) <==> Negative(a, bit64) && Negative(m, bit64)
  {
    var top := if bit64 then 63 else 31;
    LogicFits(a, m, bit64);
    Pow2Constants();
    BitTop(a, top + 1);
    BitTop(m, top + 1);
    BitTop(And64(a, m), top + 1);
    BitAnd(a, m, top);
  }

  /** What ANDS leaves: the manual's flags, but for the carry of a sum. */
  lemma AndsFlags(a: u64, m: u64, bit64: bool)
    requires Sized(a, bit64) == a && Sized(m, bit64) == m
    ensures ALFlags(a, m, bit64, AND)
         == Pack(Negative(And64(a, m), bit64), And64(a, m) == 0, CarriesOut(a, m, bit64), false)
  {
    NegativeAnd(a, m, bit64);
    if bit64 {
      CarryIsExact64(a, m);
    } else {
      LogicFits(a, m, false);
      CarryIsExact32(a, m);
    }
  }

  lemma PackedCarry(n: bool, z: bool, c: bool)
    ensures Pack(n, z, c, false) == Pack(n, z, false, false) <==> !c
  {
  }

  /** A condition tested after ANDS holds as in the manual, unless it looks at a carry that the sum has. */
  lemma AndsThenDecide(cond: nat, a: u64, m: u64, bit64: bool)
    requires cond < 14 && Sized(a, bit64) == a && Sized(m, bit64) == m
    ensures CondHold(ALFlags(a, m, bit64, AND), cond)
         == CondHold(Pack(Negative(And64(a, m), bit64), And64(a, m) == 0, false, false), cond)
         <==> (CarriesOut(a, m, bit64) ==> cond / 2 != 1 && (cond / 2 == 4 ==> And64(a, m) == 0))
  {
    var n, z, c := Negative(And64(a, m), bit64), And64(a, m) == 0, CarriesOut(a, m, bit64);
    AndsFlags(a, m, bit64);
    CondHoldOfPack(n, z, c, false, cond);
    CondHoldOfPack(n, z, false, false, cond);
  }

  // ---------------------------------------------------------------- the step

  /** ANDS must not carry; the others must not mean the stack pointer, or leave it as it was. */
  predicate Conforming(insn: u32, mask: u64, regs: seq<u64>)
    requires |regs| == GPR_COUNT
  {
    if LogicOpOf(insn) == Ands then !CarriesOut(Operand(insn, regs), Sized(mask, Flag(insn, 31)), Flag(insn, 31))
    else Reg(insn, 0) == GPR_ZERO ==> Result(insn, mask, regs) == regs[GPR_SP]
  }

  /** The registers after the decoder's write and the end of the step. */
  function CodeAfter(insn: u32, mask: u64, regs: seq<u64>): (after: seq<u64>)
    requires |regs| == GPR_COUNT
    ensures |after| == GPR_COUNT
  {
    regs[Reg(insn, 0) := Result(insn, mask, regs)][PC_IDX := Wrap64(regs[PC_IDX] as int + 4)][GPR_ZERO := 0]
  }

  /** The result lands where the manual puts it, exactly when that is not the stack pointer or changes nothing. */
  lemma ResultAsManual(insn: u32, mask: u64, regs: seq<u64>)
    requires |regs| == GPR_COUNT && regs[GPR_ZERO] == 0
    ensures CodeAfter(insn, mask, regs) == ManualAfter(insn, mask, regs)
            <==> (LogicOpOf(insn) != Ands && Reg(insn, 0) == GPR_ZERO ==> Result(insn, mask, regs) == regs[GPR_SP])
  {
    var code, manual, rd := CodeAfter(insn, mask, regs), ManualAfter(insn, mask, regs), Reg(insn, 0);
    if rd != GPR_ZERO || LogicOpOf(insn) == Ands {
      assert code == manual;
    } else {
      assert code[GPR_SP] == regs[GPR_SP] && manual[GPR_SP] == Result(insn, mask, regs);
      if Result(insn, mask, regs) == regs[GPR_SP] {
        assert code == manual;
      }
    }
  }

  lemma FlagsAsManual(insn: u32, mask: u64, regs: seq<u64>)
    requires |regs| == GPR_COUNT && LogicOpOf(insn) == Ands
    ensures var sf := Flag(insn, 31);
            ALFlags(Operand(insn, regs), Sized(mask, sf), sf, AND) == ManualFlags(insn, mask, regs, 0)
            <==> !CarriesOut(Operand(insn, regs), Sized(mask, sf), sf)
  {
    var sf := Flag(insn, 31);
    var a, m := Operand(insn, regs), Sized(mask, sf);
    SizedTwice(regs[Reg(insn, 5)], sf);
    SizedTwice(mask, sf);
    AndsFlags(a, m, sf);
    PackedCarry(Negative(And64(a, m), sf), And64(a, m) == 0, CarriesOut(a, m, sf));
  }

  /**
   A whole step. It is refused as in the manual exactly when the encoding is not a 32-bit one with N
   set, and an accepted one has the manual's effect exactly when the operands are conforming.
   */
  method StepLogImm(insn: u32, cb: Cpu) returns (ok: bool, ghost mask: u64)
    requires cb.Valid() && cb.gpr[GPR_ZERO] == 0
    modifies cb.gpr, cb`nzcv
    ensures ok == ManualAllocated(insn) <==> !(!Flag(insn, 31) && Flag(insn, 22) && Six(insn, 10) != 63)
    ensures !ok ==> cb.gpr[..] == old(cb.gpr[..]) && cb.nzcv == old(cb.nzcv)
    ensures ok ==> LogicMask(insn).Masks? && BitmaskImmediate.IsMask(mask, LogicMask(insn))
    ensures ok ==>
              var regs := old(cb.gpr[..]);
              (cb.gpr[..] == ManualAfter(insn, mask, regs) && cb.nzcv == ManualFlags(insn, mask, regs, old(cb.nzcv))
               <==> Conforming(insn, mask, regs))
  {
    ghost var regs, flags := cb.gpr[..], cb.nzcv;
    AcceptsAsManual(insn);
    ok, mask := DisasLogImm(insn, cb);
    if ok {
      assert cb.gpr[..] == regs[Reg(insn, 0) := Result(insn, mask, regs)];
      Retire(cb);
      assert cb.gpr[..] == CodeAfter(insn, mask, regs);
      ResultAsManual(insn, mask, regs);
      if LogicOpOf(insn) == Ands {
        FlagsAsManual(insn, mask, regs);
      }
    }
  }
}
