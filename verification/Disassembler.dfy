/**
 The decoder: each method takes an instruction word, extracts its fields and issues the
 micro-operations. A method returns false, having changed nothing, where the original aborts on
 an unallocated encoding.
 */
module Disassembler {
  import opened Bits
  import opened Flags
  import opened Interpreter
  import Bitfield
  import BitmaskImmediate
  import Multiply

  /** `extract32`: `len` bits of the word from bit `from` up. */
  function Extract32(bitfield: u32, from: nat, len: nat): (field: nat)
    requires len > 0 && from + len <= 32
    ensures field < Pow2(len)
  {
    Split(Shr(bitfield, from), len);
    Low(Shr(bitfield, from), len)
  }

  /** A field as quotient and remainder. */
  lemma FieldIs(insn: u32, from: nat, len: nat)
    requires len > 0 && from + len <= 32
    ensures Extract32(insn, from, len) == insn / Pow2(from) % Pow2(len)
  {
    ShrAndLow(insn, from);
    ShrAndLow(Shr(insn, from), len);
  }

  /** `sextract32`: the same field as a two's-complement number. */
  function SExtract32(bitfield: u32, from: nat, len: nat): (field: int)
    requires len > 0 && from + len <= 32
    ensures 0 - Pow2(len) <= field < Pow2(len)
  {
    var field := Extract32(bitfield, from, len);
    if field >= Pow2(len - 1) then field - Pow2(len) else field
  }

  predicate Flag(insn: u32, at: nat)
    requires at < 32
  {
    Extract32(insn, at, 1) == 1
  }

  lemma FlagIsBit(insn: u32, at: nat)
    requires at < 32
    ensures Flag(insn, at) <==> Bit(insn, at)
  {
    BitLow(Shr(insn, at), 1, 0);
    BitShr(insn, at, 0);
    assert Extract32(insn, at, 1) < Pow2(1) == 2;
  }

  /** A five-bit register field. */
  function Reg(insn: u32, from: nat): (r: nat)
    requires from <= 27
    ensures r < 32
  {
    Extract32(insn, from, 5)
  }

  /** A six-bit field. */
  function Six(insn: u32, from: nat): (r: nat)
    requires from <= 26
    ensures r < 64
  {
    Extract32(insn, from, 6)
  }

  function Four(insn: u32, from: nat): (r: nat)
    requires from <= 28
    ensures r < 16
  {
    Extract32(insn, from, 4)
  }

  /** Nothing but the listed registers differs from `was`. */
  ghost predicate OnlyChanged(was: seq<u64>, now: seq<u64>, changed: set<nat>) {
    |was| == |now| && forall r: nat :: r < |was| && r !in changed ==> now[r] == was[r]
  }

  // ---------------------------------------------------------------- bitfield moves

  /** The operation of a bitfield instruction; opc 3 is unallocated. */
  function BitfieldOp(insn: u32): Bitfield.Opcode {
    var opc := Extract32(insn, 29, 2);
    if opc == 0 then Bitfield.SBFM else if opc == 1 then Bitfield.BFM else Bitfield.UBFM
  }

  predicate BitfieldAllocated(insn: u32) {
    && Flag(insn, 31) == Flag(insn, 22)
    && Bitfield.Fields(Flag(insn, 31), Six(insn, 16), Six(insn, 10))
    && Extract32(insn, 29, 2) <= 2
  }

  method DisasBitfield(insn: u32, cb: Cpu) returns (ok: bool)
    requires cb.Valid()
    requires Bitfield.DefinedShift(BitfieldOp(insn), Six(insn, 16), Six(insn, 10))
    modifies cb.gpr, cb`nzcv
    ensures ok == BitfieldAllocated(insn)
    ensures !ok ==> cb.gpr[..] == old(cb.gpr[..])
    ensures ok ==>
              && OnlyChanged(old(cb.gpr[..]), cb.gpr[..], {Reg(insn, 0), GPR_DUMMY})
              && cb.gpr[Reg(insn, 0)] == Bitfield.Move(BitfieldOp(insn), Flag(insn, 31), Six(insn, 16), Six(insn, 10),
                                                       old(cb.gpr[Reg(insn, 5)]), old(cb.gpr[Reg(insn, 0)]))
    ensures cb.nzcv == old(cb.nzcv)
  {
    var is64 := Flag(insn, 31);
    var ri, si := Six(insn, 16), Six(insn, 10);
    var size := if is64 then 64 else 32;
    ok := !(is64 != Flag(insn, 22) || ri >= size || si >= size || Extract32(insn, 29, 2) > 2);
    if ok {
      EmitBitfield(BitfieldOp(insn), is64, ri, si, Reg(insn, 5), Reg(insn, 0), cb);
    }
  }

  /** The micro-operations of a bitfield move. */
  method EmitBitfield(op: Bitfield.Opcode, is64: bool, ri: nat, si: nat, rn: nat, rd: nat, cb: Cpu)
    requires cb.Valid() && rn < 32 && rd < 32
    requires Bitfield.Fields(is64, ri, si) && Bitfield.DefinedShift(op, ri, si)
    modifies cb.gpr, cb`nzcv
    ensures OnlyChanged(old(cb.gpr[..]), cb.gpr[..], {rd, GPR_DUMMY})
    ensures cb.gpr[rd] == Bitfield.Move(op, is64, ri, si, old(cb.gpr[rn]), old(cb.gpr[rd]))
    ensures cb.nzcv == old(cb.nzcv)
  {
    var size := if is64 then 64 else 32;
    cb.MovReg(GPR_DUMMY, rn, true);
    var pos, len;
    if si >= ri {
      len := si - ri + 1;
      if op == Bitfield.SBFM {
        cb.SExtractI64(rd, GPR_DUMMY, ri, len, is64);
        return;
      } else if op == Bitfield.UBFM {
        cb.UExtractI64(rd, GPR_DUMMY, ri, len, is64);
        return;
      }
      cb.UExtractI64(GPR_DUMMY, GPR_DUMMY, ri, len, is64);
      pos := 0;
    } else {
      len, pos := si + 1, size - ri;
    }
    if op == Bitfield.SBFM && len < ri {
      cb.SExtractI64(GPR_DUMMY, GPR_DUMMY, 0, len, is64);
      len := ri;
    }
    if op == Bitfield.BFM {
      cb.DepositReg(rd, GPR_DUMMY, pos, len, is64);
    } else {
      cb.DepositZeroReg(rd, GPR_DUMMY, pos, len, is64);
    }
  }

  // ---------------------------------------------------------------- multiply high

  /** UMULH, the one high multiply whose operands are unsigned. */
  method DisasUmulh(insn: u32, cb: Cpu)
    requires cb.Valid()
    modifies cb.gpr
    ensures OnlyChanged(old(cb.gpr[..]), cb.gpr[..], {Reg(insn, 0), GPR_DUMMY})
    ensures cb.gpr[Reg(insn, 0)]
         == (old(cb.gpr[Reg(insn, 5)]) as int * old(cb.gpr[Reg(insn, 16)]) as int) / 0x1_0000_0000_0000_0000
  {
    var rd, rn, rm := Reg(insn, 0), Reg(insn, 5), Reg(insn, 16);
    ghost var a, b := cb.gpr[rn], cb.gpr[rm];
    cb.Mul2Reg(rd, GPR_DUMMY, rn, rm);
    Multiply.HighHalf(cb.gpr[rd], cb.gpr[GPR_DUMMY], a, b);
  }

  // ---------------------------------------------------------------- logical immediates

  datatype LogicOp = And | Orr | Eor | Ands

  function LogicOpOf(insn: u32): LogicOp {
    match Extract32(insn, 29, 2)
    case 0 => And
    case 1 => Orr
    case 2 => Eor
    case _ => Ands
  }

  function LogicResult(op: LogicOp, a: u64, mask: u64): u64 {
    match op
    case And => And64(a, mask)
    case Ands => And64(a, mask)
    case Orr => Or64(a, mask)
    case Eor => Xor64(a, mask)
  }

  /** Bit `i` of the combination of a register with a mask. */
  lemma BitLogicResult(op: LogicOp, a: u64, mask: u64, i: nat)
    ensures Bit(LogicResult(op, a, mask), i) ==
            match op
            case And => Bit(a, i) && Bit(mask, i)
            case Ands => Bit(a, i) && Bit(mask, i)
            case Orr => Bit(a, i) || Bit(mask, i)
            case Eor => Bit(a, i) != Bit(mask, i)
  {
    BitAnd(a, mask, i);
    BitOr(a, mask, i);
    BitXor(a, mask, i);
  }

  /** The immediate that the instruction's fields denote in the manual. */
  function LogicMask(insn: u32): BitmaskImmediate.Masks {
    BitmaskImmediate.DecodeBitMasks(if Flag(insn, 22) then 1 else 0, Six(insn, 10), Six(insn, 16))
  }

  method DisasLogImm(insn: u32, cb: Cpu) returns (ok: bool, ghost mask: u64)
    requires cb.Valid()
    modifies cb.gpr, cb`nzcv
    ensures ok == LogicMask(insn).Masks?
    ensures !ok ==> cb.gpr[..] == old(cb.gpr[..]) && cb.nzcv == old(cb.nzcv)
    ensures ok ==> BitmaskImmediate.IsMask(mask, LogicMask(insn))
    ensures ok ==>
              var sf := Flag(insn, 31);
              cb.gpr[..] == old(cb.gpr[..])[Reg(insn, 0) :=
                LogicResult(LogicOpOf(insn), Sized(old(cb.gpr[Reg(insn, 5)]), sf), Sized(mask, sf))]
    ensures ok ==>
              var sf := Flag(insn, 31);
              cb.nzcv == if LogicOpOf(insn) == Ands then ALFlags(Sized(old(cb.gpr[Reg(insn, 5)]), sf), Sized(mask, sf), sf, AND)
                         else old(cb.nzcv)
  {
    var wmask;
    ok, wmask := BitmaskImmediate.LogicImmDecode(if Flag(insn, 22) then 1 else 0, Six(insn, 10), Six(insn, 16));
    mask := wmask;
    if ok {
      EmitLogImm(LogicOpOf(insn), Reg(insn, 0), Reg(insn, 5), wmask, Flag(insn, 31), cb);
    }
  }

  method EmitLogImm(op: LogicOp, rd: nat, rn: nat, mask: u64, is64: bool, cb: Cpu)
    requires cb.Valid() && rn < 32 && rd < 32
    modifies cb.gpr, cb`nzcv
    ensures cb.gpr[..] == old(cb.gpr[..])[rd := LogicResult(op, Sized(old(cb.gpr[rn]), is64), Sized(mask, is64))]
    ensures cb.nzcv == if op == Ands then ALFlags(Sized(old(cb.gpr[rn]), is64), Sized(mask, is64), is64, AND) else old(cb.nzcv)
  {
    var wmask := if is64 then mask else Wrap32(mask);
    LogicFits(Sized(cb.gpr[rn], is64), wmask, is64);
    match op {
      case Ands => cb.AndI64(rd, rn, wmask, true, is64);
      case And => cb.AndI64(rd, rn, wmask, false, is64);
      case Orr => cb.OrrI64(rd, rn, wmask, is64);
      case Eor => cb.EorI64(rd, rn, wmask, is64);
    }
  }

  /** Combining two 32-bit words gives a 32-bit word. */
  lemma LogicFits(a: u64, m: u64, bit64: bool)
    requires Sized(a, bit64) == a && Sized(m, bit64) == m
    ensures Sized(And64(a, m), bit64) == And64(a, m)
    ensures Sized(Or64(a, m), bit64) == Or64(a, m)
    ensures Sized(Xor64(a, m), bit64) == Xor64(a, m)
  {
    if !bit64 {
      LogicFits32(a, m);
    }
  }

  lemma LogicFits32(a: u32, m: u32)
    ensures Bits.And(a, m) < 0x1_0000_0000
    ensures Bits.Or(a, m) < 0x1_0000_0000
    ensures Bits.Xor(a, m) < 0x1_0000_0000
  {
    Pow2Constants();
    AndBelow(a, m);
    OrBelow(a, m, 32);
    XorBelow(a, m, 32);
  }

  // ---------------------------------------------------------------- add and subtract

  function ShiftOp(shiftType: nat): OpType {
    match shiftType
    case 0 => LSL
    case 1 => LSR
    case _ => ASR
  }

  /** The second operand of a shifted-register instruction. */
  function ShiftedOperand(x: u64, op: OpType, amount: nat, bit64: bool): u64
    requires amount < 64
  {
    Sized(ALCalc(Sized(x, bit64), amount, bit64, op), bit64)
  }

  predicate AddSubAllocated(insn: u32) {
    Extract32(insn, 22, 2) != 3 && (Flag(insn, 31) || Six(insn, 10) <= 31)
  }

  method DisasAddSubReg(insn: u32, cb: Cpu) returns (ok: bool)
    requires cb.Valid()
    modifies cb.gpr, cb`nzcv
    ensures ok == AddSubAllocated(insn)
    ensures !ok ==> cb.gpr[..] == old(cb.gpr[..]) && cb.nzcv == old(cb.nzcv)
    ensures ok ==>
              var sf, op := Flag(insn, 31), if Flag(insn, 30) then SUB else ADD;
              var a := Sized(old(cb.gpr[Reg(insn, 5)]), sf);
              var b := ShiftedOperand(old(cb.gpr[Reg(insn, 16)]), ShiftOp(Extract32(insn, 22, 2)), Six(insn, 10), sf);
              && OnlyChanged(old(cb.gpr[..]), cb.gpr[..], {Reg(insn, 0), GPR_DUMMY})
              && cb.gpr[Reg(insn, 0)] == (if Flag(insn, 30) then Modulo(a - b, sf) else Modulo(a + b, sf))
              && cb.nzcv == if Flag(insn, 29) then ALFlags(a, b, sf, op) else old(cb.nzcv)
  {
    ok := !(Extract32(insn, 22, 2) == 3 || (!Flag(insn, 31) && Six(insn, 10) > 31));
    if ok {
      EmitAddSub(Reg(insn, 0), Reg(insn, 5), Reg(insn, 16), ShiftOp(Extract32(insn, 22, 2)), Six(insn, 10),
                 Flag(insn, 29), Flag(insn, 30), Flag(insn, 31), cb);
    }
  }

  method EmitAddSub(rd: nat, rn: nat, rm: nat, shift: OpType, amount: nat, setflags: bool, subOp: bool, sf: bool, cb: Cpu)
    requires cb.Valid() && rd < 32 && rn < 32 && rm < 32
    requires amount < 64 && (shift == LSL || shift == LSR || shift == ASR)
    modifies cb.gpr, cb`nzcv
    ensures OnlyChanged(old(cb.gpr[..]), cb.gpr[..], {rd, GPR_DUMMY})
    ensures var op := if subOp then SUB else ADD;
            var a, b := Sized(old(cb.gpr[rn]), sf), ShiftedOperand(old(cb.gpr[rm]), shift, amount, sf);
            && cb.gpr[rd] == (if subOp then Modulo(a - b, sf) else Modulo(a + b, sf))
            && cb.nzcv == if setflags then ALFlags(a, b, sf, op) else old(cb.nzcv)
  {
    cb.MovReg(GPR_DUMMY, rm, true);
    cb.ShiftI64(GPR_DUMMY, GPR_DUMMY, shift, amount, sf);
    SizedTwice(ALCalc(Sized(cb.gpr[rm], sf), amount, sf, shift), sf);
    if subOp {
      cb.SubReg(rd, rn, GPR_DUMMY, setflags, sf);
    } else {
      cb.AddReg(rd, rn, GPR_DUMMY, setflags, sf);
    }
  }

  lemma SizedTwice(x: u64, sf: bool)
    ensures Sized(Sized(x, sf), sf) == Sized(x, sf)
  {
  }

  /** Bit `i` of the shifted operand, as the manual's ShiftReg() gives it for each shift type. */
  lemma BitShiftedOperand(x: u64, op: OpType, amount: nat, bit64: bool, i: nat)
    requires op == LSL || op == LSR || op == ASR
    requires var size := if bit64 then 64 else 32; amount < size && i < 64
    ensures var size := if bit64 then 64 else 32;
            Bit(ShiftedOperand(x, op, amount, bit64), i) ==
            (i < size &&
             if op == LSL then i >= amount && Bit(x, i - amount)
             else if op == LSR then i + amount < size && Bit(x, i + amount)
             else Bit(x, if i + amount < size then i + amount else size - 1))
  {
    if bit64 {
      BitShl64(x, amount, i);
      BitShr(x, amount, i);
      BitAsr64(x, amount, i);
      HighBits64(x, i + amount);
    } else {
      var w := Wrap32(x);
      if i >= amount { Bitfield.BitWrap32(x, i - amount); }
      Bitfield.BitWrap32(x, i + amount);
      if op == LSL {
        BitShl64(w, amount, i);
        Bitfield.BitWrap32(Shl64(w, amount), i);
      } else if op == LSR {
        BitShr(w, amount, i);
        Bitfield.BitWrap32(Shr64(w, amount), i);
      } else {
        Bitfield.BitWrap32(Asr32(w, amount), i);
        if i < 32 {
          Bitfield.BitAsr32(w, amount, i);
          Bitfield.BitWrap32(x, 31);
        }
      }
    }
  }

  // ---------------------------------------------------------------- conditions

  predicate CondCmpAllocated(insn: u32) {
    Flag(insn, 29) && !Flag(insn, 10) && !Flag(insn, 4)
  }

  /** The second operand of a conditional compare: a five-bit immediate or a register. */
  function CondCmpOperand(insn: u32, regs: seq<u64>): u64
    requires |regs| == GPR_COUNT
  {
    if Flag(insn, 11) then Reg(insn, 16) else Sized(regs[Reg(insn, 16)], Flag(insn, 31))
  }

  /** The flags after a conditional compare. */
  function CondCmpFlags(insn: u32, regs: seq<u64>, nzcv: u32): u32
    requires |regs| == GPR_COUNT
  {
    if CondHold(nzcv, Four(insn, 12)) then
      ALFlags(Sized(regs[Reg(insn, 5)], Flag(insn, 31)), CondCmpOperand(insn, regs), Flag(insn, 31),
              if Flag(insn, 30) then SUB else ADD)
    else
      Four(insn, 0) * 0x1000_0000
  }

  method DisasCondCmp(insn: u32, cb: Cpu) returns (ok: bool)
    requires cb.Valid()
    modifies cb.gpr, cb`nzcv
    ensures ok == CondCmpAllocated(insn)
    ensures OnlyChanged(old(cb.gpr[..]), cb.gpr[..], {GPR_ZERO})
    ensures cb.nzcv == if ok then CondCmpFlags(insn, old(cb.gpr[..]), old(cb.nzcv)) else old(cb.nzcv)
  {
    ok := !(!Flag(insn, 29) || Flag(insn, 10) || Flag(insn, 4));
    if ok {
      if Flag(insn, 11) {
        cb.CondCmpI64(Reg(insn, 5), Reg(insn, 16), Four(insn, 0), Four(insn, 12), Flag(insn, 30), Flag(insn, 31));
      } else {
        cb.CondCmpReg(Reg(insn, 5), Reg(insn, 16), Four(insn, 0), Four(insn, 12), Flag(insn, 30), Flag(insn, 31));
      }
    }
  }

  /** What a conditional select takes when its condition fails: Xm, inverted and/or incremented. */
  function ElseValue(x: u64, invert: bool, increment: bool, sf: bool): u64 {
    Sized(Wrap64((if invert then Not64(x) else x) as int + if increment then 1 else 0), sf)
  }

  /** CSNEG inverts and increments, which negates in the width of the register. */
  lemma ElseNegates(x: u64, sf: bool)
    ensures ElseValue(x, true, true, sf) == if sf then Wrap64(0 - x as int) else Wrap32(0 - x as int)
  {
    WrapModulus64(0 - x as int);
    WrapTwice(0 - x as int);
  }

  /** What the emitted steps leave in the scratch register. */
  function ElseWord(x: u64, invert: bool, increment: bool, sf: bool): u64 {
    var v := if invert then Sized(Not64(x), sf) else x;
    if increment then Sized(Wrap64(Sized(v, sf) as int + 1), sf) else v
  }

  lemma ElseWordIs(x: u64, invert: bool, increment: bool, sf: bool)
    ensures Sized(ElseWord(x, invert, increment, sf), sf) == ElseValue(x, invert, increment, sf)
  {
    var v := if invert then Not64(x) else x;
    if sf {
      WrapOnce64(v);
    } else {
      WrapTwice(v);
      SuccessorLow32(v);
    }
  }

  /** Truncation before and after adding one. */
  lemma SuccessorLow32(v: u64)
    ensures Wrap32(Wrap32(v)) == Wrap32(v)
    ensures Wrap32(Wrap32(Wrap64(Wrap32(v) as int + 1))) == Wrap32(Wrap64(v as int + 1))
  {
    WrapTwice(v as int + 1);
    WrapTwice(Wrap32(v) as int + 1);
    WrapSum32(v, 1);
  }

  method EmitElse(rm: nat, invert: bool, increment: bool, sf: bool, cb: Cpu)
    requires cb.Valid() && rm < 32
    modifies cb.gpr, cb`nzcv
    ensures cb.gpr[..] == old(cb.gpr[..])[GPR_DUMMY := ElseWord(old(cb.gpr[rm]), invert, increment, sf)]
    ensures cb.nzcv == old(cb.nzcv)
  {
    cb.MovReg(GPR_DUMMY, rm, true);
    if invert {
      cb.NotReg(GPR_DUMMY, GPR_DUMMY, sf);
    }
    if increment {
      cb.AddI64(GPR_DUMMY, GPR_DUMMY, 1, false, sf);
    }
  }

  predicate CondSelAllocated(insn: u32) {
    !Flag(insn, 29) && !Flag(insn, 11)
  }

  method DisasCondSel(insn: u32, cb: Cpu) returns (ok: bool)
    requires cb.Valid()
    modifies cb.gpr, cb`nzcv
    ensures ok == CondSelAllocated(insn)
    ensures !ok ==> cb.gpr[..] == old(cb.gpr[..])
    ensures ok ==>
              && OnlyChanged(old(cb.gpr[..]), cb.gpr[..], {Reg(insn, 0), GPR_DUMMY})
              && cb.gpr[Reg(insn, 0)] ==
                 if CondHold(cb.nzcv, Four(insn, 12)) then Sized(old(cb.gpr[Reg(insn, 5)]), Flag(insn, 31))
                 else ElseValue(old(cb.gpr[Reg(insn, 16)]), Flag(insn, 30), Flag(insn, 10), Flag(insn, 31))
    ensures cb.nzcv == old(cb.nzcv)
  {
    ok := !(Flag(insn, 29) || Flag(insn, 11));
    if ok {
      EmitCondSel(Reg(insn, 0), Reg(insn, 5), Reg(insn, 16), Four(insn, 12), Flag(insn, 30), Flag(insn, 10), Flag(insn, 31), cb);
    }
  }

  method EmitCondSel(rd: nat, rn: nat, rm: nat, cond: nat, invert: bool, increment: bool, sf: bool, cb: Cpu)
    requires cb.Valid() && rd < 32 && rn < 32 && rm < 32
    modifies cb.gpr, cb`nzcv
    ensures OnlyChanged(old(cb.gpr[..]), cb.gpr[..], {rd, GPR_DUMMY})
    ensures cb.gpr[rd] == if CondHold(cb.nzcv, cond) then Sized(old(cb.gpr[rn]), sf)
                          else ElseValue(old(cb.gpr[rm]), invert, increment, sf)
    ensures cb.nzcv == old(cb.nzcv)
  {
    ElseWordIs(cb.gpr[rm], invert, increment, sf);
    EmitElse(rm, invert, increment, sf, cb);
    cb.CondMovReg(cond, rd, rn, GPR_DUMMY, sf);
  }

  predicate CondBrAllocated(insn: u32) {
    !Flag(insn, 4) && !Flag(insn, 24)
  }

  /** Where a conditional branch at address `pc` goes when it is taken. */
  function BranchTarget(insn: u32, pc: u64): u64 {
    Wrap64(pc as int + SExtract32(insn, 5, 19) * 4)
  }

  /** Leaves the program counter four short of the target: the step that ends the instruction adds four. */
  method DisasCondBrImm(insn: u32, cb: Cpu) returns (ok: bool)
    requires cb.Valid()
    modifies cb.gpr
    ensures ok == CondBrAllocated(insn)
    ensures cb.gpr[..] == if ok && CondHold(cb.nzcv, Four(insn, 0))
                          then old(cb.gpr[..])[PC_IDX := Wrap64(BranchTarget(insn, old(cb.gpr[PC_IDX])) as int - 4)]
                          else old(cb.gpr[..])
  {
    ok := !(Flag(insn, 4) || Flag(insn, 24));
    if ok {
      var cond := Four(insn, 0);
      var pc: int := cb.gpr[PC_IDX];
      var addr := Wrap64(pc + SExtract32(insn, 5, 19) * 4 - 4);
      WrapBack(pc + SExtract32(insn, 5, 19) * 4);
      if cond < 14 {
        cb.BranchFlag(cond, addr);
      } else {
        cb.BranchI64(addr);
      }
    }
  }

  lemma WrapBack(z: int)
    ensures Wrap64(Wrap64(z) as int - 4) == Wrap64(z - 4)
    ensures Wrap64(Wrap64(z - 4) as int + 4) == Wrap64(z)
  {
  }

  /** The end of `SingleStep`: the program counter moves on and the zero register is reset. */
  method Retire(cb: Cpu)
    requires cb.Valid()
    modifies cb.gpr
    ensures cb.gpr[..] == old(cb.gpr[..])[PC_IDX := Wrap64(old(cb.gpr[PC_IDX]) as int + 4)][GPR_ZERO := 0]
  {
    cb.gpr[PC_IDX] := Wrap64(cb.gpr[PC_IDX] as int + 4);
    cb.gpr[GPR_ZERO] := 0;
  }
}
