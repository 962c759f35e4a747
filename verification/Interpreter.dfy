/**
 The interpreter: a register file, and the micro-operations that the decoder issues on it.

 Every micro-operation states the whole new register file. What sequences of them compute is
 stated by the decoder's methods and by the lemmas about the functions used here.
 */
module Interpreter {
  import opened Bits
  import opened Flags
  import opened GuestMemory
  import opened Vectors
  import Bitfield
  import Multiply

  const GPR_ZERO: nat := 31
  const GPR_SP: nat := 32
  const PC_IDX: nat := 33
  const GPR_DUMMY: nat := 34
  const GPR_DUMMY2: nat := 35
  const GPR_COUNT: nat := 37
  const VREG_DUMMY: nat := 32
  const VREG_COUNT: nat := 33

  type GprIndex = r: nat | r < 37
  type VregIndex = v: nat | v < 33

  datatype OpType = LSL | LSR | ASR | ADD | SUB | AND | OR | EOR

  /** The width of a register as an operation sees it: all of it, or its low half. */
  function Sized(x: u64, bit64: bool): u64 {
    if bit64 then x else Wrap32(x)
  }

  /** `ALCalc`, after a subtraction has been turned into an addition. */
  function ALCalc(a: u64, b: u64, bit64: bool, op: OpType): u64 {
    match op
    case ADD => Wrap64(a + b)
    case SUB => Wrap64(a + if bit64 then Neg64(b) else Neg32(b))
    case AND => And64(a, b)
    case OR => Or64(a, b)
    case EOR => Xor64(a, b)
    case LSL => Shl64(a, b)
    case LSR => Shr64(a, b)
    case ASR => if bit64 then Asr64(a, b) else Asr32(a, b)
  }

  /** Truncation of a whole number to the width of an operation. */
  function Modulo(z: int, bit64: bool): u64 {
    if bit64 then Wrap64(z) else Wrap32(z)
  }

  /** Adding the negated operand gives the difference, in either width. */
  lemma Difference(a: u64, b: u64, bit64: bool)
    ensures Sized(ALCalc(a, b, bit64, SUB), bit64) == Modulo(a - b, bit64)
  {
    if bit64 {
      NegatedSum64(a, b);
    } else {
      NegatedSum32(a, b);
      WrapDifference32(a, b);
    }
  }

  lemma SumOfWidth(a: u64, b: u64, bit64: bool)
    ensures Sized(ALCalc(a, b, bit64, ADD), bit64) == Modulo(a + b, bit64)
  {
    WrapTwice(a + b);
  }

  /** The flags that a flag-setting operation leaves. */
  function ALFlags(a: u64, b: u64, bit64: bool, op: OpType): u32 {
    if op == SUB then SubFlags(a, b, bit64)
    else if op == ADD then AddFlags(a, b, bit64)
    else if bit64 then FlagsOf64(ALCalc(a, b, true, op), a, b)
    else FlagsOf32(Wrap32(ALCalc(a, b, false, op)), Wrap32(a), Wrap32(b))
  }

  /** See C6.1.3: in some operands register 31 is the stack pointer. */
  function HandleAsSP(r: GprIndex): GprIndex {
    if r == GPR_ZERO then GPR_SP else r
  }

  class Cpu {
    const gpr: array<u64>
    const vreg: array<Vector>
    const memory: Memory
    var nzcv: u32

    ghost predicate Valid()
      reads this
    {
      gpr.Length == GPR_COUNT && vreg.Length == VREG_COUNT
    }

    constructor (memory: Memory)
      ensures Valid() && fresh(gpr) && fresh(vreg) && this.memory == memory
      ensures forall r :: 0 <= r < GPR_COUNT ==> gpr[r] == 0
      ensures nzcv == 0
    {
      gpr := new u64[37](_ => 0);
      vreg := new Vector[33](_ => seq(16, _ => 0));
      this.memory := memory;
      nzcv := 0;
    }

    // -------------------------------------------------------------- arithmetic and logic

    method UpdateFlag64(res: u64, a: u64, b: u64)
      modifies this`nzcv
      ensures nzcv == FlagsOf64(res, a, b)
    {
      nzcv := Pack(IsNegative64(res), res == 0, AverageCarry64(a, b), SumOverflow64(a, b, res));
    }

    method UpdateFlag32(res: u32, a: u32, b: u32)
      modifies this`nzcv
      ensures nzcv == FlagsOf32(res, a, b)
    {
      nzcv := Pack(IsNegative32(res), res == 0, AverageCarry32(a, b), SumOverflow32(a, b, res));
    }

    /** The flags of an operation, with the carry set after a 64-bit subtract of zero. */
    method SetFlags(result: u64, a: u64, b: u64, sub: bool, bit64: bool)
      modifies this`nzcv
      ensures nzcv == if !bit64 then FlagsOf32(Wrap32(result), Wrap32(a), Wrap32(b))
                      else if sub && b == 0 then Or32(FlagsOf64(result, a, b), 0x2000_0000)
                      else FlagsOf64(result, a, b)
    {
      if bit64 {
        UpdateFlag64(result, a, b);
        if sub && b == 0 {
          nzcv := Or32(nzcv, 0x2000_0000);
        }
      } else {
        UpdateFlag32(Wrap32(result), Wrap32(a), Wrap32(b));
      }
    }

    /** `_ArithmeticLogic`: subtraction is addition of the negated operand, with the carry patched. */
    method Compute(arg1: u64, arg2: u64, setflags: bool, bit64: bool, op: OpType) returns (result: u64)
      modifies this`nzcv
      ensures result == ALCalc(arg1, arg2, bit64, op)
      ensures op == ADD ==> result == Wrap64(arg1 + arg2)
      ensures op == SUB ==> Sized(result, bit64) == Modulo(arg1 - arg2, bit64)
      ensures nzcv == if setflags then ALFlags(arg1, arg2, bit64, op) else old(nzcv)
    {
      var b := arg2;
      var kind := op;
      if op == SUB {
        b := if bit64 then Neg64(b) else Neg32(b);
        kind := ADD;
      }
      result := ALCalc(arg1, b, bit64, kind);
      Difference(arg1, arg2, bit64);
      if setflags {
        SetFlags(result, arg1, b, op == SUB, bit64);
      }
    }

    method ArithmeticLogic(rd: GprIndex, arg1: u64, arg2: u64, setflags: bool, bit64: bool, op: OpType)
      requires Valid()
      modifies gpr, this`nzcv
      ensures gpr[..] == old(gpr[..])[rd := Sized(ALCalc(arg1, arg2, bit64, op), bit64)]
      ensures nzcv == if setflags then ALFlags(arg1, arg2, bit64, op) else old(nzcv)
    {
      var result := Compute(arg1, arg2, setflags, bit64, op);
      gpr[rd] := Sized(result, bit64);
    }

    method MovReg(rd: GprIndex, rn: GprIndex, bit64: bool)
      requires Valid()
      modifies gpr
      ensures gpr[..] == old(gpr[..])[rd := Sized(old(gpr[rn]), bit64)]
    {
      gpr[rd] := Sized(gpr[rn], bit64);
    }

    method AddI64(rd: GprIndex, rn: GprIndex, imm: u64, setflags: bool, bit64: bool)
      requires Valid()
      modifies gpr, this`nzcv
      ensures var d := if setflags then rd else HandleAsSP(rd);
              var n := if setflags then rn else HandleAsSP(rn);
              gpr[..] == old(gpr[..])[d := Sized(Wrap64(Sized(old(gpr[n]), bit64) + imm), bit64)]
      ensures nzcv == if setflags then ALFlags(Sized(old(gpr[rn]), bit64), imm, bit64, ADD) else old(nzcv)
    {
      var d := if setflags then rd else HandleAsSP(rd);
      var n := if setflags then rn else HandleAsSP(rn);
      ArithmeticLogic(d, Sized(gpr[n], bit64), imm, setflags, bit64, ADD);
    }

    method SubI64(rd: GprIndex, rn: GprIndex, imm: u64, setflags: bool, bit64: bool)
      requires Valid()
      modifies gpr, this`nzcv
      ensures var d := if setflags then rd else HandleAsSP(rd);
              var n := if setflags then rn else HandleAsSP(rn);
              gpr[..] == old(gpr[..])[d := Modulo(Sized(old(gpr[n]), bit64) as int - imm, bit64)]
      ensures nzcv == if setflags then SubFlags(Sized(old(gpr[rn]), bit64), imm, bit64) else old(nzcv)
    {
      var d := if setflags then rd else HandleAsSP(rd);
      var n := if setflags then rn else HandleAsSP(rn);
      Difference(Sized(gpr[n], bit64), imm, bit64);
      ArithmeticLogic(d, Sized(gpr[n], bit64), imm, setflags, bit64, SUB);
    }

    method AddReg(rd: GprIndex, rn: GprIndex, rm: GprIndex, setflags: bool, bit64: bool)
      requires Valid()
      modifies gpr, this`nzcv
      ensures var a, b := Sized(old(gpr[rn]), bit64), Sized(old(gpr[rm]), bit64);
              && gpr[..] == old(gpr[..])[rd := Modulo(a + b, bit64)]
              && nzcv == if setflags then ALFlags(a, b, bit64, ADD) else old(nzcv)
    {
      SumOfWidth(Sized(gpr[rn], bit64), Sized(gpr[rm], bit64), bit64);
      ArithmeticLogic(rd, Sized(gpr[rn], bit64), Sized(gpr[rm], bit64), setflags, bit64, ADD);
    }

    method SubReg(rd: GprIndex, rn: GprIndex, rm: GprIndex, setflags: bool, bit64: bool)
      requires Valid()
      modifies gpr, this`nzcv
      ensures var a, b := Sized(old(gpr[rn]), bit64), Sized(old(gpr[rm]), bit64);
              && gpr[..] == old(gpr[..])[rd := Modulo(a - b, bit64)]
              && nzcv == if setflags then SubFlags(a, b, bit64) else old(nzcv)
    {
      Difference(Sized(gpr[rn], bit64), Sized(gpr[rm], bit64), bit64);
      ArithmeticLogic(rd, Sized(gpr[rn], bit64), Sized(gpr[rm], bit64), setflags, bit64, SUB);
    }

    method ShiftI64(rd: GprIndex, rn: GprIndex, op: OpType, amount: nat, bit64: bool)
      requires Valid() && amount < 64
      requires op == LSL || op == LSR || op == ASR
      modifies gpr, this`nzcv
      ensures gpr[..] == old(gpr[..])[rd := Sized(ALCalc(Sized(old(gpr[rn]), bit64), amount, bit64, op), bit64)]
      ensures nzcv == old(nzcv)
    {
      ArithmeticLogic(rd, Sized(gpr[rn], bit64), amount, false, bit64, op);
    }

    method AndI64(rd: GprIndex, rn: GprIndex, wmask: u64, setflags: bool, bit64: bool)
      requires Valid()
      modifies gpr, this`nzcv
      ensures gpr[..] == old(gpr[..])[rd := Sized(And64(Sized(old(gpr[rn]), bit64), wmask), bit64)]
      ensures nzcv == if setflags then ALFlags(Sized(old(gpr[rn]), bit64), wmask, bit64, AND) else old(nzcv)
    {
      ArithmeticLogic(rd, Sized(gpr[rn], bit64), wmask, setflags, bit64, AND);
    }

    method OrrI64(rd: GprIndex, rn: GprIndex, wmask: u64, bit64: bool)
      requires Valid()
      modifies gpr, this`nzcv
      ensures gpr[..] == old(gpr[..])[rd := Sized(Or64(Sized(old(gpr[rn]), bit64), wmask), bit64)]
      ensures nzcv == old(nzcv)
    {
      ArithmeticLogic(rd, Sized(gpr[rn], bit64), wmask, false, bit64, OR);
    }

    method EorI64(rd: GprIndex, rn: GprIndex, wmask: u64, bit64: bool)
      requires Valid()
      modifies gpr, this`nzcv
      ensures gpr[..] == old(gpr[..])[rd := Sized(Xor64(Sized(old(gpr[rn]), bit64), wmask), bit64)]
      ensures nzcv == old(nzcv)
    {
      ArithmeticLogic(rd, Sized(gpr[rn], bit64), wmask, false, bit64, EOR);
    }

    method NotReg(rd: GprIndex, rm: GprIndex, bit64: bool)
      requires Valid()
      modifies gpr
      ensures gpr[..] == old(gpr[..])[rd := Sized(Not64(old(gpr[rm])), bit64)]
    {
      gpr[rd] := if bit64 then Not64(gpr[rm]) else 0xffff_ffff - Wrap32(gpr[rm]);
    }

    /** `Mul2Reg` for unsigned operands: the high half is written last. */
    method Mul2Reg(rh: GprIndex, rl: GprIndex, rn: GprIndex, rm: GprIndex)
      requires Valid() && rh != rl
      modifies gpr
      ensures var high, low := gpr[rh], gpr[rl];
              && Multiply.IsProduct(high, low, old(gpr[rn]), old(gpr[rm]))
              && gpr[..] == old(gpr[..])[rl := low][rh := high]
    {
      var high, low := Multiply.Umul64(gpr[rn], gpr[rm]);
      gpr[rl] := low;
      gpr[rh] := high;
    }

    // -------------------------------------------------------------- bitfields

    /** `SExtractI64`: a shift pair, or one shift when the field ends at the top. */
    method SExtractI64(rd: GprIndex, rn: GprIndex, pos: nat, len: nat, bit64: bool)
      requires Valid() && 1 <= len && pos + len <= 64
      modifies gpr, this`nzcv
      ensures var x := old(gpr[rn]);
              gpr[..] == old(gpr[..])[GPR_DUMMY := if pos + len == 64 then old(gpr[GPR_DUMMY]) else Shl64(x, 64 - len - pos)]
                                     [rd := Bitfield.SExtract(x, pos, len, bit64)]
      ensures nzcv == old(nzcv)
    {
      if pos + len == 64 {
        ShiftI64(rd, rn, ASR, 64 - len, true);
      } else {
        ShiftI64(GPR_DUMMY, rn, LSL, 64 - len - pos, true);
        ShiftI64(rd, GPR_DUMMY, ASR, 64 - len, true);
      }
      if !bit64 {
        gpr[rd] := Wrap64(Signed32(Wrap32(gpr[rd])));
      }
    }

    method UExtractI64(rd: GprIndex, rn: GprIndex, pos: nat, len: nat, bit64: bool)
      requires Valid() && 1 <= len && pos + len <= 64
      modifies gpr, this`nzcv
      ensures var x := old(gpr[rn]);
              gpr[..] == old(gpr[..])[GPR_DUMMY := if pos + len == 64 then old(gpr[GPR_DUMMY]) else Shl64(x, 64 - len - pos)]
                                     [rd := Bitfield.UExtract(x, pos, len, bit64)]
      ensures nzcv == old(nzcv)
    {
      if pos + len == 64 {
        ShiftI64(rd, rn, LSR, 64 - len, true);
      } else {
        ShiftI64(GPR_DUMMY, rn, LSL, 64 - len - pos, true);
        ShiftI64(rd, GPR_DUMMY, LSR, 64 - len, true);
      }
      if !bit64 {
        gpr[rd] := Wrap32(gpr[rd]);
      }
    }

    method DepositReg(rd: GprIndex, rn: GprIndex, pos: nat, len: nat, bit64: bool)
      requires Valid() && len < 64
      modifies gpr
      ensures gpr[..] == old(gpr[..])[rd := Bitfield.Deposit(old(gpr[rd]), Sized(old(gpr[rn]), bit64), pos, len)]
    {
      gpr[rd] := Bitfield.Deposit(gpr[rd], Sized(gpr[rn], bit64), pos, len);
    }

    method DepositZeroReg(rd: GprIndex, rn: GprIndex, pos: nat, len: nat, bit64: bool)
      requires Valid() && len < 64
      modifies gpr
      ensures gpr[..] == old(gpr[..])[rd := Bitfield.DepositZero(Sized(old(gpr[rn]), bit64), pos, len)]
    {
      gpr[rd] := Bitfield.DepositZero(Sized(gpr[rn], bit64), pos, len);
    }

    // -------------------------------------------------------------- conditions

    method CondMovReg(cond: nat, rd: GprIndex, rn: GprIndex, rm: GprIndex, bit64: bool)
      requires Valid()
      modifies gpr
      ensures gpr[..] == old(gpr[..])[rd := Sized(old(gpr[if CondHold(nzcv, cond) then rn else rm]), bit64)]
    {
      if CondHold(nzcv, cond) {
        gpr[rd] := Sized(gpr[rn], bit64);
      } else {
        gpr[rd] := Sized(gpr[rm], bit64);
      }
    }

    method CondCmpI64(rn: GprIndex, imm: u64, flags: nat, cond: nat, op: bool, bit64: bool)
      requires Valid() && flags < 16
      modifies gpr, this`nzcv
      ensures forall r :: 0 <= r < GPR_COUNT && r != GPR_ZERO ==> gpr[r] == old(gpr[r])
      ensures !CondHold(old(nzcv), cond) ==> gpr[..] == old(gpr[..]) && nzcv == flags * 0x1000_0000
      ensures CondHold(old(nzcv), cond) ==>
                nzcv == ALFlags(Sized(old(gpr[rn]), bit64), imm, bit64, if op then SUB else ADD)
    {
      if CondHold(nzcv, cond) {
        if op {
          SubI64(GPR_ZERO, rn, imm, true, bit64);
        } else {
          AddI64(GPR_ZERO, rn, imm, true, bit64);
        }
      } else {
        nzcv := flags * 0x1000_0000;
      }
    }

    method CondCmpReg(rn: GprIndex, rm: GprIndex, flags: nat, cond: nat, op: bool, bit64: bool)
      requires Valid() && flags < 16
      modifies gpr, this`nzcv
      ensures forall r :: 0 <= r < GPR_COUNT && r != GPR_ZERO ==> gpr[r] == old(gpr[r])
      ensures !CondHold(old(nzcv), cond) ==> gpr[..] == old(gpr[..]) && nzcv == flags * 0x1000_0000
      ensures CondHold(old(nzcv), cond) ==>
                nzcv == ALFlags(Sized(old(gpr[rn]), bit64), Sized(old(gpr[rm]), bit64), bit64, if op then SUB else ADD)
    {
      if CondHold(nzcv, cond) {
        if op {
          SubReg(GPR_ZERO, rn, rm, true, bit64);
        } else {
          AddReg(GPR_ZERO, rn, rm, true, bit64);
        }
      } else {
        nzcv := flags * 0x1000_0000;
      }
    }

    method BranchI64(addr: u64)
      requires Valid()
      modifies gpr
      ensures gpr[..] == old(gpr[..])[PC_IDX := addr]
    {
      gpr[PC_IDX] := addr;
    }

    method BranchFlag(cond: nat, addr: u64)
      requires Valid()
      modifies gpr
      ensures gpr[..] == if CondHold(nzcv, cond) then old(gpr[..])[PC_IDX := addr] else old(gpr[..])
    {
      if CondHold(nzcv, cond) {
        gpr[PC_IDX] := addr;
      }
    }

    // -------------------------------------------------------------- vectors

    /** The machine and its memory are well formed and do not share arrays. */
    ghost predicate Ready()
      reads this, memory
    {
      && Valid() && memory.Valid()
      && gpr !in memory.Buffers() && vreg !in memory.Buffers() && this !in memory.Buffers()
      && gpr as object != vreg
    }

    /** The bytes of a value read from memory. */
    method ReadLane(addr: u64, n: nat) returns (lane: seq<u8>)
      requires memory.Valid() && 1 <= n <= 8 && InSegment(memory.regions, addr, n)
      ensures forall a :: addr <= a < addr + n ==> a in memory.Flat()
      ensures lane == Load(memory.Flat(), addr, n)
    {
      var value := memory.ReadFromRAM(addr, n);
      BytesOfLittleEndian(Load(memory.Flat(), addr, n));
      lane := BytesOf(value, n);
    }

    /** `LoadVecReg`: one lane from the address in a register. */
    method LoadVecReg(vd: VregIndex, element: nat, rn: GprIndex, size: nat)
      requires Ready() && size < 4 && HasLane(element, size)
      requires InSegment(memory.regions, gpr[HandleAsSP(rn)], EBytes(size))
      modifies vreg
      ensures var addr := gpr[HandleAsSP(rn)];
              && (forall a :: addr <= a < addr + EBytes(size) ==> a in memory.Flat())
              && vreg[..] == old(vreg[..])[vd := SetLane(old(vreg[vd]), element, size, Load(memory.Flat(), addr, EBytes(size)))]
      ensures memory.Flat() == old(memory.Flat())
    {
      var lane := ReadLane(gpr[HandleAsSP(rn)], EBytes(size));
      vreg[vd] := SetLane(vreg[vd], element, size, lane);
    }

    /** `StoreVecReg`: one lane to the address in a register. */
    method StoreVecReg(rn: GprIndex, element: nat, vn: VregIndex, size: nat)
      requires Ready() && size < 4 && HasLane(element, size)
      requires InSegment(memory.regions, gpr[HandleAsSP(rn)], EBytes(size))
      modifies memory.Buffers()
      ensures memory.Valid() && memory.regions == old(memory.regions)
      ensures memory.Flat() == Store(old(memory.Flat()), old(gpr[HandleAsSP(rn)]), Lane(old(vreg[vn]), element, size))
      ensures gpr[..] == old(gpr[..]) && vreg[..] == old(vreg[..])
    {
      var lane := Lane(vreg[vn], element, size);
      BytesOfLittleEndian(lane);
      memory.WriteToRAM(gpr[HandleAsSP(rn)], EBytes(size), LittleEndian(lane));
    }

    /** `ReadVecElem`: a lane as a number in a general register. */
    method ReadVecElem(rd: GprIndex, vn: VregIndex, index: nat, size: nat)
      requires Valid() && size < 4 && HasLane(index, size)
      modifies gpr
      ensures LittleEndian(Lane(vreg[vn], index, size)) < 0x1_0000_0000_0000_0000
      ensures gpr[..] == old(gpr[..])[rd := LittleEndian(Lane(vreg[vn], index, size))]
      ensures gpr as object != vreg ==> vreg[..] == old(vreg[..])
    {
      var lane := Lane(vreg[vn], index, size);
      LaneFits(lane);
      gpr[rd] := LittleEndian(lane);
    }

    /** `WriteVecElem`: the low bytes of a general register into a lane. */
    method WriteVecElem(vd: VregIndex, rn: GprIndex, index: nat, size: nat)
      requires Valid() && size < 4 && HasLane(index, size)
      modifies vreg
      ensures vreg[..] == old(vreg[..])[vd := SetLane(old(vreg[vd]), index, size, BytesOf(old(gpr[rn]), EBytes(size)))]
      ensures gpr as object != vreg ==> gpr[..] == old(gpr[..])
    {
      vreg[vd] := SetLane(vreg[vd], index, size, BytesOf(gpr[rn], EBytes(size)));
    }
  }

  /** A lane of at most eight bytes is a 64-bit number. */
  lemma LaneFits(bytes: seq<u8>)
    requires |bytes| <= 8
    ensures LittleEndian(bytes) < 0x1_0000_0000_0000_0000
  {
    Pow2Constants();
    LittleEndianAppend(bytes, 0);
    Pow2Monotone(8 * |bytes|, 64);
  }
}
