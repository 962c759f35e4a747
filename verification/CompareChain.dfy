/**
 Compare, conditional compares and a conditional branch: the flags of a CMP followed by any
 number of CCMPs carry the conjunction of all the comparisons.
 */
module CompareChain {
  import opened Bits
  import opened Flags
  import opened Interpreter
  import opened Disassembler

  /** One comparison of two operands. */
  datatype Comparison = Comparison(x: u64, y: u64, bit64: bool)

  /** A conditional compare: it compares if `cond` holds and sets the flags to `fallback` otherwise. */
  datatype Step = Step(cond: nat, fallback: nat, cmp: Comparison)

  function Compared(c: Comparison): u32 {
    SubFlags(c.x, c.y, c.bit64)
  }

  function Fallback(s: Step): u32
    requires s.fallback < 16
  {
    s.fallback * 0x1000_0000
  }

  predicate Steps(steps: seq<Step>) {
    forall s :: s in steps ==> s.fallback < 16
  }

  /** The flags after the conditional compares. */
  function ChainFlags(nzcv: u32, steps: seq<Step>): u32
    requires Steps(steps)
    decreases |steps|
  {
    if steps == [] then nzcv
    else
      var s := steps[0];
      ChainFlags(if CondHold(nzcv, s.cond) then Compared(s.cmp) else Fallback(s), steps[1..])
  }

  /** The condition that is tested next: that of the next step, or of the final test. */
  function NextCond(steps: seq<Step>, final: nat): nat {
    if steps == [] then final else steps[0].cond
  }

  /** Every condition names a relation and every operand pair is one for which it is decided correctly. */
  predicate Sound(c: Comparison, steps: seq<Step>, final: nat)
    decreases |steps|
  {
    && NextCond(steps, final) < 14
    && Decidable(NextCond(steps, final), c.x, c.y, c.bit64)
    && (steps != [] ==> Sound(steps[0].cmp, steps[1..], final))
  }

  /** Every fallback falsifies the condition that is tested after it. */
  predicate FallbacksFail(steps: seq<Step>, final: nat)
    requires Steps(steps)
  {
    steps != [] ==> !CondHold(Fallback(steps[0]), NextCond(steps[1..], final)) && FallbacksFail(steps[1..], final)
  }

  /** The comparisons all hold, each for the condition tested after it. */
  predicate AllHold(c: Comparison, steps: seq<Step>, final: nat)
    requires Sound(c, steps, final)
    decreases |steps|
  {
    && Relation(NextCond(steps, final), c.x, c.y, c.bit64)
    && (steps != [] ==> AllHold(steps[0].cmp, steps[1..], final))
  }

  lemma {:induction false} ChainStaysFalse(nzcv: u32, steps: seq<Step>, final: nat)
    requires Steps(steps) && FallbacksFail(steps, final) && !CondHold(nzcv, NextCond(steps, final))
    ensures !CondHold(ChainFlags(nzcv, steps), final)
    decreases |steps|
  {
    if steps != [] {
      ChainStaysFalse(Fallback(steps[0]), steps[1..], final);
    }
  }

  /** The chain is a short-circuit conjunction. */
  lemma {:induction false} ChainIsConjunction(c: Comparison, steps: seq<Step>, final: nat)
    requires Steps(steps) && Sound(c, steps, final) && FallbacksFail(steps, final)
    ensures CondHold(ChainFlags(Compared(c), steps), final) <==> AllHold(c, steps, final)
    decreases |steps|
  {
    var next := NextCond(steps, final);
    CompareThenDecide(next, c.x, c.y, c.bit64);
    if steps != [] {
      if Relation(next, c.x, c.y, c.bit64) {
        ChainIsConjunction(steps[0].cmp, steps[1..], final);
      } else {
        ChainStaysFalse(Fallback(steps[0]), steps[1..], final);
      }
    }
  }

  // ---------------------------------------------------------------- the same on the machine

  /** The instruction is a flag-setting subtract of shifted registers. */
  predicate IsCompare(insn: u32) {
    AddSubAllocated(insn) && Flag(insn, 29) && Flag(insn, 30) && Reg(insn, 0) == GPR_ZERO
  }

  predicate IsCcmp(insn: u32) {
    CondCmpAllocated(insn) && Flag(insn, 30)
  }

  function ComparisonOf(insn: u32, regs: seq<u64>): Comparison
    requires |regs| == GPR_COUNT
  {
    var sf := Flag(insn, 31);
    Comparison(Sized(regs[Reg(insn, 5)], sf),
               ShiftedOperand(regs[Reg(insn, 16)], ShiftOp(Extract32(insn, 22, 2)), Six(insn, 10), sf), sf)
  }

  function StepOf(insn: u32, regs: seq<u64>): (s: Step)
    requires |regs| == GPR_COUNT
    ensures s.fallback < 16
  {
    var sf := Flag(insn, 31);
    Step(Four(insn, 12), Four(insn, 0),
         Comparison(Sized(regs[Reg(insn, 5)], sf), CondCmpOperand(insn, regs), sf))
  }

  function StepsOf(ccmps: seq<u32>, regs: seq<u64>): (steps: seq<Step>)
    requires |regs| == GPR_COUNT
    ensures |steps| == |ccmps| && Steps(steps)
  {
    if ccmps == [] then [] else [StepOf(ccmps[0], regs)] + StepsOf(ccmps[1..], regs)
  }

  /** The general registers, the zero register included, are as they were. */
  ghost predicate SameGenerals(was: seq<u64>, now: seq<u64>) {
    |was| == |now| == GPR_COUNT && forall r: nat :: r < 32 ==> now[r] == was[r]
  }

  /**
   Runs a compare, conditional compares and a conditional branch, one step each. No general
   register changes, and the branch is taken exactly when all the comparisons hold.
   */
  method RunCompareAndBranch(cmp: u32, ccmps: seq<u32>, branch: u32, cb: Cpu)
    requires cb.Valid() && cb.gpr[GPR_ZERO] == 0
    requires IsCompare(cmp) && (forall i :: 0 <= i < |ccmps| ==> IsCcmp(ccmps[i])) && CondBrAllocated(branch)
    modifies cb.gpr, cb`nzcv
    ensures SameGenerals(old(cb.gpr[..]), cb.gpr[..])
    ensures var c, steps := ComparisonOf(cmp, old(cb.gpr[..])), StepsOf(ccmps, old(cb.gpr[..]));
            var pc, final := Advance(old(cb.gpr[PC_IDX]), |ccmps| + 1), Four(branch, 0);
            && (cb.gpr[PC_IDX] == if CondHold(ChainFlags(Compared(c), steps), final)
                                  then BranchTarget(branch, pc) else Advance(pc, 1))
            && (Sound(c, steps, final) && FallbacksFail(steps, final) ==>
                  cb.gpr[PC_IDX] == if AllHold(c, steps, final) then BranchTarget(branch, pc) else Advance(pc, 1))
  {
    ghost var c, steps, final := ComparisonOf(cmp, cb.gpr[..]), StepsOf(ccmps, cb.gpr[..]), Four(branch, 0);
    RunCompares(cmp, ccmps, cb);
    StepBranch(branch, cb);
    if Sound(c, steps, final) && FallbacksFail(steps, final) {
      ChainIsConjunction(c, steps, final);
    }
  }

  /** The compare and the conditional compares, before the branch. */
  method RunCompares(cmp: u32, ccmps: seq<u32>, cb: Cpu)
    requires cb.Valid() && cb.gpr[GPR_ZERO] == 0
    requires IsCompare(cmp) && forall i :: 0 <= i < |ccmps| ==> IsCcmp(ccmps[i])
    modifies cb.gpr, cb`nzcv
    ensures SameGenerals(old(cb.gpr[..]), cb.gpr[..])
    ensures cb.gpr[PC_IDX] == Advance(old(cb.gpr[PC_IDX]), |ccmps| + 1)
    ensures cb.nzcv == ChainFlags(Compared(ComparisonOf(cmp, old(cb.gpr[..]))), StepsOf(ccmps, old(cb.gpr[..])))
  {
    ghost var regs := cb.gpr[..];
    ghost var steps := StepsOf(ccmps, regs);
    StepCompare(cmp, cb);
    var i := 0;
    while i < |ccmps|
      invariant 0 <= i <= |ccmps|
      invariant SameGenerals(regs, cb.gpr[..])
      invariant cb.gpr[PC_IDX] == Advance(regs[PC_IDX], i + 1)
      invariant ChainFlags(cb.nzcv, StepsOf(ccmps[i..], regs)) == ChainFlags(Compared(ComparisonOf(cmp, regs)), steps)
    {
      assert ccmps[i..][1..] == ccmps[i + 1..];
      StepCcmp(ccmps[i], regs, cb);
      i := i + 1;
    }
  }

  /** The program counter after `n` instructions. */
  function Advance(pc: u64, n: nat): u64 {
    if n == 0 then pc else Wrap64(Advance(pc, n - 1) as int + 4)
  }

  /** The compare instruction itself. */
  method Compare(cmp: u32, cb: Cpu)
    requires cb.Valid() && IsCompare(cmp)
    modifies cb.gpr, cb`nzcv
    ensures OnlyChanged(old(cb.gpr[..]), cb.gpr[..], {GPR_ZERO, GPR_DUMMY})
    ensures cb.nzcv == Compared(ComparisonOf(cmp, old(cb.gpr[..])))
  {
    var ok := DisasAddSubReg(cmp, cb);
  }

  method StepCompare(cmp: u32, cb: Cpu)
    requires cb.Valid() && cb.gpr[GPR_ZERO] == 0 && IsCompare(cmp)
    modifies cb.gpr, cb`nzcv
    ensures SameGenerals(old(cb.gpr[..]), cb.gpr[..])
    ensures cb.gpr[PC_IDX] == Advance(old(cb.gpr[PC_IDX]), 1)
    ensures cb.nzcv == Compared(ComparisonOf(cmp, old(cb.gpr[..])))
  {
    ghost var flags := Compared(ComparisonOf(cmp, cb.gpr[..]));
    Compare(cmp, cb);
    assert cb.nzcv == flags;
    StepEnd(cb);
  }

  /** The end of a step, with what it does to the registers that matter here. */
  method StepEnd(cb: Cpu)
    requires cb.Valid()
    modifies cb.gpr
    ensures cb.gpr[PC_IDX] == Advance(old(cb.gpr[PC_IDX]), 1) && cb.gpr[GPR_ZERO] == 0
    ensures forall r: nat :: r < 31 ==> cb.gpr[r] == old(cb.gpr[r])
  {
    assert Advance(cb.gpr[PC_IDX], 0) == cb.gpr[PC_IDX];
    Retire(cb);
  }

  method StepCcmp(ccmp: u32, ghost regs: seq<u64>, cb: Cpu)
    requires cb.Valid() && IsCcmp(ccmp) && SameGenerals(regs, cb.gpr[..]) && regs[GPR_ZERO] == 0
    modifies cb.gpr, cb`nzcv
    ensures SameGenerals(regs, cb.gpr[..])
    ensures cb.gpr[PC_IDX] == Advance(old(cb.gpr[PC_IDX]), 1)
    ensures var s := StepOf(ccmp, regs);
            cb.nzcv == if CondHold(old(cb.nzcv), s.cond) then Compared(s.cmp) else Fallback(s)
  {
    var ok := DisasCondCmp(ccmp, cb);
    StepEnd(cb);
  }

  method StepBranch(branch: u32, cb: Cpu)
    requires cb.Valid() && CondBrAllocated(branch) && cb.gpr[GPR_ZERO] == 0
    modifies cb.gpr
    ensures SameGenerals(old(cb.gpr[..]), cb.gpr[..])
    ensures cb.gpr[PC_IDX] == if CondHold(cb.nzcv, Four(branch, 0))
                              then BranchTarget(branch, old(cb.gpr[PC_IDX])) else Advance(old(cb.gpr[PC_IDX]), 1)
  {
    ghost var pc, taken := cb.gpr[PC_IDX], CondHold(cb.nzcv, Four(branch, 0));
    ghost var target := BranchTarget(branch, pc);
    var ok := DisasCondBrImm(branch, cb);
    assert cb.gpr[PC_IDX] == if taken then Wrap64(target as int - 4) else pc;
    FourShort(target);
    StepEnd(cb);
  }

  /** A branch leaves the program counter four short, and the end of the step makes up for it. */
  lemma FourShort(target: u64)
    ensures Advance(Wrap64(target as int - 4), 1) == target
  {
    WrapBack(target);
    assert Advance(Wrap64(target as int - 4), 0) == Wrap64(target as int - 4);
  }
}
