/**
 Pairwise vector addition. Sums are staged in a scratch vector, so the destination may be either
 source.
 */
module Pairwise {
  import opened Bits
  import opened GuestMemory
  import opened Vectors
  import opened Interpreter
  import opened Disassembler
  import Simd

  /** Each of the first `n` lanes lies inside a vector register. */
  ghost predicate AllLanes(n: nat, size: nat) {
    forall e: nat :: e < n ==> HasLane(e, size)
  }

  lemma LanesOfWidth(n: nat, size: nat)
    requires Scaled(n, size) <= 16
    ensures AllLanes(n, size)
  {
  }

  /** Lane `i` of the two sources side by side, the first below the second. */
  ghost function SourceLane(vn: Vector, vm: Vector, size: nat, elements: nat, i: nat): (bytes: seq<u8>)
    requires i < 2 * elements && AllLanes(elements, size)
    ensures |bytes| == EBytes(size)
  {
    if i < elements then Lane(vn, i, size) else Lane(vm, i - elements, size)
  }

  /** The sum of an adjacent pair, in the width of a lane. */
  ghost function PairSum(vn: Vector, vm: Vector, size: nat, elements: nat, e: nat): (bytes: seq<u8>)
    requires e < elements && AllLanes(elements, size)
    ensures |bytes| == EBytes(size)
  {
    BytesOf(LittleEndian(SourceLane(vn, vm, size, elements, 2 * e)) + LittleEndian(SourceLane(vn, vm, size, elements, 2 * e + 1)),
            EBytes(size))
  }

  ghost function PairSums(vn: Vector, vm: Vector, size: nat, elements: nat): (sums: seq<seq<u8>>)
    requires AllLanes(elements, size)
    ensures Parts(sums, elements, size)
    ensures forall e: nat :: e < elements ==> sums[e] == PairSum(vn, vm, size, elements, e)
  {
    seq(elements, e requires 0 <= e < elements => PairSum(vn, vm, size, elements, e))
  }

  /** A vector after its first `k` lanes are replaced. */
  ghost function Staged(w: Vector, lanes: seq<seq<u8>>, size: nat, k: nat): Vector
    requires k <= |lanes| && AllLanes(|lanes|, size) && Parts(lanes, |lanes|, size)
  {
    if k == 0 then w else SetLane(Staged(w, lanes, size, k - 1), k - 1, size, lanes[k - 1])
  }

  lemma {:induction false} StagedLanes(w: Vector, lanes: seq<seq<u8>>, size: nat, k: nat, e: nat)
    requires k <= |lanes| && AllLanes(|lanes|, size) && Parts(lanes, |lanes|, size) && e < |lanes|
    ensures Lane(Staged(w, lanes, size, k), e, size) == if e < k then lanes[e] else Lane(w, e, size)
    decreases k
  {
    if k > 0 {
      StagedLanes(w, lanes, size, k - 1, e);
      LaneAfterSet(Staged(w, lanes, size, k - 1), k - 1, size, lanes[k - 1], e);
    }
  }

  /** Bytes above the replaced lanes keep what the vector held before. */
  lemma {:induction false} StagedElsewhere(w: Vector, lanes: seq<seq<u8>>, size: nat, k: nat, b: nat)
    requires k <= |lanes| && AllLanes(|lanes|, size) && Parts(lanes, |lanes|, size) && Scaled(|lanes|, size) <= b < 16
    ensures Staged(w, lanes, size, k)[b] == w[b]
    decreases k
  {
    if k > 0 {
      StagedElsewhere(w, lanes, size, k - 1, b);
    }
  }

  /**
   Pairwise addition: lane `e` of the result is the sum, modulo the lane width, of lanes `2 * e`
   and `2 * e + 1` of the two sources side by side.
   */
  lemma PairwiseAdd(w: Vector, vn: Vector, vm: Vector, size: nat, elements: nat, e: nat)
    requires e < elements && AllLanes(elements, size)
    ensures LittleEndian(Lane(Staged(w, PairSums(vn, vm, size, elements), size, elements), e, size))
         == Low(LittleEndian(SourceLane(vn, vm, size, elements, 2 * e)) + LittleEndian(SourceLane(vn, vm, size, elements, 2 * e + 1)),
                8 * EBytes(size))
  {
    StagedLanes(w, PairSums(vn, vm, size, elements), size, elements, e);
    PairSumValue(vn, vm, size, elements, e);
  }

  lemma PairSumValue(vn: Vector, vm: Vector, size: nat, elements: nat, e: nat)
    requires e < elements && AllLanes(elements, size)
    ensures LittleEndian(PairSum(vn, vm, size, elements, e))
         == Low(LittleEndian(SourceLane(vn, vm, size, elements, 2 * e)) + LittleEndian(SourceLane(vn, vm, size, elements, 2 * e + 1)),
                8 * EBytes(size))
  {
    BytesOfTruncates(LittleEndian(SourceLane(vn, vm, size, elements, 2 * e)) + LittleEndian(SourceLane(vn, vm, size, elements, 2 * e + 1)),
                     EBytes(size));
  }

  // ---------------------------------------------------------------- the instruction

  lemma AddBytes(x: nat, k: nat)
    ensures (x + 0x100 * k) % 0x100 == x % 0x100 && (x + 0x100 * k) / 0x100 == x / 0x100 + k
  {
    DivUnique(x + 0x100 * k, 0x100, x / 0x100 + k, x % 0x100);
  }

  /** A multiple of 2^(8 * m) does not reach the low `n` bytes. */
  lemma {:induction false} LowBytesUnaffected(x: nat, q: nat, n: nat, m: nat)
    requires n <= m
    ensures BytesOf(x + Scale(q, 8 * m), n) == BytesOf(x, n)
    decreases n
  {
    if n > 0 {
      ScaleEight(q, 8 * m - 8);
      LowBytesUnaffected(x / 0x100, q, n - 1, m - 1);
      AddBytes(x, Scale(q, 8 * m - 8));
    }
  }

  /** A 64-bit sum has the lane bytes of the exact sum. */
  lemma SumBytes(a: u64, b: u64, n: nat)
    requires n <= 8
    ensures BytesOf(Wrap64(a as int + b), n) == BytesOf(a as int + b, n)
  {
    CarryOut(a, b);
    if a as int + b >= 0x1_0000_0000_0000_0000 {
      LowBytesUnaffected(Wrap64(a as int + b), 1, n, 8);
    }
  }

  lemma CarryOut(a: u64, b: u64)
    ensures var s := Wrap64(a as int + b);
            a as int + b == if a as int + b >= 0x1_0000_0000_0000_0000 then s + Scale(1, 8 * 8) else s
  {
    Pow2Constants();
    ScaleIsTimes(1, 64);
  }

  /** The two lanes that a round of the loop adds: in the first half of the rounds they come from the first source. */
  lemma LowOperands(vn: Vector, vm: Vector, size: nat, elements: nat, e: nat)
    requires AllLanes(elements, size) && 2 * e + 1 < elements
    ensures HasLane(2 * e, size) && HasLane(2 * e + 1, size) && HasLane(e, size)
    ensures IsPairSum(PairSum(vn, vm, size, elements, e), vn, e, size)
  {
  }

  lemma HighOperands(vn: Vector, vm: Vector, size: nat, half: nat, base: nat)
    requires AllLanes(2 * half, size) && base < half
    ensures HasLane(2 * base, size) && HasLane(2 * base + 1, size) && HasLane(half + base, size)
    ensures IsPairSum(PairSum(vn, vm, size, 2 * half, half + base), vm, base, size)
  {
  }

  lemma PairOperands(vn: Vector, vm: Vector, size: nat, half: nat, e: nat, second: bool, base: nat)
    requires AllLanes(2 * half, size) && e < 2 * half
    requires second == (e >= half) && base == if second then e - half else e
    ensures HasLane(2 * base, size) && HasLane(2 * base + 1, size) && HasLane(e, size)
    ensures IsPairSum(PairSum(vn, vm, size, 2 * half, e), if second then vm else vn, base, size)
  {
    if second {
      HighOperands(vn, vm, size, half, base);
    } else {
      LowOperands(vn, vm, size, 2 * half, e);
    }
  }

  ghost predicate IsPairSum(sum: seq<u8>, v: Vector, base: nat, size: nat)
    requires HasLane(2 * base, size) && HasLane(2 * base + 1, size)
  {
    sum == BytesOf(LittleEndian(Lane(v, 2 * base, size)) + LittleEndian(Lane(v, 2 * base + 1, size)), EBytes(size))
  }

  /** One round of the lane loop: the sum of two adjacent lanes goes to lane `e` of the scratch vector. */
  method EmitPair(v: nat, base: nat, e: nat, size: nat, cb: Cpu, ghost sum: seq<u8>)
    requires cb.Valid() && cb.gpr as object != cb.vreg && v < 32 && size < 4
    requires HasLane(2 * base, size) && HasLane(2 * base + 1, size) && HasLane(e, size)
    requires IsPairSum(sum, cb.vreg[v], base, size)
    modifies cb.gpr, cb.vreg, cb`nzcv
    ensures var regs := old(cb.vreg[..]);
            cb.vreg[..] == regs[VREG_DUMMY := SetLane(regs[VREG_DUMMY], e, size, sum)]
    ensures OnlyChanged(old(cb.gpr[..]), cb.gpr[..], {GPR_DUMMY, GPR_DUMMY2}) && cb.nzcv == old(cb.nzcv)
  {
    cb.ReadVecElem(GPR_DUMMY, v, 2 * base, size);
    cb.ReadVecElem(GPR_DUMMY2, v, 2 * base + 1, size);
    SumBytes(cb.gpr[GPR_DUMMY], cb.gpr[GPR_DUMMY2], EBytes(size));
    cb.AddReg(GPR_DUMMY, GPR_DUMMY, GPR_DUMMY2, false, true);
    cb.WriteVecElem(VREG_DUMMY, GPR_DUMMY, e, size);
  }

  /** The last four micro-operations: a copy of the scratch vector by halves. */
  method EmitCopy(rd: nat, cb: Cpu)
    requires cb.Valid() && cb.gpr as object != cb.vreg && rd < 32
    modifies cb.gpr, cb.vreg
    ensures cb.vreg[..] == old(cb.vreg[..])[rd := old(cb.vreg[VREG_DUMMY])]
    ensures OnlyChanged(old(cb.gpr[..]), cb.gpr[..], {GPR_DUMMY})
  {
    ghost var w, x := cb.vreg[VREG_DUMMY], cb.vreg[rd];
    BytesOfLittleEndian(Lane(w, 0, 3));
    BytesOfLittleEndian(Lane(w, 1, 3));
    cb.ReadVecElem(GPR_DUMMY, VREG_DUMMY, 0, 3);
    cb.WriteVecElem(rd, GPR_DUMMY, 0, 3);
    cb.ReadVecElem(GPR_DUMMY, VREG_DUMMY, 1, 3);
    cb.WriteVecElem(rd, GPR_DUMMY, 1, 3);
    CopiedHalves(w, x);
  }

  lemma CopiedHalves(w: Vector, x: Vector)
    ensures SetLane(SetLane(x, 0, 3, Lane(w, 0, 3)), 1, 3, Lane(w, 1, 3)) == w
  {
  }

  /** The vector registers after `k` rounds: only the scratch vector differs. */
  ghost function AfterRounds(regs: seq<Vector>, rn: nat, rm: nat, size: nat, elements: nat, k: nat): (after: seq<Vector>)
    requires |regs| == VREG_COUNT && rn < 32 && rm < 32 && AllLanes(elements, size) && k <= elements
    ensures |after| == VREG_COUNT
  {
    regs[VREG_DUMMY := Staged(regs[VREG_DUMMY], PairSums(regs[rn], regs[rm], size, elements), size, k)]
  }

  lemma NextRound(regs: seq<Vector>, rn: nat, rm: nat, size: nat, elements: nat, k: nat)
    requires |regs| == VREG_COUNT && rn < 32 && rm < 32 && AllLanes(elements, size) && k < elements && HasLane(k, size)
    ensures var now, sum := AfterRounds(regs, rn, rm, size, elements, k), PairSum(regs[rn], regs[rm], size, elements, k);
            && AfterRounds(regs, rn, rm, size, elements, k + 1) == now[VREG_DUMMY := SetLane(now[VREG_DUMMY], k, size, sum)]
            && now[rn] == regs[rn] && now[rm] == regs[rm]
  {
  }

  /** The body of the lane loop of `Handle3SamePair`. */
  method EmitRound(rn: nat, rm: nat, size: nat, elements: nat, e: nat, cb: Cpu, ghost regs: seq<Vector>)
    requires cb.Valid() && cb.gpr as object != cb.vreg && rn < 32 && rm < 32 && |regs| == VREG_COUNT
    requires size < 4 && elements % 2 == 0 && AllLanes(elements, size) && e < elements
    requires cb.vreg[..] == AfterRounds(regs, rn, rm, size, elements, e)
    modifies cb.gpr, cb.vreg, cb`nzcv
    ensures cb.vreg[..] == AfterRounds(regs, rn, rm, size, elements, e + 1)
    ensures OnlyChanged(old(cb.gpr[..]), cb.gpr[..], {GPR_DUMMY, GPR_DUMMY2}) && cb.nzcv == old(cb.nzcv)
  {
    var second := e >= elements / 2;
    var base := if second then e - elements / 2 else e;
    assert elements == 2 * (elements / 2);
    PairOperands(regs[rn], regs[rm], size, elements / 2, e, second, base);
    NextRound(regs, rn, rm, size, elements, e);
    if second {
      EmitPair(rm, base, e, size, cb, PairSum(regs[rn], regs[rm], size, elements, e));
    } else {
      EmitPair(rn, base, e, size, cb, PairSum(regs[rn], regs[rm], size, elements, e));
    }
  }

  /** `Handle3SamePair` for ADDP. */
  method EmitAddp(rd: nat, rn: nat, rm: nat, size: nat, elements: nat, cb: Cpu)
    requires cb.Valid() && cb.gpr as object != cb.vreg && rd < 32 && rn < 32 && rm < 32
    requires size < 4 && elements % 2 == 0 && AllLanes(elements, size)
    modifies cb.gpr, cb.vreg, cb`nzcv
    ensures var regs := old(cb.vreg[..]);
            var w := Staged(regs[VREG_DUMMY], PairSums(regs[rn], regs[rm], size, elements), size, elements);
            cb.vreg[..] == regs[VREG_DUMMY := w][rd := w]
    ensures OnlyChanged(old(cb.gpr[..]), cb.gpr[..], {GPR_DUMMY, GPR_DUMMY2}) && cb.nzcv == old(cb.nzcv)
  {
    ghost var regs := cb.vreg[..];
    var e := 0;
    while e < elements
      invariant 0 <= e <= elements
      invariant cb.vreg[..] == AfterRounds(regs, rn, rm, size, elements, e)
      invariant OnlyChanged(old(cb.gpr[..]), cb.gpr[..], {GPR_DUMMY, GPR_DUMMY2}) && cb.nzcv == old(cb.nzcv)
    {
      EmitRound(rn, rm, size, elements, e, cb, regs);
      e := e + 1;
    }
    EmitCopy(rd, cb);
  }

  /** The lane size class of an ADDP encoding. */
  function SizeOf(insn: u32): (size: nat)
    ensures size < 4
  {
    Pow2Constants();
    Extract32(insn, 22, 2)
  }

  predicate AddpAllocated(insn: u32) {
    !Flag(insn, 29) && !(SizeOf(insn) == 3 && !Flag(insn, 30))
  }

  lemma AddpLanes(q: bool, size: nat)
    requires size < 4 && !(size == 3 && !q)
    ensures AllLanes(Simd.Elements(q, size), size) && Simd.Elements(q, size) % 2 == 0
    ensures Scaled(Simd.Elements(q, size), size) == if q then 16 else 8
  {
    LanesOfWidth(Simd.Elements(q, size), size);
  }

  /** The lanes of both sources are read before any of the destination is written. */
  method DisasAddp(insn: u32, cb: Cpu) returns (ok: bool)
    requires cb.Valid() && cb.gpr as object != cb.vreg
    modifies cb.gpr, cb.vreg, cb`nzcv
    ensures ok == AddpAllocated(insn)
    ensures !ok ==> cb.vreg[..] == old(cb.vreg[..])
    ensures ok ==>
              var size, elements, regs := SizeOf(insn), Simd.Elements(Flag(insn, 30), SizeOf(insn)), old(cb.vreg[..]);
              && AllLanes(elements, size)
              && var w := Staged(regs[VREG_DUMMY], PairSums(regs[Reg(insn, 5)], regs[Reg(insn, 16)], size, elements), size, elements);
                 cb.vreg[..] == regs[VREG_DUMMY := w][Reg(insn, 0) := w]
    ensures OnlyChanged(old(cb.gpr[..]), cb.gpr[..], {GPR_DUMMY, GPR_DUMMY2}) && cb.nzcv == old(cb.nzcv)
  {
    var size, q := SizeOf(insn), Flag(insn, 30);
    ok := !(Flag(insn, 29) || (size == 3 && !q));
    if ok {
      AddpLanes(q, size);
      EmitAddp(Reg(insn, 0), Reg(insn, 5), Reg(insn, 16), size, Simd.Elements(q, size), cb);
    }
  }

  // ---------------------------------------------------------------- where the manual differs

  /** What section C7.2 says of the destination: the sums, and zeros above them. */
  ghost predicate ManualPairs(v: Vector, vn: Vector, vm: Vector, size: nat, elements: nat)
    requires AllLanes(elements, size)
  {
    && (forall e: nat :: e < elements ==> Lane(v, e, size) == PairSum(vn, vm, size, elements, e))
    && (forall b: nat :: Scaled(elements, size) <= b < 16 ==> v[b] == 0)
  }

  /** The destination is the manual's exactly when the scratch vector was zero above the lanes. */
  lemma PairsAsManual(w: Vector, vn: Vector, vm: Vector, size: nat, elements: nat)
    requires AllLanes(elements, size)
    ensures ManualPairs(Staged(w, PairSums(vn, vm, size, elements), size, elements), vn, vm, size, elements)
            <==> forall b: nat :: Scaled(elements, size) <= b < 16 ==> w[b] == 0
  {
    var sums := PairSums(vn, vm, size, elements);
    var v := Staged(w, sums, size, elements);
    forall e: nat | e < elements ensures Lane(v, e, size) == PairSum(vn, vm, size, elements, e) {
      StagedLanes(w, sums, size, elements, e);
    }
    forall b: nat | Scaled(elements, size) <= b < 16 ensures v[b] == w[b] {
      StagedElsewhere(w, sums, size, elements, b);
    }
  }
}
