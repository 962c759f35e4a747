/**
 The decoder's lane loops for multiple-structure loads and stores.
 */
module Simd {
  import opened Bits
  import opened GuestMemory
  import opened Vectors
  import opened Interpreter
  import opened Disassembler

  /** What an instruction can change: registers, vectors, flags and memory. */
  datatype Machine = Machine(gpr: seq<u64>, vreg: seq<Vector>, nzcv: u32, flat: FlatMap)

  ghost predicate Registered(m: Machine) {
    |m.gpr| == GPR_COUNT && |m.vreg| == VREG_COUNT
  }

  ghost function State(cb: Cpu): (m: Machine)
    requires cb.Ready()
    reads cb, cb.gpr, cb.vreg, cb.memory, cb.memory.Buffers()
    ensures Registered(m)
  {
    Machine(cb.gpr[..], cb.vreg[..], cb.nzcv, cb.memory.Flat())
  }

  // ---------------------------------------------------------------- load and store multiple structures

  /** Each of `n` lane accesses from `base` up lies inside one segment and below 2^64. */
  ghost predicate LanesAccessible(regions: seq<RamBlock>, base: u64, n: nat, size: nat) {
    forall k: nat :: k < n ==> LaneAccessible(regions, base, size, k)
  }

  ghost predicate LaneAccessible(regions: seq<RamBlock>, base: u64, size: nat, k: nat) {
    base + Scaled(k, size) < 0x1_0000_0000_0000_0000 && InSegment(regions, base + Scaled(k, size), EBytes(size))
  }

  ghost predicate LanesMapped(m: FlatMap, base: int, n: nat, size: nat) {
    forall k: nat :: k < n ==> LaneMapped(m, base, size, k)
  }

  ghost predicate LaneMapped(m: FlatMap, base: int, size: nat, k: nat) {
    forall a :: base + Scaled(k, size) <= a < base + Scaled(k, size) + EBytes(size) ==> a in m
  }

  /** The `n` lanes in memory from `base` up. */
  ghost function MemoryLanes(m: FlatMap, base: int, n: nat, size: nat): (parts: seq<seq<u8>>)
    requires LanesMapped(m, base, n, size)
    ensures Parts(parts, n, size)
  {
    seq(n, k requires 0 <= k < n => MemoryLane(m, base, size, k))
  }

  ghost function MemoryLane(m: FlatMap, base: int, size: nat, k: nat): (part: seq<u8>)
    requires LaneMapped(m, base, size, k)
    ensures |part| == EBytes(size)
  {
    Load(m, base + Scaled(k, size), EBytes(size))
  }

  lemma AccessibleIsMapped(memory: Memory, base: u64, n: nat, size: nat)
    requires memory.Valid() && LanesAccessible(memory.regions, base, n, size)
    ensures LanesMapped(memory.Flat(), base, n, size)
  {
    forall k: nat | k < n ensures LaneMapped(memory.Flat(), base, size, k) {
      assert LaneAccessible(memory.regions, base, size, k);
      memory.SegmentContents(base + Scaled(k, size), EBytes(size));
    }
  }

  /** The address of the `k`-th lane, as the scratch register holds it. */
  function AddressOf(base: u64, size: nat, k: nat): u64 {
    Wrap64(base as int + Scaled(k, size))
  }

  lemma NextAddress(base: u64, size: nat, k: nat)
    requires base + Scaled(k, size) < 0x1_0000_0000_0000_0000
    ensures AddressOf(base, size, k) == base + Scaled(k, size)
    ensures Wrap64(AddressOf(base, size, k) as int + EBytes(size)) == AddressOf(base, size, k + 1)
  {
  }

  /** The machine after the first `k` lanes were stored. */
  ghost function AfterStores(m: Machine, base: u64, places: seq<Place>, size: nat, rt: nat, k: nat): (after: Machine)
    requires Registered(m) && Transfer(places, size) && rt < 32 && k <= |places|
    ensures Registered(after)
  {
    m.(gpr := m.gpr[GPR_DUMMY := AddressOf(base, size, k)],
       flat := Store(m.flat, base, Flatten(Image(m.vreg, places, size, rt, k))))
  }

  /** The machine after the first `k` lanes were loaded. */
  ghost function AfterLoads(m: Machine, base: u64, places: seq<Place>, size: nat, rt: nat, k: nat): (after: Machine)
    requires Registered(m) && Transfer(places, size) && rt < 32 && k <= |places| && LanesMapped(m.flat, base, |places|, size)
    ensures Registered(after)
  {
    m.(gpr := m.gpr[GPR_DUMMY := AddressOf(base, size, k)],
       vreg := Filled(m.vreg, places, size, rt, MemoryLanes(m.flat, base, |places|, size), k))
  }

  ghost function AfterLanes(store: bool, m: Machine, base: u64, places: seq<Place>, size: nat, rt: nat, k: nat): (after: Machine)
    requires Registered(m) && Transfer(places, size) && rt < 32 && k <= |places| && LanesMapped(m.flat, base, |places|, size)
    ensures Registered(after)
  {
    if store then AfterStores(m, base, places, size, rt, k) else AfterLoads(m, base, places, size, rt, k)
  }

  lemma NoLanes(store: bool, m: Machine, base: u64, places: seq<Place>, size: nat, rt: nat)
    requires Registered(m) && Transfer(places, size) && rt < 32 && LanesMapped(m.flat, base, |places|, size)
    ensures AfterLanes(store, m, base, places, size, rt, 0) == m.(gpr := m.gpr[GPR_DUMMY := base])
  {
    StoreNothing(m.flat, base);
  }

  lemma NextStored(m: FlatMap, base: int, vectors: seq<Vector>, places: seq<Place>, size: nat, rt: nat, k: nat)
    requires Transfer(places, size) && |vectors| == VREG_COUNT && rt < 32 && k < |places|
    ensures Store(Store(m, base, Flatten(Image(vectors, places, size, rt, k))), base + Scaled(k, size),
                  LaneAt(vectors, places[k], size, rt))
         == Store(m, base, Flatten(Image(vectors, places, size, rt, k + 1)))
  {
    StorePart(m, base, Image(vectors, places, size, rt, k), k, size, LaneAt(vectors, places[k], size, rt));
  }

  lemma StorePart(m: FlatMap, base: int, parts: seq<seq<u8>>, n: nat, size: nat, lane: seq<u8>)
    requires Parts(parts, n, size)
    ensures Store(Store(m, base, Flatten(parts)), base + Scaled(n, size), lane) == Store(m, base, Flatten(parts + [lane]))
  {
    FlattenLength(parts, n, size);
    FlattenNext(parts, lane);
    StoreAppend(m, base, Flatten(parts), lane);
  }

  lemma FlattenNext(parts: seq<seq<u8>>, part: seq<u8>)
    ensures Flatten(parts + [part]) == Flatten(parts) + part
  {
    assert (parts + [part])[..|parts|] == parts;
  }

  /** One round of the lane loops: the lane at place `p` is exchanged with address `a`. */
  ghost function AfterLane(store: bool, m: Machine, a: u64, p: Place, size: nat, rt: nat): (after: Machine)
    requires Registered(m) && ValidPlace(p, size) && rt < 32 && MappedFrom(m.flat, a, EBytes(size))
    ensures Registered(after)
  {
    if store then AdvancedBy(m, a, EBytes(size)).(flat := Store(m.flat, a, LaneAt(m.vreg, p, size, rt)))
    else AdvancedBy(m, a, EBytes(size)).(vreg := SetLaneAt(m.vreg, p, size, rt, Load(m.flat, a, EBytes(size))))
  }

  ghost function AdvancedBy(m: Machine, a: u64, n: nat): (after: Machine)
    requires Registered(m)
    ensures Registered(after)
  {
    m.(gpr := m.gpr[GPR_DUMMY := Wrap64(a as int + n)])
  }

  ghost predicate MappedFrom(m: FlatMap, a: int, n: nat) {
    forall k :: a <= k < a + n ==> k in m
  }

  lemma NextMachine(store: bool, m: Machine, base: u64, places: seq<Place>, size: nat, rt: nat, k: nat)
    requires Registered(m) && Transfer(places, size) && rt < 32 && k < |places| && LanesMapped(m.flat, base, |places|, size)
    requires base + Scaled(k, size) < 0x1_0000_0000_0000_0000
    ensures var now := AfterLanes(store, m, base, places, size, rt, k);
            && MappedFrom(now.flat, AddressOf(base, size, k), EBytes(size))
            && AfterLanes(store, m, base, places, size, rt, k + 1)
               == AfterLane(store, now, AddressOf(base, size, k), places[k], size, rt)
  {
    if store {
      NextAfterStores(m, base, places, size, rt, k);
    } else {
      NextAfterLoads(m, base, places, size, rt, k);
    }
  }

  lemma NextAfterStores(m: Machine, base: u64, places: seq<Place>, size: nat, rt: nat, k: nat)
    requires Registered(m) && Transfer(places, size) && rt < 32 && k < |places| && LanesMapped(m.flat, base, |places|, size)
    requires base + Scaled(k, size) < 0x1_0000_0000_0000_0000
    ensures var now, a := AfterStores(m, base, places, size, rt, k), AddressOf(base, size, k);
            && MappedFrom(now.flat, a, EBytes(size))
            && AfterStores(m, base, places, size, rt, k + 1) == AfterLane(true, now, a, places[k], size, rt)
  {
    NextAddress(base, size, k);
    MappedAt(m.flat, base, |places|, size, k, AddressOf(base, size, k));
    var bytes, all := Flatten(Image(m.vreg, places, size, rt, k)), Flatten(Image(m.vreg, places, size, rt, k + 1));
    assert Store(Store(m.flat, base, bytes), AddressOf(base, size, k), LaneAt(m.vreg, places[k], size, rt))
        == Store(m.flat, base, all) by { NextStored(m.flat, base, m.vreg, places, size, rt, k); }
    NextStore(m, base, AddressOf(base, size, k), bytes, all, places[k], size, rt, AddressOf(base, size, k + 1));
  }

  lemma MappedAt(m: FlatMap, base: int, n: nat, size: nat, k: nat, a: int)
    requires LanesMapped(m, base, n, size) && k < n && a == base + Scaled(k, size)
    ensures MappedFrom(m, a, EBytes(size))
  {
    assert LaneMapped(m, base, size, k);
  }

  lemma NextStore(m: Machine, base: u64, a: u64, bytes: seq<u8>, all: seq<u8>, p: Place, size: nat, rt: nat, next: u64)
    requires Registered(m) && ValidPlace(p, size) && rt < 32 && MappedFrom(m.flat, a, EBytes(size))
    requires Store(Store(m.flat, base, bytes), a, LaneAt(m.vreg, p, size, rt)) == Store(m.flat, base, all)
    requires next == Wrap64(a as int + EBytes(size))
    ensures var now := m.(gpr := m.gpr[GPR_DUMMY := a], flat := Store(m.flat, base, bytes));
            && MappedFrom(now.flat, a, EBytes(size))
            && AfterLane(true, now, a, p, size, rt) == m.(gpr := m.gpr[GPR_DUMMY := next], flat := Store(m.flat, base, all))
  {
    SameMapped(m.flat, base, bytes, a, EBytes(size));
    LaterStore(m, base, a, bytes, LaneAt(m.vreg, p, size, rt), all, next);
  }

  lemma NextAfterLoads(m: Machine, base: u64, places: seq<Place>, size: nat, rt: nat, k: nat)
    requires Registered(m) && Transfer(places, size) && rt < 32 && k < |places| && LanesMapped(m.flat, base, |places|, size)
    requires base + Scaled(k, size) < 0x1_0000_0000_0000_0000
    ensures var now, a := AfterLoads(m, base, places, size, rt, k), AddressOf(base, size, k);
            && MappedFrom(now.flat, a, EBytes(size))
            && AfterLoads(m, base, places, size, rt, k + 1) == AfterLane(false, now, a, places[k], size, rt)
  {
    NextAddress(base, size, k);
    assert LaneMapped(m.flat, base, size, k);
    NextFilled(m.flat, base, m.vreg, places, size, rt, k);
  }

  lemma LaterStore(m: Machine, base: u64, a: u64, bytes: seq<u8>, lane: seq<u8>, all: seq<u8>, next: u64)
    requires Registered(m) && Store(Store(m.flat, base, bytes), a, lane) == Store(m.flat, base, all)
    ensures var now := m.(gpr := m.gpr[GPR_DUMMY := a], flat := Store(m.flat, base, bytes));
            now.(gpr := now.gpr[GPR_DUMMY := next], flat := Store(now.flat, a, lane))
            == m.(gpr := m.gpr[GPR_DUMMY := next], flat := Store(m.flat, base, all))
  {
  }

  lemma SameMapped(m: FlatMap, a: int, bytes: seq<u8>, b: int, n: nat)
    requires MappedFrom(m, b, n)
    ensures MappedFrom(Store(m, a, bytes), b, n)
  {
  }

  lemma NextFilled(m: FlatMap, base: int, vectors: seq<Vector>, places: seq<Place>, size: nat, rt: nat, k: nat)
    requires Transfer(places, size) && |vectors| == VREG_COUNT && rt < 32 && k < |places| && LanesMapped(m, base, |places|, size)
    requires MappedFrom(m, base + Scaled(k, size), EBytes(size))
    ensures Filled(vectors, places, size, rt, MemoryLanes(m, base, |places|, size), k + 1)
         == SetLaneAt(Filled(vectors, places, size, rt, MemoryLanes(m, base, |places|, size), k), places[k], size, rt,
                      Load(m, base + Scaled(k, size), EBytes(size)))
  {
  }

  /** One lane to memory. */
  method StoreLane(v: nat, e: nat, cb: Cpu, size: nat)
    requires cb.Ready() && size < 4 && v < VREG_COUNT && HasLane(e, size)
    requires InSegment(cb.memory.regions, cb.gpr[GPR_DUMMY], EBytes(size))
    modifies cb.memory.Buffers()
    ensures cb.Ready() && cb.memory.regions == old(cb.memory.regions)
    ensures var was := old(State(cb));
            State(cb) == was.(flat := Store(was.flat, was.gpr[GPR_DUMMY], Lane(was.vreg[v], e, size)))
  {
    cb.StoreVecReg(GPR_DUMMY, e, v, size);
  }

  /** One lane from memory. */
  method LoadLane(v: nat, e: nat, cb: Cpu, size: nat)
    requires cb.Ready() && size < 4 && v < VREG_COUNT && HasLane(e, size)
    requires InSegment(cb.memory.regions, cb.gpr[GPR_DUMMY], EBytes(size))
    modifies cb.vreg
    ensures cb.Ready()
    ensures var was := old(State(cb));
            && MappedFrom(was.flat, was.gpr[GPR_DUMMY], EBytes(size))
            && State(cb) == was.(vreg := was.vreg[v := SetLane(was.vreg[v], e, size, Load(was.flat, was.gpr[GPR_DUMMY], EBytes(size)))])
  {
    cb.LoadVecReg(v, e, GPR_DUMMY, size);
  }

  /** The scratch register moves on by one lane. */
  method NextLane(cb: Cpu, ebytes: nat)
    requires cb.Ready() && ebytes <= 8
    modifies cb.gpr, cb`nzcv
    ensures cb.Ready() && cb.memory.regions == old(cb.memory.regions)
    ensures State(cb) == AdvancedBy(old(State(cb)), old(cb.gpr[GPR_DUMMY]), ebytes)
  {
    cb.AddI64(GPR_DUMMY, GPR_DUMMY, ebytes, false, true);
  }

  /** The body of the lane loops: one transfer, and the scratch register moves on. */
  method TransferLane(store: bool, v: nat, e: nat, cb: Cpu, size: nat, ghost rt: nat, ghost p: Place)
    requires cb.Ready() && size < 4 && rt < 32 && ValidPlace(p, size) && v == RegIndex(rt, p.reg) && e == p.elem
    requires InSegment(cb.memory.regions, cb.gpr[GPR_DUMMY], EBytes(size))
    requires MappedFrom(State(cb).flat, cb.gpr[GPR_DUMMY], EBytes(size))
    modifies cb.gpr, cb.vreg, cb`nzcv, cb.memory.Buffers()
    ensures cb.Ready() && cb.memory.regions == old(cb.memory.regions)
    ensures State(cb) == AfterLane(store, old(State(cb)), old(cb.gpr[GPR_DUMMY]), p, size, rt)
  {
    ghost var was, a := State(cb), cb.gpr[GPR_DUMMY];
    if store {
      StoreLane(v, e, cb, size);
      assert State(cb) == was.(flat := Store(was.flat, a, LaneAt(was.vreg, p, size, rt)));
    } else {
      LoadLane(v, e, cb, size);
      assert State(cb) == was.(vreg := SetLaneAt(was.vreg, p, size, rt, Load(was.flat, a, EBytes(size))));
    }
    assert cb.gpr[GPR_DUMMY] == a;
    NextLane(cb, EBytes(size));
  }

  // ---------------------------------------------------------------- the loops

  /** Where the loops of row `r` start in memory order. */
  function RowStart(s: Shape, r: nat): nat {
    if s.selem == 1 then By(s.elements, r) else if r == 0 then 0 else By(s.elements, s.selem)
  }

  lemma RowEnds(s: Shape, r: nat)
    requires WellShaped(s) && r < s.rpt
    ensures RowStart(s, r + 1) == RowStart(s, r) + By(s.elements, s.selem) <= Total(s)
    ensures RowStart(s, 0) == 0 && RowStart(s, s.rpt) == Total(s)
  {
  }

  /** The place `col` steps after `start` is lane `e` of the register `col` after the `r`-th. */
  ghost predicate Names(places: seq<Place>, start: nat, r: nat, e: nat, col: nat) {
    start + col < |places| && places[start + col] == Place(r + col, e)
  }

  ghost predicate Column(places: seq<Place>, start: nat, r: nat, e: nat, selem: nat) {
    start + selem <= |places| && forall col: nat :: col < selem ==> Names(places, start, r, e, col)
  }

  ghost predicate Row(places: seq<Place>, start: nat, r: nat, elements: nat, selem: nat) {
    start + By(elements, selem) <= |places|
    && forall e: nat :: e < elements ==> Column(places, start + By(e, selem), r, e, selem)
  }

  /** The loops visit the places in memory order. */
  lemma RowOfPlaces(s: Shape, r: nat)
    requires WellShaped(s) && r < s.rpt
    ensures Row(Places(s), RowStart(s, r), r, s.elements, s.selem)
  {
    RowEnds(s, r);
    forall e: nat | e < s.elements ensures Column(Places(s), RowStart(s, r) + By(e, s.selem), r, e, s.selem) {
      ColumnOfPlaces(s, r, e, RowStart(s, r) + By(e, s.selem));
    }
  }

  lemma ColumnOfPlaces(s: Shape, r: nat, e: nat, start: nat)
    requires WellShaped(s) && r < s.rpt && e < s.elements && start == RowStart(s, r) + By(e, s.selem)
    ensures Column(Places(s), start, r, e, s.selem)
  {
    var places := Places(s);
    forall col: nat | col < s.selem ensures Names(places, start, r, e, col) {
      LoopPosition(s, r, e, col);
    }
    AllNamed(places, start, r, e, s.selem);
  }

  lemma AllNamed(places: seq<Place>, start: nat, r: nat, e: nat, selem: nat)
    requires selem > 0 && forall col: nat :: col < selem ==> Names(places, start, r, e, col)
    ensures Column(places, start, r, e, selem)
  {
    assert Names(places, start, r, e, selem - 1);
  }

  lemma LoopPosition(s: Shape, r: nat, e: nat, col: nat)
    requires WellShaped(s) && r < s.rpt && e < s.elements && col < s.selem
    ensures Names(Places(s), RowStart(s, r) + By(e, s.selem), r, e, col)
  {
    RegisterOf(s, r, col);
    PositionOfLane(s, r + col, e);
    PositionInRow(s, r, e, col);
  }

  lemma PositionInRow(s: Shape, r: nat, e: nat, col: nat)
    requires WellShaped(s) && r < s.rpt && col < s.selem
    ensures Position(s, r + col, e) == RowStart(s, r) + By(e, s.selem) + col
  {
  }

  /** A run of the lane loops: the machine before each lane and at the end. */
  datatype Run = Run(store: bool, base: u64, places: seq<Place>, size: nat, rt: nat, trace: seq<Machine>)

  ghost predicate Step(t: Run, k: nat) {
    && k < |t.places| && k + 1 < |t.trace| && Registered(t.trace[k]) && ValidPlace(t.places[k], t.size) && t.rt < 32
    && t.trace[k].gpr[GPR_DUMMY] == AddressOf(t.base, t.size, k)
    && MappedFrom(t.trace[k].flat, AddressOf(t.base, t.size, k), EBytes(t.size))
    && t.trace[k + 1] == AfterLane(t.store, t.trace[k], AddressOf(t.base, t.size, k), t.places[k], t.size, t.rt)
  }

  ghost predicate Steps(t: Run) {
    |t.trace| == |t.places| + 1 && forall k: nat :: k < |t.places| ==> Step(t, k)
  }

  ghost function RunOf(store: bool, m: Machine, base: u64, places: seq<Place>, size: nat, rt: nat): (t: Run)
    requires Registered(m) && Transfer(places, size) && rt < 32 && LanesMapped(m.flat, base, |places|, size)
    ensures t.store == store && t.base == base && t.places == places && t.size == size && t.rt == rt
    ensures |t.trace| == |places| + 1
    ensures forall k: nat :: k <= |places| ==> t.trace[k] == AfterLanes(store, m, base, places, size, rt, k)
  {
    Run(store, base, places, size, rt,
        seq(|places| + 1, k requires 0 <= k <= |places| => AfterLanes(store, m, base, places, size, rt, k)))
  }

  lemma RunSteps(store: bool, m: Machine, base: u64, places: seq<Place>, size: nat, rt: nat)
    requires Registered(m) && Transfer(places, size) && rt < 32 && LanesMapped(m.flat, base, |places|, size)
    requires forall k: nat :: k < |places| ==> FitsBelow(base, size, k)
    ensures Steps(RunOf(store, m, base, places, size, rt))
  {
    var t := RunOf(store, m, base, places, size, rt);
    forall k: nat | k < |places| ensures Step(t, k) {
      assert FitsBelow(base, size, k);
      NextMachine(store, m, base, places, size, rt, k);
      assert t.trace[k] == AfterLanes(store, m, base, places, size, rt, k);
      assert t.trace[k + 1] == AfterLanes(store, m, base, places, size, rt, k + 1);
    }
  }

  ghost predicate FitsBelow(base: u64, size: nat, k: nat) {
    base + Scaled(k, size) < 0x1_0000_0000_0000_0000
  }

  /** The lane loops of `DisasLdStMulti`. */
  method EmitLanes(s: Shape, cb: Cpu, store: bool, rt: nat, ghost t: Run)
    requires cb.Ready() && WellShaped(s) && Steps(t) && t.places == Places(s)
    requires t.store == store && t.size == s.size && t.rt == rt < 32
    requires LanesAccessible(cb.memory.regions, t.base, |t.places|, s.size)
    requires State(cb) == t.trace[0]
    modifies cb.gpr, cb.vreg, cb`nzcv, cb.memory.Buffers()
    ensures cb.Ready() && cb.memory.regions == old(cb.memory.regions)
    ensures State(cb) == t.trace[|t.places|]
  {
    var r := 0;
    RowEnds(s, 0);
    while r < s.rpt
      invariant 0 <= r <= s.rpt && RowStart(s, r) <= |t.places|
      invariant cb.Ready() && cb.memory.regions == old(cb.memory.regions)
      invariant State(cb) == t.trace[RowStart(s, r)]
    {
      RowEnds(s, r);
      RowOfPlaces(s, r);
      EmitRow(store, s.size, s.elements, s.selem, rt, r, cb, t, RowStart(s, r));
      r := r + 1;
    }
  }

  /** One round of the outer loop: all lanes of the registers from `rt + r` up. */
  method EmitRow(store: bool, size: nat, elements: nat, selem: nat, rt: nat, r: nat, cb: Cpu, ghost t: Run, ghost start: nat)
    requires cb.Ready() && size < 4 && r + selem < 32 && Steps(t) && selem <= 4
    requires t.store == store && t.size == size && t.rt == rt < 32
    requires LanesAccessible(cb.memory.regions, t.base, |t.places|, size)
    requires Row(t.places, start, r, elements, selem) && State(cb) == t.trace[start]
    modifies cb.gpr, cb.vreg, cb`nzcv, cb.memory.Buffers()
    ensures cb.Ready() && cb.memory.regions == old(cb.memory.regions)
    ensures State(cb) == t.trace[start + By(elements, selem)]
  {
    ghost var at := start;
    var e := 0;
    while e < elements
      invariant 0 <= e <= elements && at == start + By(e, selem) <= |t.places|
      invariant cb.Ready() && cb.memory.regions == old(cb.memory.regions)
      invariant State(cb) == t.trace[at]
    {
      assert Column(t.places, at, r, e, selem);
      EmitColumn(store, size, e, selem, rt, r, cb, t, at);
      at := at + selem;
      e := e + 1;
    }
  }

  lemma FirstVreg(rt: nat, j: nat)
    requires rt < 32 && j < 32
    ensures (rt + j) % 32 == RegIndex(rt, j)
  {
  }

  lemma NextVreg(rt: nat, j: nat)
    requires rt < 32 && j < 31
    ensures (RegIndex(rt, j) + 1) % 32 == RegIndex(rt, j + 1)
  {
  }

  /** The innermost loop: lane `e` of `selem` consecutive registers. */
  method EmitColumn(store: bool, size: nat, e: nat, selem: nat, rt: nat, r: nat, cb: Cpu, ghost t: Run, ghost start: nat)
    requires cb.Ready() && size < 4 && r + selem < 32 && Steps(t)
    requires t.store == store && t.size == size && t.rt == rt < 32
    requires LanesAccessible(cb.memory.regions, t.base, |t.places|, size)
    requires Column(t.places, start, r, e, selem) && State(cb) == t.trace[start]
    modifies cb.gpr, cb.vreg, cb`nzcv, cb.memory.Buffers()
    ensures cb.Ready() && cb.memory.regions == old(cb.memory.regions)
    ensures State(cb) == t.trace[start + selem]
  {
    var vreg := (rt + r) % 32;
    FirstVreg(rt, r);
    var col := 0;
    while col < selem
      invariant 0 <= col <= selem
      invariant vreg == RegIndex(rt, r + col)
      invariant cb.Ready() && cb.memory.regions == old(cb.memory.regions)
      invariant State(cb) == t.trace[start + col]
    {
      assert Names(t.places, start, r, e, col);
      EmitLane(store, vreg, e, cb, size, t, start + col);
      NextVreg(rt, r + col);
      vreg := (vreg + 1) % 32;
      col := col + 1;
    }
  }

  method EmitLane(store: bool, v: nat, e: nat, cb: Cpu, size: nat, ghost t: Run, ghost k: nat)
    requires cb.Ready() && size < 4 && k < |t.places| && Steps(t)
    requires t.store == store && t.size == size && t.rt < 32 && t.places[k].reg < 32
    requires v == RegIndex(t.rt, t.places[k].reg) && e == t.places[k].elem
    requires LanesAccessible(cb.memory.regions, t.base, |t.places|, size)
    requires State(cb) == t.trace[k]
    modifies cb.gpr, cb.vreg, cb`nzcv, cb.memory.Buffers()
    ensures cb.Ready() && cb.memory.regions == old(cb.memory.regions)
    ensures State(cb) == t.trace[k + 1]
  {
    assert Step(t, k);
    assert LaneAccessible(cb.memory.regions, t.base, size, k);
    NextAddress(t.base, size, k);
    TransferLane(store, v, e, cb, size, t.rt, t.places[k]);
  }

  // ---------------------------------------------------------------- the instructions

  /** Lanes of a register of eight or sixteen bytes. */
  function Elements(q: bool, size: nat): nat {
    var bits := if q then 128 else 64;
    if size == 0 then bits / 8 else if size == 1 then bits / 16 else if size == 2 then bits / 32 else bits / 64
  }

  predicate KnownMulti(opcode: nat) {
    opcode == 0 || opcode == 2 || opcode == 4 || opcode == 6 || opcode == 7 || opcode == 8 || opcode == 10
  }

  /** LD4/ST4, LD3/ST3 and LD2/ST2 interleave; the others are LD1/ST1 of one to four registers. */
  function MultiShape(opcode: nat, q: bool, size: nat): Shape {
    var elements := Elements(q, size);
    if opcode == 0 then Shape(1, 4, elements, size)
    else if opcode == 2 then Shape(4, 1, elements, size)
    else if opcode == 4 then Shape(1, 3, elements, size)
    else if opcode == 6 then Shape(3, 1, elements, size)
    else if opcode == 7 then Shape(1, 1, elements, size)
    else if opcode == 8 then Shape(1, 2, elements, size)
    else Shape(2, 1, elements, size)
  }

  function SizeField(insn: u32): (size: nat)
    ensures size < 4
  {
    Pow2Constants();
    Extract32(insn, 10, 2)
  }

  function ShapeOf(insn: u32): (s: Shape)
    ensures WellShaped(s)
  {
    MultiShape(Four(insn, 12), Flag(insn, 30), SizeField(insn))
  }

  predicate LdStMultiAllocated(insn: u32) {
    && !Flag(insn, 31) && !Flag(insn, 21) && KnownMulti(Four(insn, 12))
    && !(SizeField(insn) == 3 && !Flag(insn, 30) && ShapeOf(insn).selem != 1)
  }

  /** Post-indexing: the base register moves past the lanes, or by a register. */
  ghost function Indexed(insn: u32, m: Machine): (after: Machine)
    requires Registered(m)
    ensures Registered(after)
  {
    var rn, rm := Reg(insn, 5), Reg(insn, 16);
    if !Flag(insn, 23) then m
    else m.(gpr := m.gpr[rn := if rm == 31 then m.gpr[GPR_DUMMY] else Wrap64(m.gpr[rn] as int + m.gpr[rm])])
  }

  ghost predicate MultiAccessible(insn: u32, cb: Cpu)
    requires cb.Ready()
    reads cb, cb.gpr, cb.memory
  {
    LanesAccessible(cb.memory.regions, cb.gpr[Reg(insn, 5)], Total(ShapeOf(insn)), ShapeOf(insn).size)
  }

  ghost predicate CanTransfer(m: Machine, base: u64, s: Shape)
    requires WellShaped(s)
  {
    Registered(m) && Transfer(Places(s), s.size) && LanesMapped(m.flat, base, Total(s), s.size)
  }

  method DisasLdStMulti(insn: u32, cb: Cpu) returns (ok: bool)
    requires cb.Ready()
    requires LdStMultiAllocated(insn) ==> MultiAccessible(insn, cb)
    modifies cb.gpr, cb.vreg, cb`nzcv, cb.memory.Buffers()
    ensures ok == LdStMultiAllocated(insn)
    ensures cb.Ready() && cb.memory.regions == old(cb.memory.regions)
    ensures !ok ==> State(cb) == old(State(cb))
    ensures ok ==>
              var was, s := old(State(cb)), ShapeOf(insn);
              var base := was.gpr[Reg(insn, 5)];
              && CanTransfer(was, base, s)
              && State(cb) == Indexed(insn, AfterLanes(!Flag(insn, 22), was, base, Places(s), s.size, Reg(insn, 0), Total(s)))
  {
    var s := ShapeOf(insn);
    ok := !(Flag(insn, 31) || Flag(insn, 21)) && KnownMulti(Four(insn, 12));
    if ok && s.size == 3 && !Flag(insn, 30) && s.selem != 1 {
      ok := false;
    }
    if ok {
      EmitMulti(!Flag(insn, 22), s, Reg(insn, 0), Reg(insn, 5), cb);
      EmitIndex(insn, cb);
    }
  }

  /** The run that the loops will follow, once the scratch register holds the base. */
  lemma StartRun(store: bool, s: Shape, rt: nat, cb: Cpu, base: u64) returns (t: Run)
    requires cb.Ready() && WellShaped(s) && rt < 32
    requires LanesAccessible(cb.memory.regions, base, Total(s), s.size)
    ensures CanTransfer(State(cb), base, s)
    ensures t.store == store && t.base == base && t.places == Places(s) && t.size == s.size && t.rt == rt && Steps(t)
    ensures t.trace[0] == State(cb).(gpr := State(cb).gpr[GPR_DUMMY := base])
    ensures t.trace[|t.places|] == AfterLanes(store, State(cb), base, Places(s), s.size, rt, Total(s))
  {
    PlacesTransfer(s);
    AccessibleIsMapped(cb.memory, base, Total(s), s.size);
    forall k: nat | k < Total(s) ensures FitsBelow(base, s.size, k) {
      assert LaneAccessible(cb.memory.regions, base, s.size, k);
    }
    RunSteps(store, State(cb), base, Places(s), s.size, rt);
    NoLanes(store, State(cb), base, Places(s), s.size, rt);
    t := RunOf(store, State(cb), base, Places(s), s.size, rt);
  }

  /** The scratch register takes the base address. */
  method CopyBase(rn: nat, cb: Cpu)
    requires cb.Ready() && rn < 32
    modifies cb.gpr
    ensures cb.Ready() && cb.memory.regions == old(cb.memory.regions)
    ensures var was := old(State(cb));
            State(cb) == was.(gpr := was.gpr[GPR_DUMMY := was.gpr[rn]])
  {
    cb.MovReg(GPR_DUMMY, rn, true);
  }

  method EmitMulti(store: bool, s: Shape, rt: nat, rn: nat, cb: Cpu)
    requires cb.Ready() && WellShaped(s) && rt < 32 && rn < 32
    requires LanesAccessible(cb.memory.regions, cb.gpr[rn], Total(s), s.size)
    modifies cb.gpr, cb.vreg, cb`nzcv, cb.memory.Buffers()
    ensures cb.Ready() && cb.memory.regions == old(cb.memory.regions)
    ensures var was := old(State(cb));
            && CanTransfer(was, was.gpr[rn], s)
            && State(cb) == AfterLanes(store, was, was.gpr[rn], Places(s), s.size, rt, Total(s))
  {
    ghost var t := StartRun(store, s, rt, cb, cb.gpr[rn]);
    CopyBase(rn, cb);
    EmitLanes(s, cb, store, rt, t);
  }

  method MoveBase(rn: nat, rm: nat, cb: Cpu)
    requires cb.Ready() && rn < 32 && rm < 32
    modifies cb.gpr, cb`nzcv
    ensures cb.Ready() && cb.memory.regions == old(cb.memory.regions)
    ensures var was := old(State(cb));
            State(cb) == was.(gpr := was.gpr[rn := if rm == 31 then was.gpr[GPR_DUMMY] else Wrap64(was.gpr[rn] as int + was.gpr[rm])])
  {
    if rm == 31 {
      cb.MovReg(rn, GPR_DUMMY, true);
    } else {
      cb.AddReg(rn, rn, rm, false, true);
    }
  }

  /** Post-indexing, if the instruction asks for it. */
  method EmitIndex(insn: u32, cb: Cpu)
    requires cb.Ready()
    modifies cb.gpr, cb`nzcv
    ensures cb.Ready() && cb.memory.regions == old(cb.memory.regions)
    ensures State(cb) == Indexed(insn, old(State(cb)))
  {
    if Flag(insn, 23) {
      MoveBase(Reg(insn, 5), Reg(insn, 16), cb);
    }
  }

  // ---------------------------------------------------------------- what they mean

  /** Position of lane `e` of register `rt + r + col`, as the loops count it. */
  function LaneNumber(s: Shape, r: nat, e: nat, col: nat): nat {
    (r * s.elements + e) * s.selem + col
  }

  lemma LaneNumberIs(s: Shape, r: nat, e: nat, col: nat)
    requires WellShaped(s) && r < s.rpt && e < s.elements && col < s.selem
    ensures LaneNumber(s, r, e, col) < Total(s) && Places(s)[LaneNumber(s, r, e, col)] == Place(r + col, e)
    ensures HasLane(e, s.size)
  {
    PositionIs(s, r, e, col);
    RegisterOf(s, r, col);
    PlacedAt(s, r + col, e, LaneNumber(s, r, e, col));
    LaneInRegister(s, e);
  }

  lemma PlacedAt(s: Shape, j: nat, e: nat, k: nat)
    requires WellShaped(s) && j < Registers(s) && e < s.elements && k == Position(s, j, e)
    ensures k < Total(s) && Places(s)[k] == Place(j, e)
  {
    PositionOfLane(s, j, e);
  }

  lemma RegisterOf(s: Shape, r: nat, col: nat)
    requires WellShaped(s) && r < s.rpt && col < s.selem
    ensures r + col < Registers(s)
  {
  }

  lemma StoredImage(m: FlatMap, base: int, parts: seq<seq<u8>>, n: nat, size: nat, k: nat)
    requires Parts(parts, n, size) && k < n && LaneMapped(m, base, size, k)
    ensures LaneMapped(Store(m, base, Flatten(parts)), base, size, k)
    ensures MemoryLane(Store(m, base, Flatten(parts)), base, size, k) == parts[k]
  {
    FlattenPart(parts, n, size, k);
    var bytes, from, w := Flatten(parts), Scaled(k, size), EBytes(size);
    var lane := bytes[from..from + w];
    forall i | 0 <= i < w ensures MemoryLane(Store(m, base, bytes), base, size, k)[i] == lane[i] {
      StoredByte(m, base, bytes, from + i);
    }
  }

  lemma StoredLane(m: Machine, base: u64, places: seq<Place>, size: nat, rt: nat, k: nat)
    requires Registered(m) && Transfer(places, size) && rt < 32 && k < |places| && LanesMapped(m.flat, base, |places|, size)
    ensures var flat := AfterStores(m, base, places, size, rt, |places|).flat;
            LaneMapped(flat, base, size, k) && MemoryLane(flat, base, size, k) == LaneAt(m.vreg, places[k], size, rt)
  {
    assert LaneMapped(m.flat, base, size, k);
    StoredImage(m.flat, base, Image(m.vreg, places, size, rt, |places|), |places|, size, k);
  }

  /** Lane `e` of a vector is what memory holds at position `k`. */
  ghost predicate LaneInMemory(flat: FlatMap, base: u64, size: nat, k: nat, vector: Vector, e: nat) {
    LaneMapped(flat, base, size, k) && HasLane(e, size) && MemoryLane(flat, base, size, k) == Lane(vector, e, size)
  }

  /**
   A store puts lane `e` of register `rt + r + col` (modulo 32) at its address, and changes no
   byte outside the lanes' addresses.
   */
  lemma StoredLanes(m: Machine, base: u64, s: Shape, rt: nat, r: nat, e: nat, col: nat)
    requires WellShaped(s) && CanTransfer(m, base, s) && rt < 32
    requires r < s.rpt && e < s.elements && col < s.selem
    ensures LaneInMemory(AfterStores(m, base, Places(s), s.size, rt, Total(s)).flat, base, s.size, LaneNumber(s, r, e, col),
                         m.vreg[(rt + r + col) % 32], e)
  {
    LaneNumberIs(s, r, e, col);
    RegisterOf(s, r, col);
    FirstVreg(rt, r + col);
    StoredAt(m, base, s, rt, LaneNumber(s, r, e, col), Place(r + col, e), (rt + r + col) % 32);
  }

  lemma StoredAt(m: Machine, base: u64, s: Shape, rt: nat, k: nat, p: Place, v: nat)
    requires WellShaped(s) && CanTransfer(m, base, s) && rt < 32 && p.reg < 32 && v == RegIndex(rt, p.reg)
    requires k < Total(s) && Places(s)[k] == p && HasLane(p.elem, s.size)
    ensures LaneInMemory(AfterStores(m, base, Places(s), s.size, rt, Total(s)).flat, base, s.size, k, m.vreg[v], p.elem)
  {
    StoredLane(m, base, Places(s), s.size, rt, k);
  }

  lemma StoredElsewhere(m: Machine, base: u64, s: Shape, rt: nat, a: int)
    requires WellShaped(s) && CanTransfer(m, base, s) && rt < 32
    requires a in m.flat && !(base <= a < base + Scaled(Total(s), s.size))
    ensures var flat := AfterStores(m, base, Places(s), s.size, rt, Total(s)).flat;
            a in flat && flat[a] == m.flat[a]
  {
    FlattenLength(Image(m.vreg, Places(s), s.size, rt, Total(s)), Total(s), s.size);
  }

  /** A load puts the bytes at its address into lane `e` of register `rt + r + col` (modulo 32). */
  lemma LoadedLanes(m: Machine, base: u64, s: Shape, rt: nat, r: nat, e: nat, col: nat)
    requires WellShaped(s) && CanTransfer(m, base, s) && rt < 32
    requires r < s.rpt && e < s.elements && col < s.selem
    ensures var after, k := AfterLoads(m, base, Places(s), s.size, rt, Total(s)), LaneNumber(s, r, e, col);
            && k < Total(s) && HasLane(e, s.size)
            && Lane(after.vreg[(rt + r + col) % 32], e, s.size) == MemoryLane(m.flat, base, s.size, k)
  {
    LaneNumberIs(s, r, e, col);
    FirstVreg(rt, r + col);
    FilledHolds(m.vreg, Places(s), s.size, rt, MemoryLanes(m.flat, base, Total(s), s.size), Total(s), LaneNumber(s, r, e, col));
  }

  /** A load changes no byte of another register, and none above the lanes it fills. */
  lemma LoadedElsewhere(m: Machine, base: u64, s: Shape, rt: nat, v: nat, b: nat)
    requires WellShaped(s) && CanTransfer(m, base, s) && rt < 32 && v < VREG_COUNT && b < 16
    requires b >= Scaled(s.elements, s.size) || forall j: nat :: j < Registers(s) ==> RegIndex(rt, j) != v
    ensures AfterLoads(m, base, Places(s), s.size, rt, Total(s)).vreg[v][b] == m.vreg[v][b]
  {
    forall k: nat | k < Total(s) ensures !InLane(Places(s)[k], s.size, rt, v, b) {
      var p := PlaceAt(s, k);
      LaneInRegister(s, p.elem);
      assert p.reg < Registers(s) && p.elem < s.elements;
    }
    FilledElsewhere(m.vreg, Places(s), s.size, rt, MemoryLanes(m.flat, base, Total(s), s.size), Total(s), v, b);
  }

  /** Storing and then loading with the same shape and base gives every transferred lane back. */
  lemma StoreThenLoadLanes(m: Machine, other: Machine, base: u64, s: Shape, rt: nat, r: nat, e: nat, col: nat)
    requires WellShaped(s) && CanTransfer(m, base, s) && CanTransfer(other, base, s) && rt < 32
    requires other.flat == AfterStores(m, base, Places(s), s.size, rt, Total(s)).flat
    requires r < s.rpt && e < s.elements && col < s.selem
    ensures HasLane(e, s.size)
    ensures Lane(AfterLoads(other, base, Places(s), s.size, rt, Total(s)).vreg[(rt + r + col) % 32], e, s.size)
         == Lane(m.vreg[(rt + r + col) % 32], e, s.size)
  {
    StoredLanes(m, base, s, rt, r, e, col);
    LoadedLanes(other, base, s, rt, r, e, col);
  }

  /** Immediate post-indexing moves the base by exactly the bytes transferred: eight or sixteen for each register. */
  lemma PostIndexByTransfer(insn: u32, s: Shape, m: Machine, base: u64, store: bool, rt: nat)
    requires WellShaped(s) && CanTransfer(m, base, s) && rt < 32
    requires Flag(insn, 23) && Reg(insn, 16) == 31
    ensures Indexed(insn, AfterLanes(store, m, base, Places(s), s.size, rt, Total(s))).gpr[Reg(insn, 5)]
         == Wrap64(base as int + Registers(s) * Scaled(s.elements, s.size))
  {
    TransferredBytes(s);
    ScratchAfterLanes(store, m, base, Places(s), s.size, rt, Total(s));
    IndexedByScratch(insn, AfterLanes(store, m, base, Places(s), s.size, rt, Total(s)));
  }

  lemma ScratchAfterLanes(store: bool, m: Machine, base: u64, places: seq<Place>, size: nat, rt: nat, k: nat)
    requires Registered(m) && Transfer(places, size) && rt < 32 && k <= |places| && LanesMapped(m.flat, base, |places|, size)
    ensures AfterLanes(store, m, base, places, size, rt, k).gpr[GPR_DUMMY] == AddressOf(base, size, k)
  {
  }

  /**
   No general register but the scratch one changes, unless bit 23 asks for post-indexing, and then
   the base register does.
   */
  lemma OthersKept(insn: u32, s: Shape, m: Machine, base: u64, store: bool, rt: nat, r: nat)
    requires WellShaped(s) && CanTransfer(m, base, s) && rt < 32 && r < GPR_COUNT && r != GPR_DUMMY
    requires Bit(insn, 23) ==> r != Reg(insn, 5)
    ensures Indexed(insn, AfterLanes(store, m, base, Places(s), s.size, rt, Total(s))).gpr[r] == m.gpr[r]
  {
    FlagIsBit(insn, 23);
  }

  lemma IndexedByScratch(insn: u32, m: Machine)
    requires Registered(m) && Flag(insn, 23) && Reg(insn, 16) == 31
    ensures Indexed(insn, m).gpr[Reg(insn, 5)] == m.gpr[GPR_DUMMY]
  {
  }

  lemma TransferredBytes(s: Shape)
    requires WellShaped(s)
    ensures Scaled(Total(s), s.size) == Registers(s) * Scaled(s.elements, s.size)
  {
    assert Registers(s) == 1 || Registers(s) == 2 || Registers(s) == 3 || Registers(s) == 4;
  }

  // ---------------------------------------------------------------- where the manual differs

  /**
   The allocated encodings of section C4: without post-indexing the Rm field is zero, and an
   interleaving transfer has more than one lane in each register.
   */
  predicate ManualAllocated(insn: u32) {
    var opcode := Four(insn, 12);
    && !Flag(insn, 31) && !Flag(insn, 21) && (Flag(insn, 23) || Reg(insn, 16) == 0)
    && (opcode == 0 || opcode == 4 || opcode == 8 ==> SizeField(insn) != 3 || Flag(insn, 30))
    && (opcode == 0 || opcode == 2 || opcode == 4 || opcode == 6 || opcode == 7 || opcode == 8 || opcode == 10)
  }

  /** The decoder does not look at the Rm field: it accepts what the manual allocates, and the same with any Rm. */
  lemma AcceptsAsManual(insn: u32)
    ensures ManualAllocated(insn) <==> LdStMultiAllocated(insn) && (Flag(insn, 23) || Reg(insn, 16) == 0)
  {
  }

  /** One that is reserved and accepted: `0x0c017000`. */
  lemma ReservedButAccepted(insn: u32)
    requires insn == 0x0c01_7000
    ensures LdStMultiAllocated(insn) && !ManualAllocated(insn)
  {
    FlagsOfReserved(insn);
    FieldsOfReserved(insn);
    AcceptsAsManual(insn);
  }

  lemma FlagsOfReserved(insn: u32)
    requires insn == 0x0c01_7000
    ensures !Flag(insn, 31) && !Flag(insn, 23) && !Flag(insn, 21)
  {
    PlaceValues();
    FieldIs(insn, 31, 1);
    FieldIs(insn, 23, 1);
    FieldIs(insn, 21, 1);
  }

  lemma FieldsOfReserved(insn: u32)
    requires insn == 0x0c01_7000
    ensures Reg(insn, 16) == 1 && Four(insn, 12) == 7 && SizeField(insn) == 0
  {
    PlaceValues();
    FieldIs(insn, 16, 5);
    FieldIs(insn, 12, 4);
    FieldIs(insn, 10, 2);
  }

  lemma PlaceValues()
    ensures Pow2(1) == 2 && Pow2(2) == 4 && Pow2(4) == 0x10 && Pow2(5) == 0x20 && Pow2(10) == 0x400 && Pow2(12) == 0x1000
    ensures Pow2(16) == 0x1_0000 && Pow2(21) == 0x20_0000 && Pow2(23) == 0x80_0000 && Pow2(31) == 0x8000_0000
  {
    Pow2Eight(2);
    Pow2Eight(4);
    Pow2Eight(5);
    Pow2Eight(13);
    Pow2Eight(7);
    Pow2Eight(15);
    Pow2Constants();
  }

  /** The register with index `v` is one of those that the instruction names. */
  ghost predicate Transferred(s: Shape, rt: nat, v: nat)
    requires WellShaped(s) && rt < 32
  {
    exists j: nat :: j < Registers(s) && RegIndex(rt, j) == v
  }

  /** The loops' lane `(r, e, col)` holds what memory has at its address. */
  ghost predicate Holds(vregs: seq<Vector>, flat: FlatMap, base: u64, s: Shape, rt: nat, r: nat, e: nat, col: nat)
    requires |vregs| == VREG_COUNT
  {
    LaneInMemory(flat, base, s.size, LaneNumber(s, r, e, col), vregs[(rt + r + col) % 32], e)
  }

  /** The bytes of the transferred registers above their lanes are zero. */
  ghost predicate UpperClear(vregs: seq<Vector>, s: Shape, rt: nat)
    requires |vregs| == VREG_COUNT && WellShaped(s) && rt < 32
  {
    forall v: nat, b: nat :: v < 32 && Transferred(s, rt, v) && Scaled(s.elements, s.size) <= b < 16 ==> vregs[v][b] == 0
  }

  /** What section C7.2 says of a load: the lanes, zeros above them, and no other register. */
  ghost predicate ManualLoad(m: Machine, base: u64, s: Shape, rt: nat, vregs: seq<Vector>)
    requires Registered(m) && |vregs| == VREG_COUNT && WellShaped(s) && rt < 32
  {
    && (forall r: nat, e: nat, col: nat :: r < s.rpt && e < s.elements && col < s.selem ==>
          Holds(vregs, m.flat, base, s, rt, r, e, col))
    && UpperClear(vregs, s, rt)
    && (forall v: nat :: v < VREG_COUNT && !Transferred(s, rt, v) ==> vregs[v] == m.vreg[v])
  }

  /** A load has the manual's effect exactly when the bytes that it keeps above the lanes were zero. */
  lemma LoadsAsManual(m: Machine, base: u64, s: Shape, rt: nat)
    requires WellShaped(s) && CanTransfer(m, base, s) && rt < 32
    ensures ManualLoad(m, base, s, rt, AfterLoads(m, base, Places(s), s.size, rt, Total(s)).vreg) <==> UpperClear(m.vreg, s, rt)
  {
    var vregs := AfterLoads(m, base, Places(s), s.size, rt, Total(s)).vreg;
    forall r: nat, e: nat, col: nat | r < s.rpt && e < s.elements && col < s.selem
      ensures Holds(vregs, m.flat, base, s, rt, r, e, col)
    {
      LoadedLanes(m, base, s, rt, r, e, col);
      assert LaneMapped(m.flat, base, s.size, LaneNumber(s, r, e, col));
    }
    forall v: nat, b: nat | v < 32 && Scaled(s.elements, s.size) <= b < 16 ensures vregs[v][b] == m.vreg[v][b] {
      LoadedElsewhere(m, base, s, rt, v, b);
    }
    forall v: nat | v < VREG_COUNT && !Transferred(s, rt, v) ensures vregs[v] == m.vreg[v] {
      forall b: nat | b < 16 ensures vregs[v][b] == m.vreg[v][b] {
        LoadedElsewhere(m, base, s, rt, v, b);
      }
    }
  }

  lemma SameShift(a: u64, b: u64, n: nat)
    ensures Wrap64(a as int + n) == Wrap64(b as int + n) <==> a == b
  {
    var p, q := (a as int + n) / 0x1_0000_0000_0000_0000, (b as int + n) / 0x1_0000_0000_0000_0000;
    if Wrap64(a as int + n) == Wrap64(b as int + n) {
      assert a as int - b as int == 0x1_0000_0000_0000_0000 * (p - q);
    }
  }

  /**
   Base register 31 is the stack pointer in the manual and the zero register here: a lane is where
   the manual puts it exactly for another base register, or when the stack pointer is zero.
   */
  lemma BaseAsManual(insn: u32, m: Machine, size: nat, k: nat)
    requires Registered(m) && m.gpr[GPR_ZERO] == 0
    ensures AddressOf(m.gpr[Reg(insn, 5)], size, k) == AddressOf(m.gpr[HandleAsSP(Reg(insn, 5))], size, k)
            <==> Reg(insn, 5) != 31 || m.gpr[GPR_SP] == 0
  {
    SameShift(m.gpr[Reg(insn, 5)], m.gpr[HandleAsSP(Reg(insn, 5))], Scaled(k, size));
  }

  /** What post-indexing adds to the base register: the bytes transferred, or a register. */
  function PostOffset(insn: u32, m: Machine, s: Shape): nat
    requires Registered(m)
  {
    if Reg(insn, 16) == 31 then Registers(s) * Scaled(s.elements, s.size) else m.gpr[Reg(insn, 16)]
  }

  /**
   Post-indexing moves the manual's base register as it should exactly when that is not the stack
   pointer, or by a register that holds zero.
   */
  lemma PostIndexAsManual(insn: u32, s: Shape, m: Machine, store: bool, rt: nat)
    requires WellShaped(s) && Registered(m) && CanTransfer(m, m.gpr[Reg(insn, 5)], s) && rt < 32
    requires Flag(insn, 23)
    ensures var rn := HandleAsSP(Reg(insn, 5));
            Indexed(insn, AfterLanes(store, m, m.gpr[Reg(insn, 5)], Places(s), s.size, rt, Total(s))).gpr[rn]
            == Wrap64(m.gpr[rn] as int + PostOffset(insn, m, s))
            <==> Reg(insn, 5) != 31 || (Reg(insn, 16) != 31 && m.gpr[Reg(insn, 16)] == 0)
  {
    if Reg(insn, 5) == 31 {
      StackUntouched(insn, s, m, store, rt);
      StackMoves(insn, s, m);
    } else {
      BaseMoves(insn, s, m, store, rt);
    }
  }

  lemma BaseMoves(insn: u32, s: Shape, m: Machine, store: bool, rt: nat)
    requires WellShaped(s) && Registered(m) && CanTransfer(m, m.gpr[Reg(insn, 5)], s) && rt < 32
    requires Flag(insn, 23) && Reg(insn, 5) != 31
    ensures Indexed(insn, AfterLanes(store, m, m.gpr[Reg(insn, 5)], Places(s), s.size, rt, Total(s))).gpr[Reg(insn, 5)]
         == Wrap64(m.gpr[Reg(insn, 5)] as int + PostOffset(insn, m, s))
  {
    if Reg(insn, 16) == 31 {
      PostIndexByTransfer(insn, s, m, m.gpr[Reg(insn, 5)], store, rt);
    } else {
      IndexedByRegister(insn, AfterLanes(store, m, m.gpr[Reg(insn, 5)], Places(s), s.size, rt, Total(s)));
      OthersUntouched(store, m, m.gpr[Reg(insn, 5)], Places(s), s.size, rt, Total(s));
    }
  }

  lemma IndexedByRegister(insn: u32, m: Machine)
    requires Registered(m) && Flag(insn, 23) && Reg(insn, 16) != 31
    ensures Indexed(insn, m).gpr[Reg(insn, 5)] == Wrap64(m.gpr[Reg(insn, 5)] as int + m.gpr[Reg(insn, 16)])
  {
  }

  lemma OthersUntouched(store: bool, m: Machine, base: u64, places: seq<Place>, size: nat, rt: nat, k: nat)
    requires Registered(m) && Transfer(places, size) && rt < 32 && k <= |places| && LanesMapped(m.flat, base, |places|, size)
    ensures forall r: nat :: r < GPR_DUMMY ==> AfterLanes(store, m, base, places, size, rt, k).gpr[r] == m.gpr[r]
  {
  }

  /** The manual moves the stack pointer unless the offset is a register that holds zero. */
  lemma StackMoves(insn: u32, s: Shape, m: Machine)
    requires WellShaped(s) && Registered(m)
    ensures m.gpr[GPR_SP] == Wrap64(m.gpr[GPR_SP] as int + PostOffset(insn, m, s))
            <==> Reg(insn, 16) != 31 && m.gpr[Reg(insn, 16)] == 0
  {
    TransferSize(s);
    if PostOffset(insn, m, s) > 0 {
      SomeShift(m.gpr[GPR_SP], PostOffset(insn, m, s));
    }
  }

  lemma StackUntouched(insn: u32, s: Shape, m: Machine, store: bool, rt: nat)
    requires WellShaped(s) && Registered(m) && CanTransfer(m, m.gpr[Reg(insn, 5)], s) && rt < 32
    ensures Indexed(insn, AfterLanes(store, m, m.gpr[Reg(insn, 5)], Places(s), s.size, rt, Total(s))).gpr[GPR_SP] == m.gpr[GPR_SP]
  {
  }

  lemma TransferSize(s: Shape)
    requires WellShaped(s)
    ensures 8 <= Registers(s) * Scaled(s.elements, s.size) <= 64
  {
    assert Registers(s) == 1 || Registers(s) == 2 || Registers(s) == 3 || Registers(s) == 4;
  }

  lemma SomeShift(a: u64, n: nat)
    requires 0 < n < 0x1_0000_0000_0000_0000
    ensures Wrap64(a as int + n) != a
  {
  }
}
