/**
 Software breakpoints of the GDB remote stub: an insert saves an instruction and patches a BRK
 over it, a remove puts it back.
 */
module Breakpoints {
  import opened Bits
  import opened GuestMemory

  const BRK_0X0_INST: u32 := 0xd420_0000

  const GDB_BREAKPOINT_SW: int := 0
  const GDB_BREAKPOINT_HW: int := 1
  const GDB_WATCHPOINT_WRITE: int := 2
  const GDB_WATCHPOINT_READ: int := 3
  const GDB_WATCHPOINT_ACCESS: int := 4

  datatype Breakpoint = Breakpoint(addr: u64, len: u32, kind: int, oldop: u32)

  datatype Watchpoint = Watchpoint(addr: u64, len: u32, kind: int)

  /** Breakpoints are equal when these three are; the saved instruction does not count. */
  predicate Matches(bp: Breakpoint, addr: u64, len: u32, kind: int) {
    bp.addr == addr && bp.len == len && bp.kind == kind
  }

  /** Index of the first matching breakpoint, or the number of breakpoints. */
  function Find(bps: seq<Breakpoint>, addr: u64, len: u32, kind: int): (i: nat)
    ensures i <= |bps| && (i < |bps| ==> bps[i].addr == addr && bps[i].len == len && bps[i].kind == kind)
    ensures forall j: nat :: j < i ==> !(bps[j].addr == addr && bps[j].len == len && bps[j].kind == kind)
  {
    if bps == [] || Matches(bps[0], addr, len, kind) then 0 else 1 + Find(bps[1..], addr, len, kind)
  }

  /** The same for watchpoints. */
  function FindWatch(wps: seq<Watchpoint>, addr: u64, len: u32, kind: int): (i: nat)
    ensures i <= |wps| && (i < |wps| ==> wps[i] == Watchpoint(addr, len, kind))
    ensures forall j: nat :: j < i ==> wps[j] != Watchpoint(addr, len, kind)
  {
    if wps == [] || wps[0] == Watchpoint(addr, len, kind) then 0 else 1 + FindWatch(wps[1..], addr, len, kind)
  }

  /** The entry at `i` is the first with these three fields, and no entry has them. */
  ghost predicate FirstOf(bps: seq<Breakpoint>, i: nat, addr: u64, len: u32, kind: int) {
    && i < |bps| && bps[i].addr == addr && bps[i].len == len && bps[i].kind == kind
    && NoneOf(bps[..i], addr, len, kind)
  }

  ghost predicate NoneOf(bps: seq<Breakpoint>, addr: u64, len: u32, kind: int) {
    forall j: nat :: j < |bps| ==> bps[j].addr != addr || bps[j].len != len || bps[j].kind != kind
  }

  function Erase<T>(s: seq<T>, i: nat): (rest: seq<T>)
    requires i < |s|
    ensures |rest| == |s| - 1 && forall j: nat :: j < |rest| ==> rest[j] == s[if j < i then j else j + 1]
  {
    s[..i] + s[i + 1..]
  }

  /** The bytes of an instruction word, and the word that four mapped bytes hold. */
  function Word(op: u32): (bytes: seq<u8>)
    ensures |bytes| == 4
  {
    BytesOf(op, 4)
  }

  ghost predicate WordMapped(m: FlatMap, a: int) {
    forall k :: a <= k < a + 4 ==> k in m
  }

  ghost function Op(m: FlatMap, a: int): (op: u32)
    requires WordMapped(m, a)
  {
    Pow2Constants();
    WordFits(Load(m, a, 4));
    LittleEndian(Load(m, a, 4))
  }

  lemma WordFits(bytes: seq<u8>)
    requires |bytes| == 4
    ensures LittleEndian(bytes) < 0x1_0000_0000
  {
    Pow2Constants();
    LittleEndianAppend(bytes, 0);
  }

  // ---------------------------------------------------------------- inserting and removing

  /** Guest memory and the list of breakpoints. */
  datatype Patches = Patches(mem: FlatMap, bps: seq<Breakpoint>)

  ghost function Insert(s: Patches, addr: u64, len: u32, kind: int): Patches
    requires WordMapped(s.mem, addr)
  {
    Patches(Store(s.mem, addr, Word(BRK_0X0_INST)), s.bps + [Breakpoint(addr, len, kind, Op(s.mem, addr))])
  }

  /** Restores the instruction of the first matching breakpoint, if there is one. */
  ghost function Remove(s: Patches, addr: u64, len: u32, kind: int): Patches {
    var i := Find(s.bps, addr, len, kind);
    if i == |s.bps| then s
    else Patches(Store(s.mem, s.bps[i].addr, Word(s.bps[i].oldop)), Erase(s.bps, i))
  }

  // ---------------------------------------------------------------- what stays true

  /** The two instruction words do not overlap. */
  predicate Apart(a: int, b: int) {
    a + 4 <= b || b + 4 <= a
  }

  /** The words are apart, or the same word that holds a BRK of the guest's own. */
  predicate Compatible(b: Breakpoint, c: Breakpoint) {
    Apart(b.addr, c.addr) || (b.addr == c.addr && b.oldop == c.oldop == BRK_0X0_INST)
  }

  ghost predicate AllCompatible(bps: seq<Breakpoint>) {
    forall i: nat, j: nat :: i < j < |bps| ==> Compatible(bps[i], bps[j])
  }

  /** A breakpoint at `a` meets no patched word, except one whose saved instruction is itself the BRK. */
  ghost predicate Fits(bps: seq<Breakpoint>, a: int) {
    forall i: nat :: i < |bps| ==> Apart(a, bps[i].addr) || (a == bps[i].addr && bps[i].oldop == BRK_0X0_INST)
  }

  /** A store of `n` bytes at `a` meets no patched word. */
  ghost predicate Clear(bps: seq<Breakpoint>, a: int, n: nat) {
    forall i: nat :: i < |bps| ==> bps[i].addr + 4 <= a || a + n <= bps[i].addr
  }

  /** Memory with every saved instruction put back. */
  ghost function Overlay(m: FlatMap, bps: seq<Breakpoint>): (clean: FlatMap)
    ensures clean.Keys == m.Keys
  {
    if bps == [] then m else Overlay(Store(m, bps[0].addr, Word(bps[0].oldop)), bps[1..])
  }

  ghost predicate HoldsBrk(m: FlatMap, a: int) {
    WordMapped(m, a) && Load(m, a, 4) == Word(BRK_0X0_INST)
  }

  ghost predicate AllPatched(s: Patches) {
    forall i: nat :: i < |s.bps| ==> HoldsBrk(s.mem, s.bps[i].addr)
  }

  /** Every live address holds the BRK word, and the saved instructions complete `clean`. */
  ghost predicate Reversible(s: Patches, clean: FlatMap) {
    AllPatched(s) && Overlay(s.mem, s.bps) == clean
  }

  ghost predicate Patched(s: Patches, clean: FlatMap) {
    AllCompatible(s.bps) && Reversible(s, clean)
  }

  lemma StoresCommute(m: FlatMap, a: int, first: seq<u8>, b: int, second: seq<u8>)
    requires a + |first| <= b || b + |second| <= a
    ensures Store(Store(m, a, first), b, second) == Store(Store(m, b, second), a, first)
  {
  }

  lemma StoreTwice(m: FlatMap, a: int, first: seq<u8>, second: seq<u8>)
    requires |first| == |second|
    ensures Store(Store(m, a, first), a, second) == Store(m, a, second)
  {
  }

  lemma StoreBack(m: FlatMap, a: int, n: nat)
    requires forall k :: a <= k < a + n ==> k in m
    ensures Store(m, a, Load(m, a, n)) == m
  {
  }

  lemma LoadElsewhere(m: FlatMap, a: int, bytes: seq<u8>, b: int)
    requires WordMapped(m, b) && (a + |bytes| <= b || b + 4 <= a)
    ensures WordMapped(Store(m, a, bytes), b) && Load(Store(m, a, bytes), b, 4) == Load(m, b, 4)
  {
  }

  /** A store that meets no patch commutes with putting the instructions back. */
  lemma {:induction false} OverlayStore(m: FlatMap, bps: seq<Breakpoint>, a: int, bytes: seq<u8>)
    requires Clear(bps, a, |bytes|)
    ensures Overlay(Store(m, a, bytes), bps) == Store(Overlay(m, bps), a, bytes)
    decreases |bps|
  {
    if bps != [] {
      StoresCommute(m, a, bytes, bps[0].addr, Word(bps[0].oldop));
      OverlayStore(Store(m, bps[0].addr, Word(bps[0].oldop)), bps[1..], a, bytes);
    }
  }

  lemma {:induction false} OverlayAppend(m: FlatMap, bps: seq<Breakpoint>, bp: Breakpoint)
    ensures Overlay(m, bps + [bp]) == Store(Overlay(m, bps), bp.addr, Word(bp.oldop))
    decreases |bps|
  {
    if bps == [] {
      assert ([bp])[1..] == [];
    } else {
      assert (bps + [bp])[1..] == bps[1..] + [bp];
      OverlayAppend(Store(m, bps[0].addr, Word(bps[0].oldop)), bps[1..], bp);
    }
  }

  /** Putting one instruction back first makes no difference. */
  lemma RestoreCommutes(m: FlatMap, b: Breakpoint, c: Breakpoint)
    requires Compatible(b, c)
    ensures Store(Store(m, b.addr, Word(b.oldop)), c.addr, Word(c.oldop))
         == Store(Store(m, c.addr, Word(c.oldop)), b.addr, Word(b.oldop))
  {
    if Apart(b.addr, c.addr) {
      StoresCommute(m, b.addr, Word(b.oldop), c.addr, Word(c.oldop));
    }
  }

  /** Restoring one instruction leaves what restoring all of them gives. */
  lemma {:induction false} OverlayErase(m: FlatMap, bps: seq<Breakpoint>, i: nat)
    requires AllCompatible(bps) && i < |bps|
    ensures Overlay(Store(m, bps[i].addr, Word(bps[i].oldop)), Erase(bps, i)) == Overlay(m, bps)
    decreases |bps|
  {
    if i == 0 {
      assert Erase(bps, 0) == bps[1..];
    } else {
      assert Erase(bps, i)[1..] == Erase(bps[1..], i - 1);
      assert bps[1..][i - 1] == bps[i];
      RestoreCommutes(m, bps[0], bps[i]);
      OverlayErase(Store(m, bps[0].addr, Word(bps[0].oldop)), bps[1..], i - 1);
    }
  }

  /** A word that every overlapping breakpoint saved is what the clean memory holds. */
  lemma {:induction false} OverlayLoad(m: FlatMap, bps: seq<Breakpoint>, a: int, op: seq<u8>)
    requires WordMapped(m, a) && Load(m, a, 4) == op
    requires forall i: nat :: i < |bps| ==> Apart(a, bps[i].addr) || (a == bps[i].addr && Word(bps[i].oldop) == op)
    ensures WordMapped(Overlay(m, bps), a) && Load(Overlay(m, bps), a, 4) == op
    decreases |bps|
  {
    if bps != [] {
      if Apart(a, bps[0].addr) {
        LoadElsewhere(m, bps[0].addr, Word(bps[0].oldop), a);
      } else {
        StoredWord(m, a, op);
      }
      OverlayLoad(Store(m, bps[0].addr, Word(bps[0].oldop)), bps[1..], a, op);
    }
  }

  /** The clean memory holds every saved instruction. */
  lemma {:induction false} OverlayHolds(m: FlatMap, bps: seq<Breakpoint>, i: nat)
    requires AllCompatible(bps) && i < |bps| && WordMapped(m, bps[i].addr)
    ensures WordMapped(Overlay(m, bps), bps[i].addr) && Load(Overlay(m, bps), bps[i].addr, 4) == Word(bps[i].oldop)
    decreases |bps|
  {
    var rest := Store(m, bps[0].addr, Word(bps[0].oldop));
    if i == 0 {
      StoredWord(m, bps[0].addr, Word(bps[0].oldop));
      forall j: nat | j < |bps[1..]|
        ensures Apart(bps[0].addr, bps[1..][j].addr)
                || (bps[0].addr == bps[1..][j].addr && Word(bps[1..][j].oldop) == Word(bps[0].oldop))
      {
        assert Compatible(bps[0], bps[j + 1]);
      }
      OverlayLoad(rest, bps[1..], bps[0].addr, Word(bps[0].oldop));
    } else {
      assert bps[1..][i - 1] == bps[i];
      OverlayHolds(rest, bps[1..], i - 1);
    }
  }

  /** Inserting clear of every patch leaves what restoring everything gives. */
  lemma InsertKeepsClean(m: FlatMap, bps: seq<Breakpoint>, bp: Breakpoint, patch: seq<u8>)
    requires WordMapped(m, bp.addr) && Clear(bps, bp.addr, 4) && bp.oldop == Op(m, bp.addr) && |patch| == 4
    ensures Overlay(Store(m, bp.addr, patch), bps + [bp]) == Overlay(m, bps)
  {
    var clean := Overlay(m, bps);
    OverlayAppend(Store(m, bp.addr, patch), bps, bp);
    OverlayStore(m, bps, bp.addr, patch);
    StoreTwice(clean, bp.addr, patch, Word(bp.oldop));
    OverlayLoad(m, bps, bp.addr, Load(m, bp.addr, 4));
    BytesOfLittleEndian(Load(m, bp.addr, 4));
    StoreBack(clean, bp.addr, 4);
  }

  /** Inserting on a live address saves the BRK, and that is what restoring everything then leaves there. */
  lemma InsertOnPatch(s: Patches, clean: FlatMap, i: nat, len: u32, kind: int)
    requires Patched(s, clean) && i < |s.bps|
    ensures WordMapped(s.mem, s.bps[i].addr)
    ensures var after, a := Insert(s, s.bps[i].addr, len, kind), s.bps[i].addr;
            && after.mem == s.mem && after.bps == s.bps + [Breakpoint(a, len, kind, BRK_0X0_INST)]
            && Overlay(after.mem, after.bps) == Store(clean, a, Word(BRK_0X0_INST))
            && (Overlay(after.mem, after.bps) == clean <==> s.bps[i].oldop == BRK_0X0_INST)
  {
    var a := s.bps[i].addr;
    assert HoldsBrk(s.mem, a);
    BrkIsWord(s.mem, a);
    StoreBack(s.mem, a, 4);
    OverlayAppend(s.mem, s.bps, Breakpoint(a, len, kind, BRK_0X0_INST));
    OverlayHolds(s.mem, s.bps, i);
    StoredWord(clean, a, Word(BRK_0X0_INST));
    StoreBack(clean, a, 4);
    if Word(s.bps[i].oldop) == Word(BRK_0X0_INST) {
      SameWord(s.bps[i].oldop, BRK_0X0_INST);
    }
  }

  lemma BrkIsWord(m: FlatMap, a: int)
    requires HoldsBrk(m, a)
    ensures Op(m, a) == BRK_0X0_INST
  {
    Pow2Constants();
    LittleEndianBytesOf(BRK_0X0_INST, 4);
  }

  lemma SameWord(a: u32, b: u32)
    requires Word(a) == Word(b)
    ensures a == b
  {
    Pow2Constants();
    LittleEndianBytesOf(a, 4);
    LittleEndianBytesOf(b, 4);
  }

  lemma FitsIsCompatible(bps: seq<Breakpoint>, bp: Breakpoint)
    requires AllCompatible(bps) && Fits(bps, bp.addr)
    requires forall i: nat :: i < |bps| && bps[i].addr == bp.addr ==> bp.oldop == BRK_0X0_INST
    ensures AllCompatible(bps + [bp])
  {
  }

  /** One patch more, clear of the others. */
  lemma ClearInsertPatches(s: Patches, addr: u64, len: u32, kind: int)
    requires AllPatched(s) && WordMapped(s.mem, addr) && Clear(s.bps, addr, 4)
    ensures AllPatched(Insert(s, addr, len, kind))
  {
    var after := Insert(s, addr, len, kind);
    forall i: nat | i < |after.bps| ensures HoldsBrk(after.mem, after.bps[i].addr) {
      if i < |s.bps| {
        assert HoldsBrk(s.mem, s.bps[i].addr);
        LoadElsewhere(s.mem, addr, Word(BRK_0X0_INST), s.bps[i].addr);
      } else {
        StoredWord(s.mem, addr, Word(BRK_0X0_INST));
      }
    }
  }

  lemma InsertOnBrkIsPatched(s: Patches, clean: FlatMap, i: nat, len: u32, kind: int)
    requires Patched(s, clean) && i < |s.bps| && Fits(s.bps, s.bps[i].addr)
    ensures WordMapped(s.mem, s.bps[i].addr) && Patched(Insert(s, s.bps[i].addr, len, kind), clean)
  {
    InsertOnPatch(s, clean, i, len, kind);
    FitsIsCompatible(s.bps, Breakpoint(s.bps[i].addr, len, kind, BRK_0X0_INST));
    assert HoldsBrk(s.mem, s.bps[i].addr);
  }

  lemma InsertClearIsPatched(s: Patches, clean: FlatMap, addr: u64, len: u32, kind: int)
    requires Patched(s, clean) && WordMapped(s.mem, addr) && Clear(s.bps, addr, 4)
    ensures Patched(Insert(s, addr, len, kind), clean)
  {
    var bp := Breakpoint(addr, len, kind, Op(s.mem, addr));
    InsertKeepsClean(s.mem, s.bps, bp, Word(BRK_0X0_INST));
    ClearInsertPatches(s, addr, len, kind);
    FitsIsCompatible(s.bps, bp);
  }

  /** After a fitting insert everything is as before, with one more compatible breakpoint. */
  lemma InsertIsPatched(s: Patches, clean: FlatMap, addr: u64, len: u32, kind: int)
    requires Patched(s, clean) && WordMapped(s.mem, addr) && Fits(s.bps, addr)
    ensures Patched(Insert(s, addr, len, kind), clean)
  {
    if i: nat :| i < |s.bps| && s.bps[i].addr == addr {
      InsertOnBrkIsPatched(s, clean, i, len, kind);
    } else {
      InsertClearIsPatched(s, clean, addr, len, kind);
    }
  }

  /**
   Inserting a breakpoint keeps the patches reversible exactly when its word meets no live patch,
   other than one over a BRK of the guest's own.
   */
  lemma InsertExactly(s: Patches, clean: FlatMap, addr: u64, len: u32, kind: int)
    requires Patched(s, clean) && WordMapped(s.mem, addr)
    ensures Reversible(Insert(s, addr, len, kind), clean) <==> Fits(s.bps, addr)
  {
    if Fits(s.bps, addr) {
      InsertIsPatched(s, clean, addr, len, kind);
    } else {
      var i: nat :| i < |s.bps| && !Apart(addr, s.bps[i].addr) && !(addr == s.bps[i].addr && s.bps[i].oldop == BRK_0X0_INST);
      if addr == s.bps[i].addr {
        InsertOnPatch(s, clean, i, len, kind);
      } else {
        OverlapClobbers(s, i, addr, len, kind);
      }
    }
  }

  /** A remove takes the first entry with these three fields and restores its word, or there is none. */
  lemma RemoveTakes(s: Patches, addr: u64, len: u32, kind: int)
    ensures var i := Find(s.bps, addr, len, kind);
            if i < |s.bps| then
              && FirstOf(s.bps, i, addr, len, kind)
              && Remove(s, addr, len, kind) == Patches(Store(s.mem, addr, Word(s.bps[i].oldop)), Erase(s.bps, i))
            else
              NoneOf(s.bps, addr, len, kind) && Remove(s, addr, len, kind) == s
  {
  }

  /** An insert appends the entry with the word that was there, and stores the BRK word. */
  lemma InsertAppends(s: Patches, addr: u64, len: u32, kind: int)
    requires WordMapped(s.mem, addr)
    ensures Insert(s, addr, len, kind).bps == s.bps + [Breakpoint(addr, len, kind, LittleEndian(Load(s.mem, addr, 4)))]
    ensures Insert(s, addr, len, kind).mem == Store(s.mem, addr, [0, 0, 0x20, 0xd4])
  {
    BrkBytes();
  }

  /** A remove undoes the insert of the same breakpoint, unless an equal one is in the list before it. */
  lemma RemoveUndoesInsert(s: Patches, addr: u64, len: u32, kind: int)
    requires WordMapped(s.mem, addr)
    requires forall i: nat :: i < |s.bps| ==> !(s.bps[i].addr == addr && s.bps[i].len == len && s.bps[i].kind == kind)
    ensures Remove(Insert(s, addr, len, kind), addr, len, kind) == s
  {
    var after := Insert(s, addr, len, kind);
    var i := Find(after.bps, addr, len, kind);
    assert after.bps[|s.bps|] == Breakpoint(addr, len, kind, Op(s.mem, addr));
    assert forall j: nat :: j < |s.bps| ==> after.bps[j] == s.bps[j];
    assert i == |s.bps| && Erase(after.bps, i) == s.bps;
    BytesOfLittleEndian(Load(s.mem, addr, 4));
    StoreTwice(s.mem, addr, Word(BRK_0X0_INST), Word(Op(s.mem, addr)));
    StoreBack(s.mem, addr, 4);
  }

  /** With an equal one before it, the remove takes that one, and the list keeps the new one. */
  lemma RemoveTakesFirst(s: Patches, addr: u64, len: u32, kind: int, i: nat)
    requires WordMapped(s.mem, addr) && i == Find(s.bps, addr, len, kind) < |s.bps|
    ensures Remove(Insert(s, addr, len, kind), addr, len, kind).bps
         == Erase(s.bps, i) + [Breakpoint(addr, len, kind, Op(s.mem, addr))]
  {
    var after := Insert(s, addr, len, kind);
    var k := Find(after.bps, addr, len, kind);
    assert forall j: nat :: j < |s.bps| ==> after.bps[j] == s.bps[j];
    assert k == i;
  }

  lemma StoredWord(m: FlatMap, a: int, bytes: seq<u8>)
    requires WordMapped(m, a) && |bytes| == 4
    ensures WordMapped(Store(m, a, bytes), a) && Load(Store(m, a, bytes), a, 4) == bytes
  {
  }

  lemma RemoveIsPatched(s: Patches, clean: FlatMap, addr: u64, len: u32, kind: int)
    requires Patched(s, clean)
    ensures Patched(Remove(s, addr, len, kind), clean)
  {
    var i := Find(s.bps, addr, len, kind);
    if i < |s.bps| {
      OverlayErase(s.mem, s.bps, i);
      OthersStayPatched(s, i, Word(s.bps[i].oldop));
    }
  }

  lemma OthersStayPatched(s: Patches, i: nat, op: seq<u8>)
    requires AllCompatible(s.bps) && AllPatched(s) && i < |s.bps| && op == Word(s.bps[i].oldop)
    ensures AllCompatible(Erase(s.bps, i)) && AllPatched(Patches(Store(s.mem, s.bps[i].addr, op), Erase(s.bps, i)))
  {
    var rest := Erase(s.bps, i);
    forall j: nat | j < |rest| ensures HoldsBrk(Store(s.mem, s.bps[i].addr, op), rest[j].addr) {
      var k := if j < i then j else j + 1;
      assert rest[j] == s.bps[k] && HoldsBrk(s.mem, s.bps[k].addr);
      assert Compatible(s.bps[if k < i then k else i], s.bps[if k < i then i else k]);
      if Apart(s.bps[i].addr, s.bps[k].addr) {
        LoadElsewhere(s.mem, s.bps[i].addr, op, s.bps[k].addr);
      } else {
        StoredWord(s.mem, s.bps[k].addr, op);
      }
    }
  }

  lemma StoreIsPatched(s: Patches, clean: FlatMap, a: int, bytes: seq<u8>)
    requires Patched(s, clean) && Clear(s.bps, a, |bytes|)
    ensures Patched(s.(mem := Store(s.mem, a, bytes)), Store(clean, a, bytes))
  {
    OverlayStore(s.mem, s.bps, a, bytes);
    forall i: nat | i < |s.bps| ensures HoldsBrk(Store(s.mem, a, bytes), s.bps[i].addr) {
      assert HoldsBrk(s.mem, s.bps[i].addr);
      LoadElsewhere(s.mem, a, bytes, s.bps[i].addr);
    }
  }

  // ---------------------------------------------------------------- every run

  /** What can happen: the debugger inserts or removes a breakpoint, or the guest stores bytes. */
  datatype Event =
    | Inserted(addr: u64, len: u32, kind: int)
    | Removed(addr: u64, len: u32, kind: int)
    | Stored(at: int, bytes: seq<u8>)

  /** What the stub and the guest can do: the word is mapped, and the guest stores clear of the patches. */
  ghost predicate Possible(s: Patches, e: Event) {
    match e
    case Inserted(addr, _, _) => WordMapped(s.mem, addr)
    case Removed(_, _, _) => true
    case Stored(at, bytes) => Clear(s.bps, at, |bytes|)
  }

  ghost function Apply(s: Patches, e: Event): Patches
    requires Possible(s, e)
  {
    match e
    case Inserted(addr, len, kind) => Insert(s, addr, len, kind)
    case Removed(addr, len, kind) => Remove(s, addr, len, kind)
    case Stored(at, bytes) => s.(mem := Store(s.mem, at, bytes))
  }

  /** The same events on memory without breakpoints: only the guest's stores count. */
  ghost function ApplyClean(clean: FlatMap, e: Event): FlatMap {
    if e.Stored? then Store(clean, e.at, e.bytes) else clean
  }

  ghost predicate AllPossible(s: Patches, run: seq<Event>)
    decreases |run|
  {
    run != [] ==> Possible(s, run[0]) && AllPossible(Apply(s, run[0]), run[1..])
  }

  /** Every breakpoint of the run fits the ones that are live when it is inserted. */
  ghost predicate AllFit(s: Patches, run: seq<Event>)
    requires AllPossible(s, run)
    decreases |run|
  {
    run != [] ==> (run[0].Inserted? ==> Fits(s.bps, run[0].addr)) && AllFit(Apply(s, run[0]), run[1..])
  }

  ghost function After(s: Patches, run: seq<Event>): Patches
    requires AllPossible(s, run)
    decreases |run|
  {
    if run == [] then s else After(Apply(s, run[0]), run[1..])
  }

  ghost function CleanAfter(clean: FlatMap, run: seq<Event>): FlatMap
    decreases |run|
  {
    if run == [] then clean else CleanAfter(ApplyClean(clean, run[0]), run[1..])
  }

  /** The patches are reversible now and after every event of the run. */
  ghost predicate ReversibleThroughout(s: Patches, clean: FlatMap, run: seq<Event>)
    requires AllPossible(s, run)
    decreases |run|
  {
    && Reversible(s, clean)
    && (run != [] ==> ReversibleThroughout(Apply(s, run[0]), ApplyClean(clean, run[0]), run[1..]))
  }

  lemma StepIsPatched(s: Patches, clean: FlatMap, e: Event)
    requires Patched(s, clean) && Possible(s, e) && (e.Inserted? ==> Fits(s.bps, e.addr))
    ensures Patched(Apply(s, e), ApplyClean(clean, e))
  {
    match e {
      case Inserted(addr, len, kind) => InsertIsPatched(s, clean, addr, len, kind);
      case Removed(addr, len, kind) => RemoveIsPatched(s, clean, addr, len, kind);
      case Stored(at, bytes) => StoreIsPatched(s, clean, at, bytes);
    }
  }

  /**
   After every run of fitting inserts, removes and guest stores, live addresses hold the BRK word
   and putting the saved instructions back gives the memory of the same run without a debugger.
   */
  lemma {:induction false} EveryRunIsPatched(s: Patches, clean: FlatMap, run: seq<Event>)
    requires Patched(s, clean) && AllPossible(s, run) && AllFit(s, run)
    ensures Patched(After(s, run), CleanAfter(clean, run))
    decreases |run|
  {
    if run != [] {
      StepIsPatched(s, clean, run[0]);
      EveryRunIsPatched(Apply(s, run[0]), ApplyClean(clean, run[0]), run[1..]);
    }
  }

  /** The patches stay reversible throughout a run exactly when every insert of the run fits. */
  lemma {:induction false} RunsExactly(s: Patches, clean: FlatMap, run: seq<Event>)
    requires Patched(s, clean) && AllPossible(s, run)
    ensures ReversibleThroughout(s, clean, run) <==> AllFit(s, run)
    decreases |run|
  {
    if run != [] {
      var e := run[0];
      if e.Inserted? && !Fits(s.bps, e.addr) {
        InsertExactly(s, clean, e.addr, e.len, e.kind);
        assert !Reversible(Apply(s, e), ApplyClean(clean, e));
      } else {
        StepIsPatched(s, clean, e);
        RunsExactly(Apply(s, e), ApplyClean(clean, e), run[1..]);
      }
    }
  }

  /** When the list is empty again, no patch remains. */
  lemma NoPatchRemains(mem: FlatMap, run: seq<Event>)
    requires AllPossible(Patches(mem, []), run) && AllFit(Patches(mem, []), run)
    requires After(Patches(mem, []), run).bps == []
    ensures After(Patches(mem, []), run).mem == CleanAfter(mem, run)
  {
    EveryRunIsPatched(Patches(mem, []), mem, run);
  }

  /** Two breakpoints on one address, removed in the order of insertion, leave the BRK word behind. */
  lemma SameAddressTwice(mem: FlatMap, addr: u64, len: u32)
    requires WordMapped(mem, addr)
    ensures WordMapped(Store(mem, addr, Word(BRK_0X0_INST)), addr)
    ensures var both := Insert(Insert(Patches(mem, []), addr, len, GDB_BREAKPOINT_SW), addr, len, GDB_BREAKPOINT_HW);
            var after := Remove(Remove(both, addr, len, GDB_BREAKPOINT_SW), addr, len, GDB_BREAKPOINT_HW);
            after.bps == [] && HoldsBrk(after.mem, addr)
  {
    var once := Insert(Patches(mem, []), addr, len, GDB_BREAKPOINT_SW);
    StoredWord(mem, addr, Word(BRK_0X0_INST));
    var both := Insert(once, addr, len, GDB_BREAKPOINT_HW);
    BytesOfLittleEndian(Load(once.mem, addr, 4));
    var first := Remove(both, addr, len, GDB_BREAKPOINT_SW);
    assert first.bps == [both.bps[1]];
    StoredWord(first.mem, addr, Word(BRK_0X0_INST));
  }

  /** A patch that overlaps another one destroys it. */
  lemma OverlapClobbers(s: Patches, i: nat, addr: u64, len: u32, kind: int)
    requires AllPatched(s) && i < |s.bps| && WordMapped(s.mem, addr)
    requires addr != s.bps[i].addr && !Apart(addr, s.bps[i].addr)
    ensures !AllPatched(Insert(s, addr, len, kind))
  {
    var after, a := Insert(s, addr, len, kind), s.bps[i].addr;
    assert HoldsBrk(s.mem, a);
    BrkBytes();
    assert after.bps[i] == s.bps[i];
    PatchOver(s.mem, a, addr, [0, 0, 0x20, 0xd4]);
  }

  lemma BrkBytes()
    ensures Word(BRK_0X0_INST) == [0, 0, 0x20, 0xd4]
  {
    assert BytesOf(0xd4, 1) == [0xd4];
    assert BytesOf(0xd420, 2) == [0x20, 0xd4];
    assert BytesOf(0xd4_2000, 3) == [0, 0x20, 0xd4];
  }

  lemma PatchOver(m: FlatMap, a: int, b: int, word: seq<u8>)
    requires word == [0, 0, 0x20, 0xd4] && a - 4 < b < a + 4 && b != a
    requires WordMapped(m, a) && Load(m, a, 4) == word
    ensures WordMapped(Store(m, b, word), a) && Load(Store(m, b, word), a, 4) != word
  {
    var now := Load(Store(m, b, word), a, 4);
    assert m[a + 2] == Load(m, a, 4)[2] == 0x20;
    if b > a {
      assert now[if b - a == 3 then 3 else 2] == 0;
    } else if a - b == 1 {
      assert now[1] == 0x20;
    } else {
      assert now[0] != 0;
    }
  }

  // ---------------------------------------------------------------- the stub

  class Debugger {
    const memory: Memory
    var bpList: seq<Breakpoint>
    var wpList: seq<Watchpoint>

    ghost predicate Valid()
      reads `bpList, memory
    {
      && memory.Valid() && this !in memory.Buffers() && this as object != memory
      && forall i: nat :: i < |bpList| ==> InSegment(memory.regions, bpList[i].addr, 4)
    }

    ghost function State(): Patches
      requires Valid()
      reads `bpList, memory, memory.Buffers()
    {
      Patches(memory.Flat(), bpList)
    }

    constructor (memory: Memory)
      requires memory.Valid()
      ensures Valid() && this.memory == memory && bpList == [] && wpList == []
    {
      this.memory := memory;
      bpList := [];
      wpList := [];
    }

    method ReadInst(addr: u64) returns (op: u32)
      requires Valid() && InSegment(memory.regions, addr, 4)
      ensures WordMapped(State().mem, addr) && op == Op(State().mem, addr)
    {
      var value := memory.ReadFromRAM(addr, 4);
      WordFits(Load(memory.Flat(), addr, 4));
      op := value;
    }

    method WriteInst(addr: u64, op: u32)
      requires Valid() && InSegment(memory.regions, addr, 4)
      modifies memory.Buffers()
      ensures Valid() && State() == old(State()).(mem := Store(old(State()).mem, addr, Word(op)))
    {
      memory.WriteToRAM(addr, 4, op);
    }

    method Record(bp: Breakpoint)
      requires Valid() && InSegment(memory.regions, bp.addr, 4)
      modifies this`bpList
      ensures Valid() && State() == old(State()).(bps := old(State()).bps + [bp])
    {
      bpList := bpList + [bp];
    }

    method SwBreakpointInsert(addr: u64, len: u64, kind: int) returns (res: int)
      requires Valid() && InSegment(memory.regions, addr, 4)
      modifies this`bpList, memory.Buffers()
      ensures Valid() && res == 0
      ensures WordMapped(old(State()).mem, addr) && State() == Insert(old(State()), addr, Wrap32(len), kind)
    {
      ghost var was := State();
      var oldop := ReadInst(addr);
      ghost var after := Insert(was, addr, Wrap32(len), kind);
      Record(Breakpoint(addr, Wrap32(len), kind, oldop));
      assert State() == Patches(was.mem, after.bps);
      WriteInst(addr, BRK_0X0_INST);
      assert State() == Patches(after.mem, after.bps);
      res := 0;
    }

    /** Looking for the breakpoint reads the instruction at the address, so it must be mapped. */
    method SwBreakpointRemove(addr: u64, len: u64, kind: int) returns (res: int)
      requires Valid() && (bpList != [] ==> InSegment(memory.regions, addr, 4))
      modifies this`bpList, memory.Buffers()
      ensures Valid()
      ensures res == if Find(old(bpList), addr, Wrap32(len), kind) < |old(bpList)| then 0 else -1
      ensures State() == Remove(old(State()), addr, Wrap32(len), kind)
    {
      if bpList == [] {
        return -1;
      }
      var i := Find(bpList, addr, Wrap32(len), kind);
      if i == |bpList| {
        return -1;
      }
      WriteInst(bpList[i].addr, bpList[i].oldop);
      bpList := Erase(bpList, i);
      return 0;
    }

    /** `BreakpointInsert`: software and hardware breakpoints are handled alike. */
    method BreakpointInsert(addr: u64, len: u64, kind: int) returns (res: int)
      requires Valid() && (kind == 0 || kind == 1 ==> InSegment(memory.regions, addr, 4))
      modifies this`bpList, this`wpList, memory.Buffers()
      ensures Valid() && res == if 0 <= kind <= 4 then 0 else -1
      ensures kind == 0 || kind == 1 ==>
                WordMapped(old(State()).mem, addr) && State() == Insert(old(State()), addr, Wrap32(len), kind) && wpList == old(wpList)
      ensures !(kind == 0 || kind == 1) ==>
                State() == old(State())
                && wpList == if 2 <= kind <= 4 then old(wpList) + [Watchpoint(addr, Wrap32(len), kind)] else old(wpList)
    {
      if kind == GDB_BREAKPOINT_SW || kind == GDB_BREAKPOINT_HW {
        res := SwBreakpointInsert(addr, len, kind);
      } else if kind == GDB_WATCHPOINT_WRITE || kind == GDB_WATCHPOINT_READ || kind == GDB_WATCHPOINT_ACCESS {
        wpList := wpList + [Watchpoint(addr, Wrap32(len), kind)];
        res := 0;
      } else {
        res := -1;
      }
    }

    method WatchpointRemove(addr: u64, len: u64, kind: int) returns (res: int)
      requires Valid()
      modifies this`wpList
      ensures var i := FindWatch(old(wpList), addr, Wrap32(len), kind);
              && res == (if i < |old(wpList)| then 0 else -1)
              && wpList == if i < |old(wpList)| then Erase(old(wpList), i) else old(wpList)
    {
      var i := FindWatch(wpList, addr, Wrap32(len), kind);
      if wpList == [] || i == |wpList| {
        return -1;
      }
      wpList := Erase(wpList, i);
      return 0;
    }

    /** The kinds that are no breakpoints. */
    method RemoveOther(addr: u64, len: u64, kind: int) returns (res: int)
      requires Valid()
      modifies this`wpList
      ensures var i := FindWatch(old(wpList), addr, Wrap32(len), kind);
              && res == (if 2 <= kind <= 4 && i < |old(wpList)| then 0 else -1)
              && wpList == if 2 <= kind <= 4 && i < |old(wpList)| then Erase(old(wpList), i) else old(wpList)
    {
      if kind == GDB_WATCHPOINT_WRITE || kind == GDB_WATCHPOINT_READ || kind == GDB_WATCHPOINT_ACCESS {
        res := WatchpointRemove(addr, len, kind);
      } else {
        res := -1;
      }
    }

    method BreakpointRemove(addr: u64, len: u64, kind: int) returns (res: int)
      requires Valid()
      requires (kind == 0 || kind == 1) && bpList != [] ==> InSegment(memory.regions, addr, 4)
      modifies this`bpList, this`wpList, memory.Buffers()
      ensures Valid()
      ensures kind == 0 || kind == 1 ==>
                State() == Remove(old(State()), addr, Wrap32(len), kind) && wpList == old(wpList)
                && res == if Find(old(bpList), addr, Wrap32(len), kind) < |old(bpList)| then 0 else -1
      ensures !(kind == 0 || kind == 1) ==>
                var i := FindWatch(old(wpList), addr, Wrap32(len), kind);
                && State() == old(State())
                && res == (if 2 <= kind <= 4 && i < |old(wpList)| then 0 else -1)
                && wpList == if 2 <= kind <= 4 && i < |old(wpList)| then Erase(old(wpList), i) else old(wpList)
    {
      if kind == GDB_BREAKPOINT_SW || kind == GDB_BREAKPOINT_HW {
        res := SwBreakpointRemove(addr, len, kind);
      } else {
        res := RemoveOther(addr, len, kind);
      }
    }
  }
}
