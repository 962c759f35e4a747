/**
 Vector registers as bytes, and the order in which the multiple-structure loads and stores visit
 their lanes.
 */
module Vectors {
  import opened Bits
  import opened GuestMemory

  /** A 128-bit vector register as its bytes, least significant first. */
  type Vector = bytes: seq<u8> | |bytes| == 16 witness seq(16, _ => 0)

  /** Bytes of a lane of size class 0 to 3. */
  function EBytes(size: nat): (n: nat)
    ensures 1 <= n <= 8
  {
    if size == 0 then 1 else if size == 1 then 2 else if size == 2 then 4 else 8
  }

  /** `k * EBytes(size)`, written without a product of variables. */
  function Scaled(k: nat, size: nat): nat {
    if size == 0 then k else if size == 1 then 2 * k else if size == 2 then 4 * k else 8 * k
  }

  predicate HasLane(e: nat, size: nat) {
    Scaled(e, size) + EBytes(size) <= 16
  }

  /** The bytes of lane `e`. */
  function Lane(v: Vector, e: nat, size: nat): (bytes: seq<u8>)
    requires HasLane(e, size)
    ensures |bytes| == EBytes(size)
  {
    v[Scaled(e, size)..Scaled(e, size) + EBytes(size)]
  }

  function SetLane(v: Vector, e: nat, size: nat, bytes: seq<u8>): Vector
    requires HasLane(e, size) && |bytes| == EBytes(size)
  {
    v[..Scaled(e, size)] + bytes + v[Scaled(e, size) + EBytes(size)..]
  }

  /** A lane of size class `size` has two to that power many bytes. */
  lemma LaneWidths(k: nat, size: nat)
    requires size < 4
    ensures EBytes(size) == Pow2(size) && Scaled(k, size) == k * Pow2(size)
  {
    assert Pow2(3) == 2 * Pow2(2) == 4 * Pow2(1) == 8 * Pow2(0);
  }

  /** Byte `b` of a lane, and of a vector in which a lane was replaced. */
  lemma LaneBytes(v: Vector, e: nat, size: nat, bytes: seq<u8>, b: nat)
    requires size < 4 && HasLane(e, size) && |bytes| == Pow2(size)
    ensures EBytes(size) == Pow2(size) && (e + 1) * Pow2(size) <= 16
    ensures b < Pow2(size) ==> e * Pow2(size) + b < 16 && Lane(v, e, size)[b] == v[e * Pow2(size) + b]
    ensures b < 16 ==> SetLane(v, e, size, bytes)[b]
                       == if e * Pow2(size) <= b < (e + 1) * Pow2(size) then bytes[b - e * Pow2(size)] else v[b]
  {
    LaneWidths(e, size);
    NextMultiple(e, Pow2(size));
  }

  lemma NextMultiple(e: int, d: int)
    ensures (e + 1) * d == e * d + d
  {
  }

  lemma LaneAfterSet(v: Vector, e: nat, size: nat, bytes: seq<u8>, f: nat)
    requires HasLane(e, size) && HasLane(f, size) && |bytes| == EBytes(size)
    ensures Lane(SetLane(v, e, size, bytes), f, size) == if f == e then bytes else Lane(v, f, size)
  {
    if e < f {
      LanesApart(e, f, size);
    } else if f < e {
      LanesApart(f, e, size);
    }
    SliceOfSplice(v, Scaled(e, size), bytes, Scaled(f, size));
  }

  lemma LanesApart(e: nat, f: nat, size: nat)
    requires e < f
    ensures Scaled(e, size) + EBytes(size) <= Scaled(f, size)
  {
    if size == 0 {
      assert Scaled(f, size) == f;
    } else if size == 1 {
      assert Scaled(f, size) == 2 * f >= 2 * e + 2;
    } else if size == 2 {
      assert Scaled(f, size) == 4 * f >= 4 * e + 4;
    } else {
      assert Scaled(f, size) == 8 * f >= 8 * e + 8;
    }
  }

  /** A slice of a sequence in which some elements were replaced. */
  lemma SliceOfSplice(v: seq<u8>, i: nat, bytes: seq<u8>, j: nat)
    requires i + |bytes| <= |v| && j + |bytes| <= |v|
    requires j == i || j + |bytes| <= i || i + |bytes| <= j
    ensures (v[..i] + bytes + v[i + |bytes|..])[j..j + |bytes|] == if j == i then bytes else v[j..j + |bytes|]
  {
    var n := |bytes|;
    var w := v[..i] + bytes + v[i + n..];
    forall k | 0 <= k < n ensures w[j..j + n][k] == if j == i then bytes[k] else v[j..j + n][k] {
      assert w[j..j + n][k] == w[j + k];
    }
  }

  // ---------------------------------------------------------------- the order of the lanes

  /**
   What a multiple-structure instruction transfers: `rpt` groups of `selem` registers with
   `elements` lanes of size class `size` each. Only one of the two counts exceeds one.
   */
  datatype Shape = Shape(rpt: nat, selem: nat, elements: nat, size: nat)

  predicate WellShaped(s: Shape) {
    && 1 <= s.rpt <= 4 && 1 <= s.selem <= 4 && (s.rpt == 1 || s.selem == 1)
    && s.size < 4 && (Scaled(s.elements, s.size) == 8 || Scaled(s.elements, s.size) == 16)
  }

  /** `x * n` for the small factors that occur here. */
  function By(x: nat, n: nat): nat {
    if n == 0 then 0 else if n == 1 then x else if n == 2 then 2 * x else if n == 3 then 3 * x else 4 * x
  }

  /** Number of registers and of lanes transferred. */
  function Registers(s: Shape): nat {
    if s.selem == 1 then s.rpt else s.selem
  }

  function Total(s: Shape): nat {
    By(s.elements, Registers(s))
  }

  lemma TotalIs(s: Shape)
    requires WellShaped(s)
    ensures Registers(s) == s.rpt * s.selem && Total(s) == s.elements * (s.rpt * s.selem)
  {
    if s.selem == 1 {
      assert s.rpt * 1 == s.rpt;
    } else {
      assert 1 * s.selem == s.selem;
    }
    assert Registers(s) == 1 || Registers(s) == 2 || Registers(s) == 3 || Registers(s) == 4;
  }

  /** The position in memory order of lane `e` of the `j`-th register. */
  function Position(s: Shape, j: nat, e: nat): nat {
    if s.selem == 1 then By(s.elements, j) + e else By(e, s.selem) + j
  }

  /** In the loop's terms: iteration `r`, lane `e` and column `col` move lane `(r * elements + e) * selem + col`. */
  lemma PositionIs(s: Shape, r: nat, e: nat, col: nat)
    requires WellShaped(s) && r < s.rpt && e < s.elements && col < s.selem
    ensures Position(s, r + col, e) == (r * s.elements + e) * s.selem + col
  {
    if s.selem == 1 {
      assert r == 0 || r == 1 || r == 2 || r == 3;
    } else {
      assert r == 0;
      assert s.selem == 2 || s.selem == 3 || s.selem == 4;
    }
  }

  /** Which register and which lane. */
  datatype Place = Place(reg: nat, elem: nat)

  /** What is transferred at position `k`. */
  function PlaceAt(s: Shape, k: nat): (p: Place)
    requires WellShaped(s) && k < Total(s)
    ensures p.reg < Registers(s) && p.elem < s.elements && Position(s, p.reg, p.elem) == k
  {
    if s.selem == 1 then
      var r := if k < s.elements then 0 else if k < 2 * s.elements then 1 else if k < 3 * s.elements then 2 else 3;
      Place(r, k - By(s.elements, r))
    else if s.selem == 2 then Place(k % 2, k / 2)
    else if s.selem == 3 then Place(k % 3, k / 3)
    else Place(k % 4, k / 4)
  }

  /** Positions and lanes correspond one to one. */
  lemma PositionOfLane(s: Shape, j: nat, e: nat)
    requires WellShaped(s) && j < Registers(s) && e < s.elements
    ensures Position(s, j, e) < Total(s) && PlaceAt(s, Position(s, j, e)) == Place(j, e)
  {
    if s.selem == 1 {
      assert j == 0 || j == 1 || j == 2 || j == 3;
    } else {
      assert s.selem == 2 || s.selem == 3 || s.selem == 4;
      DivUnique(Position(s, j, e), s.selem, e, j);
    }
  }

  lemma LaneInRegister(s: Shape, e: nat)
    requires WellShaped(s) && e < s.elements
    ensures HasLane(e, s.size)
  {
  }

  /** The `j`-th register counted from `rt`, modulo 32. */
  function RegIndex(rt: nat, j: nat): (v: nat)
    requires rt < 32 && j < 32
    ensures v < 32
  {
    if rt + j < 32 then rt + j else rt + j - 32
  }

  /** The places that the instruction transfers, in memory order. */
  function Places(s: Shape): (places: seq<Place>)
    requires WellShaped(s)
    ensures |places| == Total(s)
    ensures forall k :: 0 <= k < Total(s) ==> places[k] == PlaceAt(s, k)
  {
    seq(Total(s), k requires 0 <= k < Total(s) => PlaceAt(s, k))
  }

  // ---------------------------------------------------------------- memory image and registers

  predicate ValidPlace(p: Place, size: nat) {
    p.reg < 32 && HasLane(p.elem, size)
  }

  /** Lanes of existing registers, each of them named once. */
  ghost predicate Transfer(places: seq<Place>, size: nat) {
    && (forall k: nat :: k < |places| ==> ValidPlace(places[k], size))
    && (forall j: nat, k: nat :: j < k < |places| ==> places[j] != places[k])
  }

  lemma PlacesTransfer(s: Shape)
    requires WellShaped(s)
    ensures Transfer(Places(s), s.size)
  {
    forall k: nat | k < Total(s) ensures ValidPlace(Places(s)[k], s.size) {
      LaneInRegister(s, PlaceAt(s, k).elem);
    }
    forall j: nat, k: nat | j < k < Total(s) ensures Places(s)[j] != Places(s)[k] {
      var p, q := PlaceAt(s, j), PlaceAt(s, k);
      assert Position(s, p.reg, p.elem) == j && Position(s, q.reg, q.elem) == k;
    }
  }

  /** `n` lanes' worth of bytes, lane by lane. */
  ghost predicate Parts(parts: seq<seq<u8>>, n: nat, size: nat) {
    |parts| == n && forall k: nat :: k < n ==> |parts[k]| == EBytes(size)
  }

  /** The lane that a place names when the first register is `rt`. */
  function LaneAt(regs: seq<Vector>, p: Place, size: nat, rt: nat): (bytes: seq<u8>)
    requires ValidPlace(p, size) && |regs| == 33 && rt < 32
    ensures |bytes| == EBytes(size)
  {
    Lane(regs[RegIndex(rt, p.reg)], p.elem, size)
  }

  /** The registers after that lane is replaced. */
  function SetLaneAt(regs: seq<Vector>, p: Place, size: nat, rt: nat, bytes: seq<u8>): (after: seq<Vector>)
    requires ValidPlace(p, size) && |regs| == 33 && rt < 32 && |bytes| == EBytes(size)
    ensures |after| == 33
  {
    var v := RegIndex(rt, p.reg);
    regs[v := SetLane(regs[v], p.elem, size, bytes)]
  }

  lemma LaneAtAfterSet(regs: seq<Vector>, p: Place, o: Place, size: nat, rt: nat, bytes: seq<u8>)
    requires ValidPlace(p, size) && ValidPlace(o, size) && |regs| == 33 && rt < 32 && |bytes| == EBytes(size)
    ensures LaneAt(SetLaneAt(regs, p, size, rt, bytes), o, size, rt) == if o == p then bytes else LaneAt(regs, o, size, rt)
  {
    LaneAfterSet(regs[RegIndex(rt, p.reg)], p.elem, size, bytes, o.elem);
  }

  /** The lanes that the first `k` lane stores write, in address order. */
  ghost function Image(regs: seq<Vector>, places: seq<Place>, size: nat, rt: nat, k: nat): (parts: seq<seq<u8>>)
    requires Transfer(places, size) && |regs| == 33 && rt < 32 && k <= |places|
    ensures Parts(parts, k, size)
    ensures forall q: nat :: q < k ==> parts[q] == LaneAt(regs, places[q], size, rt)
  {
    if k == 0 then [] else Image(regs, places, size, rt, k - 1) + [LaneAt(regs, places[k - 1], size, rt)]
  }

  /** The registers after the first `k` lane loads. */
  ghost function Filled(regs: seq<Vector>, places: seq<Place>, size: nat, rt: nat, parts: seq<seq<u8>>, k: nat): (after: seq<Vector>)
    requires Transfer(places, size) && |regs| == 33 && rt < 32 && k <= |places| && Parts(parts, |places|, size)
    ensures |after| == 33
  {
    if k == 0 then regs
    else SetLaneAt(Filled(regs, places, size, rt, parts, k - 1), places[k - 1], size, rt, parts[k - 1])
  }

  lemma {:induction false} FilledHolds(regs: seq<Vector>, places: seq<Place>, size: nat, rt: nat, parts: seq<seq<u8>>, k: nat, q: nat)
    requires Transfer(places, size) && |regs| == 33 && rt < 32 && k <= |places| && Parts(parts, |places|, size)
    requires q < |places|
    ensures LaneAt(Filled(regs, places, size, rt, parts, k), places[q], size, rt)
         == if q < k then parts[q] else LaneAt(regs, places[q], size, rt)
    decreases k
  {
    if k > 0 {
      FilledHolds(regs, places, size, rt, parts, k - 1, q);
      LaneAtAfterSet(Filled(regs, places, size, rt, parts, k - 1), places[k - 1], places[q], size, rt, parts[k - 1]);
    }
  }

  /** Byte `b` of register `v` lies in the lane that a place names. */
  predicate InLane(p: Place, size: nat, rt: nat, v: nat, b: nat)
    requires ValidPlace(p, size) && rt < 32
  {
    v == RegIndex(rt, p.reg) && Scaled(p.elem, size) <= b < Scaled(p.elem, size) + EBytes(size)
  }

  /** A byte that no transferred lane contains. */
  ghost predicate Untouched(places: seq<Place>, size: nat, rt: nat, v: nat, b: nat)
    requires Transfer(places, size) && rt < 32
  {
    forall k: nat :: k < |places| ==> !InLane(places[k], size, rt, v, b)
  }

  lemma {:induction false} FilledElsewhere(regs: seq<Vector>, places: seq<Place>, size: nat, rt: nat, parts: seq<seq<u8>>, k: nat,
                                           v: nat, b: nat)
    requires Transfer(places, size) && |regs| == 33 && rt < 32 && k <= |places| && Parts(parts, |places|, size)
    requires v < 33 && b < 16 && Untouched(places, size, rt, v, b)
    ensures Filled(regs, places, size, rt, parts, k)[v][b] == regs[v][b]
    decreases k
  {
    if k > 0 {
      FilledElsewhere(regs, places, size, rt, parts, k - 1, v, b);
      assert !InLane(places[k - 1], size, rt, v, b);
    }
  }

  /**
   Loading what was stored, into any register file, restores every transferred lane and changes
   no other byte.
   */
  lemma StoreThenLoad(regs: seq<Vector>, other: seq<Vector>, places: seq<Place>, size: nat, rt: nat)
    requires Transfer(places, size) && |regs| == |other| == 33 && rt < 32
    ensures var after := Filled(other, places, size, rt, Image(regs, places, size, rt, |places|), |places|);
            && (forall q: nat :: q < |places| ==> LaneAt(after, places[q], size, rt) == LaneAt(regs, places[q], size, rt))
            && (forall v: nat, b: nat :: v < 33 && b < 16 && Untouched(places, size, rt, v, b) ==> after[v][b] == other[v][b])
  {
    var image := Image(regs, places, size, rt, |places|);
    var after := Filled(other, places, size, rt, image, |places|);
    forall q: nat | q < |places| ensures LaneAt(after, places[q], size, rt) == LaneAt(regs, places[q], size, rt) {
      FilledHolds(other, places, size, rt, image, |places|, q);
    }
    forall v: nat, b: nat | v < 33 && b < 16 && Untouched(places, size, rt, v, b) ensures after[v][b] == other[v][b] {
      FilledElsewhere(other, places, size, rt, image, |places|, v, b);
    }
  }

  // ---------------------------------------------------------------- lanes in memory

  /** The bytes of the lanes one after the other. */
  function Flatten(parts: seq<seq<u8>>): seq<u8> {
    if parts == [] then [] else Flatten(parts[..|parts| - 1]) + parts[|parts| - 1]
  }

  lemma {:induction false} FlattenLength(parts: seq<seq<u8>>, n: nat, size: nat)
    requires Parts(parts, n, size)
    ensures |Flatten(parts)| == Scaled(n, size)
  {
    if n > 0 { FlattenLength(parts[..n - 1], n - 1, size); }
  }

  /** Lane `k` begins `k` lane widths from the start. */
  lemma {:induction false} FlattenPart(parts: seq<seq<u8>>, n: nat, size: nat, k: nat)
    requires Parts(parts, n, size) && k < n
    ensures Scaled(k, size) + EBytes(size) <= |Flatten(parts)| == Scaled(n, size)
    ensures Flatten(parts)[Scaled(k, size)..Scaled(k, size) + EBytes(size)] == parts[k]
    decreases n
  {
    FlattenLength(parts, n, size);
    FlattenLength(parts[..n - 1], n - 1, size);
    if k < n - 1 {
      FlattenPart(parts[..n - 1], n - 1, size, k);
    }
  }
}
