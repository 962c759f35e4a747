/**
 Guest memory: little-endian byte loops over one flat RAM and separately allocated blocks. The
 segments together behave like one flat byte map, `Flat`, which is what every operation is
 specified against.
 */
module GuestMemory {
  import opened Bits
  import Regions

  const HEAP_BASE: int := Regions.HEAP_BASE
  const STRAIGHT_MAX: int := 0x900_0000
  const RAM_SIZE: int := 0x1000_0000

  type FlatMap = map<int, u8>

  /** A mapped region; its `block` is null when it lies in the flat RAM. */
  datatype RamBlock = RamBlock(addr: u64, length: u32, block: array?<u8>)

  /** Last address of a region: its range is inclusive, and the sum wraps at 64 bits. */
  function End(r: RamBlock): u64 {
    Wrap64(r.addr + r.length)
  }

  predicate Contains(r: RamBlock, a: int) {
    r.addr <= a <= End(r)
  }

  predicate IsStraight(addr: u64, len: u32) {
    Wrap64(addr + len) <= STRAIGHT_MAX
  }

  /** Index of the first region that contains `a`, or the number of regions. */
  function FirstAt(regions: seq<RamBlock>, a: int): (i: nat)
    ensures i <= |regions|
    ensures i < |regions| ==> Contains(regions[i], a)
    ensures forall j: nat :: j < i ==> !Contains(regions[j], a)
  {
    if regions == [] || Contains(regions[0], a) then 0 else 1 + FirstAt(regions[1..], a)
  }

  // ---------------------------------------------------------------- little-endian values

  /** The number that the bytes denote, least significant byte first. */
  function LittleEndian(bytes: seq<u8>): nat {
    if bytes == [] then 0 else bytes[0] + 0x100 * LittleEndian(bytes[1..])
  }

  /** The `n` low bytes of a number, least significant first. */
  function BytesOf(value: nat, n: nat): (bytes: seq<u8>)
    ensures |bytes| == n
  {
    if n == 0 then [] else [value % 0x100] + BytesOf(value / 0x100, n - 1)
  }

  lemma {:induction false} BytesOfLittleEndian(bytes: seq<u8>)
    ensures BytesOf(LittleEndian(bytes), |bytes|) == bytes
  {
    if bytes != [] {
      BytesOfLittleEndian(bytes[1..]);
      assert LittleEndian(bytes) % 0x100 == bytes[0];
      assert LittleEndian(bytes) / 0x100 == LittleEndian(bytes[1..]);
    }
  }

  lemma {:induction false} LittleEndianBytesOf(value: nat, n: nat)
    requires value < Pow2(8 * n)
    ensures LittleEndian(BytesOf(value, n)) == value
    decreases n
  {
    if n > 0 {
      Pow2Eight(8 * n - 8);
      LittleEndianBytesOf(value / 0x100, n - 1);
      assert BytesOf(value, n)[1..] == BytesOf(value / 0x100, n - 1);
    }
  }

  /** Appending a most significant byte. */
  lemma {:induction false} LittleEndianAppend(bytes: seq<u8>, b: u8)
    ensures LittleEndian(bytes + [b]) == LittleEndian(bytes) + Scale(b, 8 * |bytes|)
    ensures LittleEndian(bytes) < Pow2(8 * |bytes|)
  {
    if bytes == [] {
      assert [b][1..] == [];
    } else {
      var n := 8 * |bytes| - 8;
      assert (bytes + [b])[1..] == bytes[1..] + [b];
      LittleEndianAppend(bytes[1..], b);
      ScaleEight(b, n);
      Pow2Eight(n);
    }
  }

  /** The flat map after the bytes are stored from address `a` up. */
  ghost function Store(m: FlatMap, a: int, bytes: seq<u8>): FlatMap {
    map k | k in m :: if a <= k < a + |bytes| then bytes[k - a] else m[k]
  }

  /** The `n` bytes from address `a` up. */
  ghost function Load(m: FlatMap, a: int, n: nat): seq<u8>
    requires forall k :: a <= k < a + n ==> k in m
  {
    seq(n, i requires 0 <= i < n => m[a + i])
  }

  /**
   A read of any width at any offset inside a value just written returns the bits of the value
   at that position.
   */
  lemma ReadBack(m: FlatMap, a: int, n: nat, value: nat, offset: nat, width: nat)
    requires offset + width <= n && forall k :: a <= k < a + n ==> k in m
    ensures LittleEndian(Load(Store(m, a, BytesOf(value, n)), a + offset, width))
         == Low(Shr(value, 8 * offset), 8 * width)
  {
    var bytes := BytesOf(value, n);
    assert Load(Store(m, a, bytes), a + offset, width) == bytes[offset..offset + width];
    BytesOfSlice(value, n, offset, width);
    BytesOfTruncates(Shr(value, 8 * offset), width);
  }

  lemma {:induction false} BytesOfSlice(value: nat, n: nat, offset: nat, width: nat)
    requires offset + width <= n
    ensures BytesOf(value, n)[offset..offset + width] == BytesOf(Shr(value, 8 * offset), width)
    decreases n
  {
    if offset > 0 {
      Byte(value);
      ShrAdd(value, 8, 8 * offset - 8);
      BytesOfSlice(value / 0x100, n - 1, offset - 1, width);
      var rest := BytesOf(value / 0x100, n - 1);
      assert BytesOf(value, n)[offset..offset + width] == rest[offset - 1..offset - 1 + width];
    } else if width > 0 {
      BytesOfSlice(value / 0x100, n - 1, 0, width - 1);
      var rest := BytesOf(value / 0x100, n - 1);
      assert rest[0..width - 1] == rest[..width - 1];
      assert BytesOf(value, n)[0..width] == [value % 0x100] + rest[..width - 1];
    }
  }

  lemma {:induction false} BytesOfTruncates(value: nat, n: nat)
    ensures LittleEndian(BytesOf(value, n)) == Low(value, 8 * n)
    decreases n
  {
    if n > 0 {
      BytesOfTruncates(value / 0x100, n - 1);
      assert BytesOf(value, n)[1..] == BytesOf(value / 0x100, n - 1);
      LowBytes(value, 8 * n - 8);
    }
  }

  lemma LowBytes(value: nat, k: nat)
    ensures Low(value, k + 8) == value % 0x100 + 0x100 * Low(value / 0x100, k)
  {
    Byte(value);
    LowAdd(value, 8, k);
    ScaleEight(Low(value / 0x100, k), 0);
  }

  // ---------------------------------------------------------------- where bytes are stored

  /** Every block is as long as its region says, and no storage is shared. */
  ghost predicate Sound(ram: array<u8>, regions: seq<RamBlock>) {
    && ram.Length == RAM_SIZE
    && (forall i: nat :: i < |regions| && regions[i].block != null ==>
          regions[i].block.Length == regions[i].length && regions[i].block != ram)
    && (forall i: nat, j: nat :: i < j < |regions| && regions[i].block != null ==>
          regions[i].block != regions[j].block)
  }

  /** Whether a single byte at `a` has storage. */
  ghost predicate Backed(regions: seq<RamBlock>, a: int) {
    0 <= a < STRAIGHT_MAX
    || (STRAIGHT_MAX <= a < 0xffff_ffff_ffff_ffff
        && var i := FirstAt(regions, a);
           i < |regions| && regions[i].block != null && a - regions[i].addr < regions[i].length)
  }

  /** The buffer and the index in it where byte `a` is stored. */
  ghost function BufferOf(ram: array<u8>, regions: seq<RamBlock>, a: int): array<u8>
    requires Backed(regions, a)
  {
    if a < STRAIGHT_MAX then ram else regions[FirstAt(regions, a)].block
  }

  ghost function IndexOf(regions: seq<RamBlock>, a: int): (i: nat)
    requires Backed(regions, a)
  {
    if a < STRAIGHT_MAX then a else a - regions[FirstAt(regions, a)].addr
  }

  /** The access lies inside the storage of one segment. */
  ghost predicate InSegment(regions: seq<RamBlock>, gpa: u64, n: nat) {
    gpa + n <= STRAIGHT_MAX
    || (STRAIGHT_MAX <= gpa && gpa + n < 0x1_0000_0000_0000_0000
        && var i := FirstAt(regions, gpa);
           i < |regions| && regions[i].block != null && gpa - regions[i].addr + n <= regions[i].length
           && forall a :: gpa <= a < gpa + n ==> FirstAt(regions, a) == i)
  }

  /** Inside a block that no earlier region meets, every access is inside one segment. */
  lemma DisjointSegments(regions: seq<RamBlock>, i: nat, gpa: u64, n: nat)
    requires i < |regions| && regions[i].block != null && STRAIGHT_MAX <= gpa && 1 <= n
    requires regions[i].addr <= gpa && gpa + n <= regions[i].addr + regions[i].length < 0x1_0000_0000_0000_0000
    requires forall j: nat :: j < i ==> End(regions[j]) < regions[i].addr || End(regions[i]) < regions[j].addr
    ensures InSegment(regions, gpa, n)
  {
    forall a | gpa <= a < gpa + n ensures FirstAt(regions, a) == i {
      assert Contains(regions[i], a);
    }
  }

  /** Every byte of an access is backed, and the bytes lie side by side. */
  lemma Contiguous(ram: array<u8>, regions: seq<RamBlock>, gpa: u64, n: nat, a: int)
    requires Sound(ram, regions) && InSegment(regions, gpa, n) && gpa <= a < gpa + n
    ensures Backed(regions, gpa) && Backed(regions, a)
    ensures BufferOf(ram, regions, a) == BufferOf(ram, regions, gpa)
    ensures IndexOf(regions, a) == IndexOf(regions, gpa) + (a - gpa)
    ensures IndexOf(regions, a) < BufferOf(ram, regions, a).Length
  {
  }

  lemma IndexInBuffer(ram: array<u8>, regions: seq<RamBlock>, a: int)
    requires Sound(ram, regions) && Backed(regions, a)
    ensures IndexOf(regions, a) < BufferOf(ram, regions, a).Length
  {
  }

  /** No two addresses share storage: a byte outside an access is stored outside it too. */
  lemma NoAliasing(ram: array<u8>, regions: seq<RamBlock>, gpa: u64, n: nat, a: int)
    requires Sound(ram, regions) && 1 <= n && InSegment(regions, gpa, n)
    requires Backed(regions, a) && !(gpa <= a < gpa + n)
    ensures Backed(regions, gpa)
    ensures BufferOf(ram, regions, a) != BufferOf(ram, regions, gpa)
            || !(IndexOf(regions, gpa) <= IndexOf(regions, a) < IndexOf(regions, gpa) + n)
  {
  }

  // ---------------------------------------------------------------- the memory object

  class Memory {
    const pRAM: array<u8>
    var regions: seq<RamBlock>
    var heapSize: u64

    ghost predicate Valid()
      reads this
    {
      Sound(pRAM, regions)
    }

    /** The arrays that hold guest bytes. */
    ghost function Buffers(): set<object>
      reads this
    {
      {pRAM} + set r | r in regions && r.block != null :: r.block
    }

    ghost function ByteAt(a: int): u8
      requires Valid() && Backed(regions, a)
      reads this, Buffers()
    {
      IndexInBuffer(pRAM, regions, a);
      BufferOf(pRAM, regions, a)[IndexOf(regions, a)]
    }

    /** Guest memory as one byte map. */
    ghost function Flat(): FlatMap
      requires Valid()
      reads this, Buffers()
    {
      map a: int | 0 <= a < 0x1_0000_0000_0000_0000 && Backed(regions, a) :: ByteAt(a)
    }

    constructor ()
      ensures Valid() && fresh(Buffers()) && heapSize == 0
      ensures regions == [RamBlock(0, 0xff_ffff, null), RamBlock(0x300_0000, 0xff_ffff, null)]
    {
      pRAM := new u8[RAM_SIZE];
      regions := [RamBlock(0, 0xff_ffff, null), RamBlock(0x300_0000, 0xff_ffff, null)];
      heapSize := 0;
    }

    method FindRamBlock(addr: u64) returns (found: nat)
      ensures found == FirstAt(regions, addr)
    {
      found := 0;
      while found < |regions|
        invariant found <= |regions|
        invariant FirstAt(regions, addr) == found + FirstAt(regions[found..], addr)
      {
        if Contains(regions[found], addr) {
          return;
        }
        found := found + 1;
      }
    }

    /** Host storage of an access, as a buffer and an offset. */
    method GetRawPtr(gpa: u64, n: u32) returns (buffer: array<u8>, offset: nat)
      requires Valid() && 1 <= n && InSegment(regions, gpa, n)
      ensures Backed(regions, gpa) && buffer == BufferOf(pRAM, regions, gpa) && offset == IndexOf(regions, gpa)
      ensures offset + n <= buffer.Length && buffer in Buffers()
    {
      Contiguous(pRAM, regions, gpa, n, gpa);
      Contiguous(pRAM, regions, gpa, n, gpa + n - 1);
      if IsStraight(gpa, n) {
        buffer, offset := pRAM, gpa;
      } else {
        var i := FindRamBlock(gpa);
        buffer, offset := regions[i].block, gpa - regions[i].addr;
      }
    }

    /** `ReadFromRAM`: the little-endian value of the bytes. */
    method ReadFromRAM(gpa: u64, n: u32) returns (value: nat)
      requires Valid() && 1 <= n <= 8 && InSegment(regions, gpa, n)
      ensures forall a :: gpa <= a < gpa + n ==> a in Flat()
      ensures value == LittleEndian(Load(Flat(), gpa, n))
    {
      var buffer, offset := GetRawPtr(gpa, n);
      value := LoadBytes(buffer, offset, n);
      SliceIsLoad(gpa, n, buffer, offset);
    }

    lemma SliceIsLoad(gpa: u64, n: nat, buffer: array<u8>, offset: nat)
      requires Valid() && 1 <= n && InSegment(regions, gpa, n) && Backed(regions, gpa)
      requires buffer == BufferOf(pRAM, regions, gpa) && offset == IndexOf(regions, gpa)
      ensures offset + n <= buffer.Length
      ensures forall a :: gpa <= a < gpa + n ==> a in Flat()
      ensures Load(Flat(), gpa, n) == buffer[offset..offset + n]
    {
      SegmentContents(gpa, n);
    }

    /** What an access sees is a slice of its buffer. */
    lemma SegmentContents(gpa: u64, n: nat)
      requires Valid() && 1 <= n && InSegment(regions, gpa, n)
      ensures Backed(regions, gpa) && IndexOf(regions, gpa) + n <= BufferOf(pRAM, regions, gpa).Length
      ensures forall a :: gpa <= a < gpa + n ==> a in Flat()
      ensures Load(Flat(), gpa, n) == BufferOf(pRAM, regions, gpa)[IndexOf(regions, gpa)..IndexOf(regions, gpa) + n]
    {
      Contiguous(pRAM, regions, gpa, n, gpa + n - 1);
      forall a | gpa <= a < gpa + n
        ensures a in Flat() && Flat()[a] == BufferOf(pRAM, regions, gpa)[IndexOf(regions, gpa) + (a - gpa)]
      {
        Contiguous(pRAM, regions, gpa, n, a);
      }
    }

    /** The byte loop of a read: each byte is shifted into place. */
    method LoadBytes(buffer: array<u8>, offset: nat, n: u32) returns (value: nat)
      requires offset + n <= buffer.Length
      ensures value == LittleEndian(buffer[offset..offset + n])
    {
      ghost var bytes := buffer[offset..offset + n];
      value := 0;
      var k := 0;
      while k < n
        invariant 0 <= k <= n
        invariant value == LittleEndian(bytes[..k])
      {
        var byte := buffer[offset + k];
        LittleEndianAppend(bytes[..k], byte);
        assert bytes[..k + 1] == bytes[..k] + [byte];
        OrDisjoint(byte, value, 8 * k);
        value := Or(Scale(byte, 8 * k), value);
        k := k + 1;
      }
      assert bytes[..n] == bytes;
    }

    /** The byte loop of a write: the buffer from `offset` up holds the value's low bytes. */
    method StoreBytes(buffer: array<u8>, offset: nat, n: u32, value: nat)
      requires offset + n <= buffer.Length
      modifies buffer
      ensures buffer[offset..offset + n] == BytesOf(value, n)
      ensures forall i :: 0 <= i < buffer.Length && !(offset <= i < offset + n) ==> buffer[i] == old(buffer[i])
    {
      var rest := value;
      var k := 0;
      while k < n
        invariant 0 <= k <= n
        invariant BytesOf(value, n) == buffer[offset..offset + k] + BytesOf(rest, n - k)
        invariant forall i :: 0 <= i < buffer.Length && !(offset <= i < offset + k) ==> buffer[i] == old(buffer[i])
      {
        buffer[offset + k] := rest % 0x100;
        rest := rest / 0x100;
        k := k + 1;
      }
    }

    /** Bytes outside the storage of an access. */
    ghost predicate Outside(gpa: u64, n: nat, a: int)
      requires Backed(regions, gpa) && Backed(regions, a)
      reads this
    {
      BufferOf(pRAM, regions, a) != BufferOf(pRAM, regions, gpa)
      || !(IndexOf(regions, gpa) <= IndexOf(regions, a) < IndexOf(regions, gpa) + n)
    }

    lemma SettledByte(before: FlatMap, gpa: u64, bytes: seq<u8>, a: int)
      requires Valid() && bytes != [] && InSegment(regions, gpa, |bytes|)
      requires Backed(regions, gpa) && IndexOf(regions, gpa) + |bytes| <= BufferOf(pRAM, regions, gpa).Length
      requires BufferOf(pRAM, regions, gpa)[IndexOf(regions, gpa)..IndexOf(regions, gpa) + |bytes|] == bytes
      requires Backed(regions, a) && a in before && (Outside(gpa, |bytes|, a) ==> ByteAt(a) == before[a])
      ensures ByteAt(a) == if gpa <= a < gpa + |bytes| then bytes[a - gpa] else before[a]
    {
      if gpa <= a < gpa + |bytes| {
        Contiguous(pRAM, regions, gpa, |bytes|, a);
        assert bytes[a - gpa] == BufferOf(pRAM, regions, gpa)[IndexOf(regions, gpa) + (a - gpa)];
      } else {
        NoAliasing(pRAM, regions, gpa, |bytes|, a);
      }
    }

    /** The flat map after bytes were stored in an access's buffer and nowhere else. */
    lemma Settle(before: FlatMap, gpa: u64, bytes: seq<u8>)
      requires Valid() && bytes != [] && InSegment(regions, gpa, |bytes|)
      requires Backed(regions, gpa) && IndexOf(regions, gpa) + |bytes| <= BufferOf(pRAM, regions, gpa).Length
      requires forall a :: a in before <==> Backed(regions, a)
      requires BufferOf(pRAM, regions, gpa)[IndexOf(regions, gpa)..IndexOf(regions, gpa) + |bytes|] == bytes
      requires forall a :: Backed(regions, a) && Outside(gpa, |bytes|, a) ==> ByteAt(a) == before[a]
      ensures Flat() == Store(before, gpa, bytes)
    {
      forall a | Backed(regions, a)
        ensures ByteAt(a) == if gpa <= a < gpa + |bytes| then bytes[a - gpa] else before[a]
      {
        SettledByte(before, gpa, bytes, a);
      }
    }

    /** `WriteToRAM`: stores the low bytes of the value and changes nothing else. */
    method WriteToRAM(gpa: u64, n: u32, value: nat)
      requires Valid() && 1 <= n <= 8 && InSegment(regions, gpa, n)
      modifies Buffers()
      ensures Valid()
      ensures Flat() == Store(old(Flat()), gpa, BytesOf(value, n))
    {
      ghost var before := Flat();
      var buffer, offset := GetRawPtr(gpa, n);
      StoreBytes(buffer, offset, n, value);
      forall a | Backed(regions, a)
        ensures Outside(gpa, n, a) ==> ByteAt(a) == before[a]
      {
        IndexInBuffer(pRAM, regions, a);
      }
      Settle(before, gpa, BytesOf(value, n));
    }

    // -------------------------------------------------------------- regions

    /** Every byte that was mapped in `before` still is, with the same contents. */
    ghost predicate Extends(before: FlatMap)
      requires Valid()
      reads this, Buffers()
    {
      forall a :: a in before ==> a in Flat() && Flat()[a] == before[a]
    }

    lemma AppendedRegion(was: seq<RamBlock>, r: RamBlock, before: FlatMap)
      requires Valid() && Sound(pRAM, was) && regions == was + [r]
      requires forall a :: a in before ==>
                 Backed(was, a) && IndexOf(was, a) < BufferOf(pRAM, was, a).Length
                 && before[a] == BufferOf(pRAM, was, a)[IndexOf(was, a)]
      ensures Extends(before)
    {
      forall a | a in before ensures a in Flat() && Flat()[a] == before[a] {
        EarlierRegionWins(was, r, a);
      }
    }

    method AddAnonStraight(addr: u64, len: u32)
      requires Valid()
      modifies this`regions
      ensures Valid() && regions == old(regions) + [RamBlock(addr, len, null)]
      ensures Extends(old(Flat()))
    {
      ghost var was, before := regions, Flat();
      regions := regions + [RamBlock(addr, len, null)];
      forall a | a in before ensures IndexOf(was, a) < BufferOf(pRAM, was, a).Length { IndexInBuffer(pRAM, was, a); }
      AppendedRegion(was, RamBlock(addr, len, null), before);
    }

    method AddAnonRamBlock(addr: u64, len: u32)
      requires Valid()
      modifies this`regions
      ensures Valid() && |regions| == |old(regions)| + 1
      ensures var r := regions[|old(regions)|];
              && regions == old(regions) + [r]
              && r.addr == addr && r.length == len && r.block != null && fresh(r.block)
      ensures Extends(old(Flat()))
    {
      ghost var was, before := regions, Flat();
      var raw := new u8[len];
      regions := regions + [RamBlock(addr, len, raw)];
      forall a | a in before ensures IndexOf(was, a) < BufferOf(pRAM, was, a).Length { IndexInBuffer(pRAM, was, a); }
      AppendedRegion(was, RamBlock(addr, len, raw), before);
    }

    /** `AddMemmap`: appends one region, with storage of its own unless it lies in the flat RAM. */
    method AddMemmap(addr: u64, len: u32)
      requires Valid()
      modifies this`regions
      ensures Valid() && |regions| == |old(regions)| + 1
      ensures var r := regions[|old(regions)|];
              && regions == old(regions) + [r]
              && r.addr == addr && r.length == len
              && (r.block == null <==> IsStraight(addr, len))
              && (r.block != null ==> fresh(r.block))
      ensures Extends(old(Flat()))
    {
      if IsStraight(addr, len) {
        AddAnonStraight(addr, len);
      } else {
        AddAnonRamBlock(addr, len);
      }
    }

    /** `DelMemmap`: erases the regions that lie inside the given range. */
    method DelMemmap(addr: u64, len: u32)
      requires Valid()
      modifies this`regions
      ensures Valid()
      ensures regions == Kept(old(regions), addr, len)
    {
      ghost var was := regions;
      var i := 0;
      while i < |regions|
        invariant 0 <= i <= |regions|
        invariant Kept(was, addr, len) == regions[..i] + Kept(regions[i..], addr, len)
        invariant Sound(pRAM, regions)
        decreases |regions| - i
      {
        KeptStep(regions, i, addr, len);
        if Inside(regions[i], addr, len) {
          SoundErase(pRAM, regions, i);
          regions := regions[..i] + regions[i + 1..];
        } else {
          i := i + 1;
        }
      }
    }

    /** `SetHeapSize`: records the size, after mapping what it adds. */
    method SetHeapSize(size: u64)
      requires Valid()
      modifies this`regions, this`heapSize
      ensures Valid() && heapSize == size
      ensures |regions| >= |old(regions)| && regions[..|old(regions)|] == old(regions)
      ensures forall before: seq<Regions.Span> ::
                Regions.SetHeapSize(Regions.Heap(before, old(heapSize)), size)
                == Regions.Heap(before + SpansOf(regions[|old(regions)|..]), size)
      ensures size <= old(heapSize) ==> regions == old(regions)
      ensures size > old(heapSize) ==>
                && |regions| == |old(regions)| + 1
                && regions[|old(regions)|].addr == (0x900_0000 + old(heapSize)) % 0x1_0000_0000_0000_0000
                && regions[|old(regions)|].length == (size - old(heapSize) - 1) % 0x1_0000_0000
      ensures Extends(old(Flat()))
    {
      ghost var was := regions;
      if heapSize < size {
        AddMemmap(Wrap64(HEAP_BASE + heapSize), Wrap32(size - heapSize - 1));
        assert regions[|was|..] == [regions[|was|]];
      } else {
        assert regions[|was|..] == [];
      }
      heapSize := size;
    }

    /** The region search of `QueryMemory`; it finds the right one whenever the list is a partition. */
    method QueryRegion(addr: u64) returns (found: bool, region: Regions.Region)
      ensures found ==> region.Has(addr) && region in Regions.Report(Regions.SortByBegin(SpansOf(regions)), 0)
      ensures !found ==> forall r :: r in Regions.Report(Regions.SortByBegin(SpansOf(regions)), 0) ==> !r.Has(addr)
      ensures Regions.Disjoint(SpansOf(regions)) && (forall s :: s in SpansOf(regions) ==> s.End() <= Regions.TOP - 2) ==>
                found && region.perm == if Regions.Mapped(SpansOf(regions), addr) then 0 else -1
    {
      var list := Regions.GetRegions(SpansOf(regions));
      Regions.GetRegionsPartition(SpansOf(regions));
      var i := Regions.FindRegion(list, addr);
      found := i < |list|;
      region := if found then list[i] else Regions.Region(0, 0, -1);
    }

    // -------------------------------------------------------------- copying

    method ReadU8(gva: u64) returns (byte: u8)
      requires Valid() && Backed(regions, gva)
      ensures gva in Flat() && byte == Flat()[gva]
    {
      var value := ReadFromRAM(gva, 1);
      assert Load(Flat(), gva, 1) == [Flat()[gva]];
      byte := value;
    }

    method WriteU8(gva: u64, byte: u8)
      requires Valid() && Backed(regions, gva)
      modifies Buffers()
      ensures Valid() && Flat() == Store(old(Flat()), gva, [byte])
    {
      WriteToRAM(gva, 1, byte);
      assert BytesOf(byte, 1) == [byte];
    }

    /** One round of `ReadBytes`. */
    method ReadInto(gva: u64, ptr: array<u8>, i: nat)
      requires Valid() && Backed(regions, gva) && i < ptr.Length && ptr !in Buffers()
      modifies ptr
      ensures Flat() == old(Flat()) && gva in Flat()
      ensures ptr[..] == old(ptr[..])[i := Flat()[gva]]
    {
      var byte := ReadU8(gva);
      ptr[i] := byte;
    }

    /** One round of `ReadBytes`. */
    method ReadNext(gva: u64, ptr: array<u8>, i: nat, ghost flat: FlatMap)
      requires Valid() && Flat() == flat && i < ptr.Length && ptr !in Buffers()
      requires gva as int + i < 0x1_0000_0000_0000_0000 && Backed(regions, gva + i) && Holds(flat, gva, ptr[..i])
      modifies ptr
      ensures Flat() == flat && Holds(flat, gva, ptr[..i + 1])
    {
      ghost var done := ptr[..i];
      ReadInto(gva + i, ptr, i);
      assert ptr[..i + 1] == done + [flat[gva + i]];
      HoldsNext(flat, gva, done);
    }

    /** `ReadBytes`: one byte at a time into a host buffer. */
    method ReadBytes(gva: u64, ptr: array<u8>, size: nat)
      requires Valid() && size <= ptr.Length && ptr !in Buffers()
      requires BackedRange(regions, gva, size)
      modifies ptr
      ensures Flat() == old(Flat()) && Holds(Flat(), gva, ptr[..size])
    {
      ghost var flat := Flat();
      var i := 0;
      while i < size
        invariant 0 <= i <= size
        invariant Flat() == flat && Holds(flat, gva, ptr[..i])
      {
        BackedAt(regions, gva, size, gva + i);
        ReadNext(gva, ptr, i, flat);
        i := i + 1;
      }
    }

    /** One round of `WriteBytes`. */
    method WriteNext(gva: u64, i: nat, byte: u8, ghost before: FlatMap, ghost done: seq<u8>)
      requires Valid() && gva as int + i < 0x1_0000_0000_0000_0000 && Backed(regions, gva + i)
      requires |done| == i && Flat() == Store(before, gva, done)
      modifies Buffers()
      ensures Valid() && Flat() == Store(before, gva, done + [byte])
    {
      WriteU8(gva + i, byte);
      StoreNext(before, gva, done, byte);
    }

    /** `WriteBytes`: one byte at a time from a host buffer. */
    method WriteBytes(gva: u64, ptr: array<u8>, size: nat)
      requires Valid() && size <= ptr.Length && ptr !in Buffers()
      requires BackedRange(regions, gva, size)
      modifies Buffers()
      ensures Valid() && Flat() == Store(old(Flat()), gva, ptr[..size])
    {
      ghost var before := Flat();
      ghost var bytes := ptr[..size];
      StoreNothing(before, gva);
      var i := 0;
      while i < size
        invariant 0 <= i <= size
        invariant ptr[..size] == bytes && Flat() == Store(before, gva, bytes[..i])
      {
        BackedAt(regions, gva, size, gva + i);
        WriteNext(gva, i, ptr[i], before, bytes[..i]);
        assert bytes[..i + 1] == bytes[..i] + [bytes[i]];
        i := i + 1;
      }
      assert bytes[..size] == bytes;
    }

    /** The copy of `MirrorStack`, through a temporary host buffer. */
    method CopyGuest(dest: u64, src: u64, n: nat)
      requires Valid() && BackedRange(regions, src, n) && BackedRange(regions, dest, n)
      modifies Buffers()
      ensures Valid() && Copied(old(Flat()), Flat(), dest, src, n)
    {
      ghost var before := Flat();
      RangeIsMapped(regions, before, src, n);
      RangeIsMapped(regions, before, dest, n);
      var temp := new u8[n];
      ReadBytes(src, temp, n);
      ghost var bytes := temp[..n];
      WriteBytes(dest, temp, n);
      CopyIsMirror(before, src, dest, bytes);
    }

    /**
     `MirrorStack`: maps the destination, then copies. The destination receives what the source
     held before the call, even where the two ranges overlap.
     */
    method MirrorStack(dest: u64, src: u64, size: u64)
      requires Valid() && BackedRange(regions, src, CopySize(size))
      requires BackedRange(regions + [MirrorRegion(dest, Wrap32(size), pRAM)], dest, CopySize(size))
      modifies this`regions, Buffers()
      ensures Valid() && |regions| == |old(regions)| + 1 && regions[..|old(regions)|] == old(regions)
      ensures regions[|old(regions)|].addr == dest && regions[|old(regions)|].length == size % 0x1_0000_0000
      ensures Copied(old(Flat()), Flat(), dest, src, CopySize(size))
    {
      ghost var was, before := regions, Flat();
      var n := CopySize(size);
      RangeIsMapped(was, before, src, n);
      AddMemmap(dest, Wrap32(size));
      ghost var r, middle := regions[|was|], Flat();
      SameBacking(was, MirrorRegion(dest, Wrap32(size), pRAM), r, dest, n);
      StillBacked(was, r, src, n);
      CopyGuest(dest, src, n);
      CopiedFromBefore(before, middle, Flat(), dest, src, n);
    }

    method UnmapMemory(dest: u64, src: u64, size: u64)
      requires Valid()
      modifies this`regions
      ensures Valid() && regions == Kept(old(regions), dest, Wrap32(size))
    {
      DelMemmap(dest, Wrap32(size));
    }
  }

  // ---------------------------------------------------------------- lists of regions

  function SpansOf(regions: seq<RamBlock>): seq<Regions.Span> {
    seq(|regions|, i requires 0 <= i < |regions| => Regions.Span(regions[i].addr, regions[i].length))
  }

  /** Number of bytes that a copy of `size` moves: the size converted to a host `int`. */
  function CopySize(size: u64): nat {
    var n := Signed32(Wrap32(size));
    if n < 0 then 0 else n
  }

  /** The region lies inside the inclusive range that starts at `addr`. */
  predicate Inside(r: RamBlock, addr: u64, len: u32) {
    addr <= r.addr && End(r) <= Wrap64(addr + len)
  }

  function Kept(regions: seq<RamBlock>, addr: u64, len: u32): seq<RamBlock> {
    if regions == [] then []
    else if Inside(regions[0], addr, len) then Kept(regions[1..], addr, len)
    else [regions[0]] + Kept(regions[1..], addr, len)
  }

  /** The size below 2^31, and nothing for a size that is negative as a host `int`. */
  lemma CopySizes(size: u64)
    ensures CopySize(size) == if size % 0x1_0000_0000 < 0x8000_0000 then size % 0x1_0000_0000 else 0
  {
  }

  /** A region's range in addresses, and that it lies inside a range. */
  lemma Ranges(r: RamBlock, a: int, addr: u64, len: u32)
    ensures Contains(r, a) <==> r.addr <= a <= (r.addr + r.length) % 0x1_0000_0000_0000_0000
    ensures Inside(r, addr, len) <==>
            addr <= r.addr && (r.addr + r.length) % 0x1_0000_0000_0000_0000 <= (addr + len) % 0x1_0000_0000_0000_0000
    ensures IsStraight(addr, len) <==> (addr + len) % 0x1_0000_0000_0000_0000 <= 0x900_0000
  {
  }

  lemma SpanRange(regions: seq<RamBlock>, i: nat, a: int)
    requires i < |regions|
    ensures SpansOf(regions)[i].Has(a) <==>
            regions[i].addr <= a <= (regions[i].addr + regions[i].length) % 0x1_0000_0000_0000_0000
  {
  }

  /** How many of the regions are not inside the range. */
  function KeptCount(regions: seq<RamBlock>, addr: u64, len: u32): nat {
    if regions == [] then 0
    else
      var r := regions[|regions| - 1];
      KeptCount(regions[..|regions| - 1], addr, len)
      + if addr <= r.addr && Wrap64(r.addr + r.length) <= Wrap64(addr + len) then 0 else 1
  }

  lemma {:induction false} KeptSnoc(regions: seq<RamBlock>, r: RamBlock, addr: u64, len: u32)
    ensures Kept(regions + [r], addr, len) == Kept(regions, addr, len) + if Inside(r, addr, len) then [] else [r]
  {
    if regions == [] {
      assert [r][1..] == [];
    } else {
      assert (regions + [r])[1..] == regions[1..] + [r];
      KeptSnoc(regions[1..], r, addr, len);
    }
  }

  lemma {:induction false} KeptLength(regions: seq<RamBlock>, addr: u64, len: u32)
    ensures |Kept(regions, addr, len)| == KeptCount(regions, addr, len)
    decreases |regions|
  {
    if regions != [] {
      var n := |regions| - 1;
      assert regions == regions[..n] + [regions[n]];
      KeptSnoc(regions[..n], regions[n], addr, len);
      KeptLength(regions[..n], addr, len);
    }
  }

  /** Exactly the regions outside the range are kept, each once and in order. */
  lemma {:induction false} KeptExactly(regions: seq<RamBlock>, addr: u64, len: u32, i: nat)
    requires i < |regions| && !(addr <= regions[i].addr && Wrap64(regions[i].addr + regions[i].length) <= Wrap64(addr + len))
    ensures |Kept(regions, addr, len)| == KeptCount(regions, addr, len)
    ensures var k := KeptCount(regions[..i], addr, len);
            k < |Kept(regions, addr, len)| && Kept(regions, addr, len)[k] == regions[i]
    decreases |regions|
  {
    var n := |regions| - 1;
    var front := regions[..n];
    KeptLength(regions, addr, len);
    assert regions == front + [regions[n]];
    KeptSnoc(front, regions[n], addr, len);
    if i < n {
      assert front[..i] == regions[..i];
      KeptExactly(front, addr, len, i);
    } else {
      KeptLength(front, addr, len);
    }
  }

  /** One round of the erasing loop. */
  lemma KeptStep(regions: seq<RamBlock>, i: nat, addr: u64, len: u32)
    requires i < |regions|
    ensures Inside(regions[i], addr, len) ==>
              var erased := regions[..i] + regions[i + 1..];
              erased[..i] + Kept(erased[i..], addr, len) == regions[..i] + Kept(regions[i..], addr, len)
    ensures !Inside(regions[i], addr, len) ==>
              regions[..i + 1] + Kept(regions[i + 1..], addr, len) == regions[..i] + Kept(regions[i..], addr, len)
  {
    assert regions[i..][1..] == regions[i + 1..];
    var erased := regions[..i] + regions[i + 1..];
    assert erased[..i] == regions[..i] && erased[i..] == regions[i + 1..];
  }

  lemma SoundErase(ram: array<u8>, regions: seq<RamBlock>, i: nat)
    requires Sound(ram, regions) && i < |regions|
    ensures Sound(ram, regions[..i] + regions[i + 1..])
  {
  }

  /** An appended region does not change where an address is found that was mapped before. */
  lemma {:induction false} EarlierRegionWins(regions: seq<RamBlock>, r: RamBlock, a: int)
    ensures FirstAt(regions, a) < |regions| ==> FirstAt(regions + [r], a) == FirstAt(regions, a)
  {
    if regions != [] && !Contains(regions[0], a) {
      assert (regions + [r])[1..] == regions[1..] + [r];
      EarlierRegionWins(regions[1..], r, a);
    }
  }

  lemma {:induction false} SameRange(regions: seq<RamBlock>, r: RamBlock, s: RamBlock, a: int)
    requires r.addr == s.addr && r.length == s.length
    ensures FirstAt(regions + [r], a) == FirstAt(regions + [s], a)
  {
    if regions == [] {
      assert [r][1..] == [s][1..] == [];
    } else {
      assert (regions + [r])[1..] == regions[1..] + [r];
      assert (regions + [s])[1..] == regions[1..] + [s];
      SameRange(regions[1..], r, s, a);
    }
  }

  /** A region as `AddMemmap` makes it; which bytes it backs does not depend on the storage. */
  ghost function MirrorRegion(dest: u64, len: u32, storage: array<u8>): RamBlock {
    RamBlock(dest, len, if IsStraight(dest, len) then null else storage)
  }

  ghost predicate BackedRange(regions: seq<RamBlock>, a: int, n: nat) {
    forall k :: a <= k < a + n ==> Backed(regions, k)
  }

  lemma BackedAt(regions: seq<RamBlock>, a: int, n: nat, k: int)
    requires BackedRange(regions, a, n) && a <= k < a + n
    ensures Backed(regions, k) && 0 <= k < 0xffff_ffff_ffff_ffff
  {
  }

  /** The bytes are those of the map from address `a` up. */
  ghost predicate Holds(m: FlatMap, a: int, bytes: seq<u8>) {
    forall i :: 0 <= i < |bytes| ==> HeldByte(m, a, bytes, i)
  }

  ghost predicate HeldByte(m: FlatMap, a: int, bytes: seq<u8>, i: int)
    requires 0 <= i < |bytes|
  {
    a + i in m && bytes[i] == m[a + i]
  }

  lemma HoldsNext(m: FlatMap, a: int, bytes: seq<u8>)
    requires Holds(m, a, bytes) && a + |bytes| in m
    ensures Holds(m, a, bytes + [m[a + |bytes|]])
  {
    var more := bytes + [m[a + |bytes|]];
    forall i | 0 <= i < |more| ensures HeldByte(m, a, more, i) {
      if i < |bytes| { assert HeldByte(m, a, bytes, i); }
    }
  }

  /** `after` has the source's old contents at the destination, and is `before` elsewhere. */
  ghost predicate Copied(before: FlatMap, after: FlatMap, dest: int, src: int, n: nat) {
    && (forall a :: a in before && !(dest <= a < dest + n) ==> a in after && after[a] == before[a])
    && (forall i :: 0 <= i < n ==> CopiedByte(before, after, dest, src, i))
  }

  ghost predicate CopiedByte(before: FlatMap, after: FlatMap, dest: int, src: int, i: int) {
    dest + i in after && src + i in before && after[dest + i] == before[src + i]
  }

  lemma RangeIsMapped(regions: seq<RamBlock>, m: FlatMap, a: int, n: nat)
    requires BackedRange(regions, a, n)
    requires forall k :: Backed(regions, k) ==> k in m
    ensures forall k :: a <= k < a + n ==> k in m
  {
  }

  lemma CopyIsMirror(before: FlatMap, src: int, dest: int, bytes: seq<u8>)
    requires forall a :: src <= a < src + |bytes| ==> a in before
    requires forall a :: dest <= a < dest + |bytes| ==> a in before
    requires Holds(before, src, bytes)
    ensures Copied(before, Store(before, dest, bytes), dest, src, |bytes|)
  {
    forall i | 0 <= i < |bytes| ensures CopiedByte(before, Store(before, dest, bytes), dest, src, i) {
      assert HeldByte(before, src, bytes, i) && dest + i in before;
      StoredByte(before, dest, bytes, i);
    }
    forall a | a in before && !(dest <= a < dest + |bytes|)
      ensures a in Store(before, dest, bytes) && Store(before, dest, bytes)[a] == before[a]
    {
    }
  }

  lemma StoredByte(m: FlatMap, a: int, bytes: seq<u8>, i: nat)
    requires i < |bytes| && a + i in m
    ensures a + i in Store(m, a, bytes) && Store(m, a, bytes)[a + i] == bytes[i]
  {
  }

  lemma CopiedFromBefore(before: FlatMap, middle: FlatMap, after: FlatMap, dest: int, src: int, n: nat)
    requires forall a :: a in before ==> a in middle && middle[a] == before[a]
    requires forall a :: src <= a < src + n ==> a in before
    requires Copied(middle, after, dest, src, n)
    ensures Copied(before, after, dest, src, n)
  {
    forall i | 0 <= i < n ensures CopiedByte(before, after, dest, src, i) {
      assert CopiedByte(middle, after, dest, src, i);
    }
  }

  lemma SameBacking(regions: seq<RamBlock>, r: RamBlock, s: RamBlock, a: int, n: nat)
    requires r.addr == s.addr && r.length == s.length && (r.block == null <==> s.block == null)
    requires BackedRange(regions + [r], a, n)
    ensures BackedRange(regions + [s], a, n)
  {
    forall k | a <= k < a + n ensures Backed(regions + [s], k) {
      BackedAt(regions + [r], a, n, k);
      SameRange(regions, r, s, k);
    }
  }

  lemma StillBacked(regions: seq<RamBlock>, r: RamBlock, a: int, n: nat)
    requires BackedRange(regions, a, n)
    ensures BackedRange(regions + [r], a, n)
  {
    forall k | a <= k < a + n ensures Backed(regions + [r], k) {
      BackedAt(regions, a, n, k);
      EarlierRegionWins(regions, r, k);
    }
  }

  lemma StoreNothing(m: FlatMap, a: int)
    ensures Store(m, a, []) == m
  {
  }

  lemma StoreAppend(m: FlatMap, a: int, first: seq<u8>, second: seq<u8>)
    ensures Store(Store(m, a, first), a + |first|, second) == Store(m, a, first + second)
  {
  }

  lemma StoreNext(m: FlatMap, a: int, bytes: seq<u8>, b: u8)
    ensures Store(Store(m, a, bytes), a + |bytes|, [b]) == Store(m, a, bytes + [b])
  {
  }
}
