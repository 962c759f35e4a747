/**
 The guest address space as a list of inclusive ranges: what `GetRegions` reports about the
 mapped spans, and how growing the heap tiles its range.
 */
module Regions {
  import opened Bits

  const HEAP_BASE: int := 0x900_0000
  const TOP: int := 0xffff_ffff_ffff_ffff

  /** The range of a mapped region: `addr` up to and including `addr + length`. */
  datatype Span = Span(addr: u64, length: u32) {
    function End(): u64 { Wrap64(addr + length) }

    predicate Has(a: int) { addr <= a <= End() }
  }

  /** An entry of the reported list; `perm` is -1 for a gap and 0 for a mapped range. */
  datatype Region = Region(begin: u64, end: u64, perm: int) {
    predicate Has(a: int) { begin <= a <= end }
  }

  // ---------------------------------------------------------------- sorting

  predicate Ascending(s: seq<Span>) {
    forall i: nat, j: nat :: i < j < |s| ==> s[i].addr <= s[j].addr
  }

  /** Inserts before the first strictly later span, so that equal keys keep their order. */
  function Insert(x: Span, s: seq<Span>): seq<Span> {
    if s == [] || x.addr <= s[0].addr then [x] + s else [s[0]] + Insert(x, s[1..])
  }

  function SortByBegin(s: seq<Span>): seq<Span> {
    if s == [] then [] else Insert(s[0], SortByBegin(s[1..]))
  }

  lemma {:induction false} InsertIsSorted(x: Span, s: seq<Span>)
    requires Ascending(s)
    ensures Ascending(Insert(x, s))
  {
    if s == [] || x.addr <= s[0].addr {
    } else {
      InsertIsSorted(x, s[1..]);
      InsertAdds(x, s[1..]);
      var rest := Insert(x, s[1..]);
      forall y | y in rest ensures s[0].addr <= y.addr {
        assert y in multiset(rest);
        assert y == x || y in s[1..];
      }
      AscendingCons(s[0], rest);
    }
  }

  lemma {:induction false} InsertAdds(x: Span, s: seq<Span>)
    ensures multiset(Insert(x, s)) == multiset(s) + multiset{x}
  {
    if s != [] && x.addr > s[0].addr {
      InsertAdds(x, s[1..]);
      assert s == [s[0]] + s[1..];
    }
  }

  lemma AscendingCons(x: Span, s: seq<Span>)
    requires Ascending(s) && forall y :: y in s ==> x.addr <= y.addr
    ensures Ascending([x] + s)
  {
  }

  lemma {:induction false} SortIsSorted(s: seq<Span>)
    ensures Ascending(SortByBegin(s)) && multiset(SortByBegin(s)) == multiset(s)
  {
    if s != [] {
      SortIsSorted(s[1..]);
      InsertIsSorted(s[0], SortByBegin(s[1..]));
      InsertAdds(s[0], SortByBegin(s[1..]));
      assert s == [s[0]] + s[1..];
    }
  }

  // ---------------------------------------------------------------- the reported list

  /** The entries that one mapped span adds, `last` being the next free address. */
  function Entry(s: Span, last: u64): seq<Region> {
    (if last != s.addr then [Region(last, Before(s), -1)] else []) + [Region(s.addr, s.End(), 0)]
  }

  function Before(s: Span): u64 {
    Wrap64(s.addr as int - 1)
  }

  function Next(s: Span): u64 {
    Wrap64(s.End() as int + 1)
  }

  /** What the loop of `GetRegions` appends for the remaining spans. */
  function Report(sorted: seq<Span>, last: u64): seq<Region> {
    if sorted == [] then
      if last != TOP then [Region(last, TOP, -1)] else []
    else
      Entry(sorted[0], last) + Report(sorted[1..], Next(sorted[0]))
  }

  lemma ReportStep(temp: seq<Span>, i: nat, last: u64, done: seq<Region>)
    requires i < |temp|
    ensures var here := [Region(temp[i].addr, temp[i].End(), 0)];
            done + Report(temp[i..], last)
            == (if last != temp[i].addr then done + [Region(last, Before(temp[i]), -1)] + here else done + here)
               + Report(temp[i + 1..], Next(temp[i]))
  {
    assert temp[i..][1..] == temp[i + 1..];
  }

  method GetRegions(spans: seq<Span>) returns (ret: seq<Region>)
    ensures ret == Report(SortByBegin(spans), 0)
  {
    ret := [];
    var temp := SortByBegin(spans);
    var last: u64 := 0;
    var i := 0;
    while i < |temp|
      invariant 0 <= i <= |temp|
      invariant Report(temp, 0) == ret + Report(temp[i..], last)
    {
      var begin: int, end: int := temp[i].addr, temp[i].End();
      ReportStep(temp, i, last, ret);
      if last != begin {
        ret := ret + [Region(last, Wrap64(begin - 1), -1)];
      }
      ret := ret + [Region(begin, end, 0)];
      last := Wrap64(end + 1);
      i := i + 1;
    }
    if last != TOP {
      ret := ret + [Region(last, TOP, -1)];
    }
  }

  predicate Apart(s: Span, t: Span) {
    s.End() < t.addr || t.End() < s.addr
  }

  /** No range wraps, no span is listed twice, and no two spans meet. */
  predicate Disjoint(spans: seq<Span>) {
    && (forall s :: s in spans ==> s.addr + s.length <= TOP && multiset(spans)[s] == 1)
    && (forall s, t :: s in spans && t in spans && s != t ==> Apart(s, t))
  }

  /** Ascending, gap-free and overlap-free from `from` to the top of the address space. */
  predicate Chain(r: seq<Region>, from: int) {
    && |r| > 0 && r[0].begin == from && r[|r| - 1].end == TOP
    && (forall i: nat :: i < |r| ==> r[i].begin <= r[i].end)
    && (forall i: nat :: i + 1 < |r| ==> r[i + 1].begin == r[i].end + 1)
  }

  ghost predicate Mapped(spans: seq<Span>, a: int) {
    exists s :: s in spans && s.Has(a)
  }

  /** The list covers the whole address space once and marks exactly the mapped addresses. */
  ghost predicate Partition(r: seq<Region>, spans: seq<Span>) {
    Chain(r, 0)
    && forall i: nat, a: int :: i < |r| && r[i].Has(a) ==> r[i].perm == (if Mapped(spans, a) then 0 else -1)
  }

  // ---------------------------------------------------------------- the list is a partition

  /** Each range begins after the previous one ends, the first at or after `from`. */
  predicate Ordered(sorted: seq<Span>, from: int) {
    sorted == []
    || (from <= sorted[0].addr && sorted[0].addr + sorted[0].length <= TOP
        && Ordered(sorted[1..], sorted[0].End() + 1))
  }

  lemma TwoPositions(s: seq<Span>, i: nat, j: nat)
    requires i < j < |s| && s[i] == s[j]
    ensures multiset(s)[s[i]] >= 2
  {
    assert s == s[..j] + s[j..];
    assert s[i] in multiset(s[..j]) && s[j] in multiset(s[j..]);
  }

  lemma SameMembers(s: seq<Span>, t: seq<Span>)
    requires multiset(s) == multiset(t)
    ensures forall x :: x in s <==> x in t
  {
    forall x ensures x in s <==> x in t {
      assert x in s <==> x in multiset(s);
      assert x in t <==> x in multiset(t);
    }
  }

  lemma DisjointIsOrdered(spans: seq<Span>)
    requires Disjoint(spans)
    ensures Ordered(SortByBegin(spans), 0)
    ensures forall x :: x in SortByBegin(spans) <==> x in spans
  {
    var sorted := SortByBegin(spans);
    SortIsSorted(spans);
    SameMembers(sorted, spans);
    forall i: nat, j: nat | i < j < |sorted| ensures sorted[i].End() < sorted[j].addr {
      SortedApart(sorted, spans, i, j);
    }
    OrderedFrom(sorted, 0);
  }

  lemma SortedApart(sorted: seq<Span>, spans: seq<Span>, i: nat, j: nat)
    requires Disjoint(spans) && Ascending(sorted) && multiset(sorted) == multiset(spans)
    requires i < j < |sorted|
    ensures sorted[i].End() < sorted[j].addr
  {
    SameMembers(sorted, spans);
    var s, t := sorted[i], sorted[j];
    assert s in spans && t in spans;
    if s == t { TwoPositions(sorted, i, j); }
    assert Apart(s, t) && s.addr <= t.addr && t.End() == t.addr + t.length;
  }

  lemma {:induction false} OrderedFrom(s: seq<Span>, from: int)
    requires forall i: nat, j: nat :: i < j < |s| ==> s[i].End() < s[j].addr
    requires forall x :: x in s ==> x.addr + x.length <= TOP
    requires s != [] ==> from <= s[0].addr
    ensures Ordered(s, from)
  {
    if s != [] {
      OrderedFrom(s[1..], s[0].End() + 1);
    }
  }

  /** Later spans lie at or above `from`; the last one has the greatest end. */
  lemma {:induction false} OrderedBounds(sorted: seq<Span>, from: int)
    requires Ordered(sorted, from)
    ensures forall x :: x in sorted ==>
              from <= x.addr <= x.End() == x.addr + x.length <= sorted[|sorted| - 1].End()
  {
    if sorted != [] {
      OrderedBounds(sorted[1..], sorted[0].End() + 1);
    }
  }

  lemma ChainCons(x: Region, r: seq<Region>)
    requires x.begin <= x.end && Chain(r, x.end + 1)
    ensures Chain([x] + r, x.begin)
  {
  }

  /** Every region of `r` says of its addresses whether they are mapped. */
  ghost predicate Marks(r: seq<Region>, spans: seq<Span>) {
    forall i: nat, a: int :: i < |r| && r[i].Has(a) ==> r[i].perm == (if Mapped(spans, a) then 0 else -1)
  }

  lemma ChainFrom(r: seq<Region>, from: int)
    requires Chain(r, from)
    ensures forall i: nat :: i < |r| ==> r[i].begin >= from
    decreases |r|
  {
    if |r| > 1 {
      var tail := r[1..];
      assert Chain(tail, r[0].end + 1);
      ChainFrom(tail, r[0].end + 1);
      forall i: nat | i < |r| ensures r[i].begin >= from {
        if i > 0 { assert tail[i - 1] == r[i]; }
      }
    }
  }

  lemma MarksCons(x: Region, r: seq<Region>, spans: seq<Span>)
    requires Marks(r, spans)
    requires forall a: int :: x.Has(a) ==> x.perm == (if Mapped(spans, a) then 0 else -1)
    ensures Marks([x] + r, spans)
  {
  }

  /** Marks about the later spans are marks about all of them above the first. */
  lemma MarksWiden(r: seq<Region>, s: Span, rest: seq<Span>)
    requires Marks(r, rest) && Chain(r, s.End() + 1)
    ensures Marks(r, [s] + rest)
  {
    ChainFrom(r, s.End() + 1);
    forall i: nat, a: int | i < |r| && r[i].Has(a)
      ensures r[i].perm == (if Mapped([s] + rest, a) then 0 else -1)
    {
      assert !s.Has(a);
      assert Mapped([s] + rest, a) <==> Mapped(rest, a) by { MappedCons(s, rest, a); }
    }
  }

  lemma MappedCons(s: Span, rest: seq<Span>, a: int)
    ensures Mapped([s] + rest, a) <==> s.Has(a) || Mapped(rest, a)
  {
    if s.Has(a) {
      assert s in [s] + rest;
    }
    if Mapped(rest, a) {
      var t :| t in rest && t.Has(a);
      assert t in [s] + rest;
    }
  }

  /** When no address computation wraps, an entry is the gap before the span, if any, and the span. */
  lemma EntryIs(s: Span, last: u64)
    requires last <= s.addr && s.addr + s.length < TOP
    ensures s.End() == s.addr + s.length && Next(s) == s.End() + 1
    ensures last == s.addr ==> Entry(s, last) == [Region(s.addr, s.End(), 0)]
    ensures last < s.addr ==> Entry(s, last) == [Region(last, s.addr - 1, -1), Region(s.addr, s.End(), 0)]
  {
  }

  lemma EntryChain(s: Span, last: u64, r: seq<Region>)
    requires last <= s.addr && s.addr + s.length < TOP && Chain(r, s.End() + 1)
    ensures Chain(Entry(s, last) + r, last)
  {
    EntryIs(s, last);
    var here := Region(s.addr, s.End(), 0);
    ChainCons(here, r);
    if last < s.addr {
      var gap := Region(last, s.addr - 1, -1);
      ChainCons(gap, [here] + r);
      assert Entry(s, last) + r == [gap] + ([here] + r);
    }
  }

  lemma EntryMarks(s: Span, last: u64, r: seq<Region>, sorted: seq<Span>)
    requires last <= s.addr && s.addr + s.length < TOP && Marks(r, sorted)
    requires s in sorted && forall a: int :: a < s.addr ==> !Mapped(sorted, a)
    ensures Marks(Entry(s, last) + r, sorted)
  {
    EntryIs(s, last);
    var here := Region(s.addr, s.End(), 0);
    forall a: int | here.Has(a) ensures Mapped(sorted, a) { assert s.Has(a); }
    MarksCons(here, r, sorted);
    if last < s.addr {
      var gap := Region(last, s.addr - 1, -1);
      MarksCons(gap, [here] + r, sorted);
      assert Entry(s, last) + r == [gap] + ([here] + r);
    }
  }

  lemma {:induction false} ReportIsChain(sorted: seq<Span>, last: u64)
    requires Ordered(sorted, last) && last < TOP
    requires sorted != [] ==> sorted[|sorted| - 1].End() <= TOP - 2
    ensures Chain(Report(sorted, last), last)
  {
    if sorted != [] {
      var s := sorted[0];
      OrderedBounds(sorted, last);
      assert s in sorted;
      EntryIs(s, last);
      ReportIsChain(sorted[1..], Next(s));
      EntryChain(s, last, Report(sorted[1..], Next(s)));
    }
  }

  lemma {:induction false} ReportMarks(sorted: seq<Span>, last: u64)
    requires Ordered(sorted, last) && last < TOP
    requires sorted != [] ==> sorted[|sorted| - 1].End() <= TOP - 2
    ensures Marks(Report(sorted, last), sorted)
  {
    if sorted != [] {
      var s, rest := sorted[0], sorted[1..];
      OrderedBounds(sorted, last);
      assert s in sorted && sorted == [s] + rest;
      EntryIs(s, last);
      ReportMarks(rest, Next(s));
      ReportIsChain(rest, Next(s));
      MarksWiden(Report(rest, Next(s)), s, rest);
      GapIsFree(sorted, last);
      EntryMarks(s, last, Report(rest, Next(s)), sorted);
    }
  }

  lemma GapIsFree(sorted: seq<Span>, last: u64)
    requires sorted != [] && Ordered(sorted, last)
    ensures forall a: int :: a < sorted[0].addr ==> !Mapped(sorted, a)
  {
    OrderedBounds(sorted[1..], sorted[0].End() + 1);
    forall a: int, t | a < sorted[0].addr && t in sorted ensures !t.Has(a) {
      if t != sorted[0] { assert t in sorted[1..]; }
    }
  }

  /** Every list starts at the next free address, and only a list that ends there is empty. */
  lemma ReportStart(sorted: seq<Span>, last: u64)
    ensures Report(sorted, last) == [] <==> sorted == [] && last == TOP
    ensures Report(sorted, last) != [] ==> Report(sorted, last)[0].begin == last
  {
  }

  lemma ChainTail(r: seq<Region>, tail: seq<Region>, from: int, n: nat)
    requires Chain(r, from) && 0 < n < |r| && tail == r[n..]
    ensures tail[0].begin == r[n - 1].end + 1 && Chain(tail, r[n - 1].end + 1)
  {
    assert r[n - 1 + 1].begin == r[n - 1].end + 1;
    forall i: nat | i + 1 < |tail| ensures tail[i + 1].begin == tail[i].end + 1 {
      assert r[n + i + 1].begin == r[n + i].end + 1;
    }
  }

  /** The first entry of a chain is a range that does not wrap and does not begin before `last`. */
  lemma ChainEntry(s: Span, last: u64, tail: seq<Region>)
    requires Chain(Entry(s, last) + tail, last)
    ensures last <= s.addr && s.addr + s.length <= TOP && s.End() == s.addr + s.length
    ensures tail == [] ==> s.End() == TOP
    ensures tail != [] ==> tail[0].begin == s.End() + 1 && Chain(tail, s.End() + 1)
  {
    var r, n := Entry(s, last) + tail, |Entry(s, last)|;
    assert r[n - 1] == Region(s.addr, s.End(), 0);
    NoWrap(s);
    if last != s.addr {
      assert r[0] == Region(last, Before(s), -1) && r[0 + 1].begin == r[0].end + 1;
    }
    if tail != [] {
      ChainTail(r, tail, last, n);
    }
  }

  lemma NoWrap(s: Span)
    ensures s.End() >= s.addr <==> s.addr + s.length <= TOP
    ensures s.End() >= s.addr ==> s.End() == s.addr + s.length
  {
  }

  /** A list that is a chain comes from ranges in order, none of which reaches the last two addresses. */
  lemma {:induction false} ChainIsOrdered(sorted: seq<Span>, last: u64)
    requires Chain(Report(sorted, last), last)
    ensures Ordered(sorted, last)
    ensures sorted != [] ==> sorted[|sorted| - 1].End() <= TOP - 2
  {
    if sorted != [] {
      var s, rest := sorted[0], sorted[1..];
      ChainEntry(s, last, Report(rest, Next(s)));
      ReportStart(rest, Next(s));
      ChainIsOrdered(rest, Next(s));
    }
  }

  lemma {:induction false} OrderedOnce(sorted: seq<Span>, from: int, x: Span)
    requires Ordered(sorted, from) && x in sorted
    ensures multiset(sorted)[x] == 1
  {
    var s, rest := sorted[0], sorted[1..];
    assert sorted == [s] + rest;
    OrderedBounds(rest, s.End() + 1);
    if x in rest {
      OrderedOnce(rest, s.End() + 1, x);
    }
  }

  lemma {:induction false} OrderedApart(sorted: seq<Span>, from: int, x: Span, y: Span)
    requires Ordered(sorted, from) && x in sorted && y in sorted && x != y
    ensures Apart(x, y)
  {
    var s, rest := sorted[0], sorted[1..];
    assert sorted == [s] + rest;
    OrderedBounds(rest, s.End() + 1);
    if x in rest && y in rest {
      OrderedApart(rest, s.End() + 1, x, y);
    }
  }

  lemma OrderedIsDisjoint(sorted: seq<Span>, spans: seq<Span>)
    requires Ordered(sorted, 0) && multiset(sorted) == multiset(spans)
    ensures Disjoint(spans)
  {
    SameMembers(sorted, spans);
    forall x | x in spans ensures x.addr + x.length <= TOP && multiset(spans)[x] == 1 {
      OrderedBounds(sorted, 0);
      OrderedOnce(sorted, 0, x);
      assert x in sorted;
    }
    forall x, y | x in spans && y in spans && x != y ensures Apart(x, y) {
      OrderedApart(sorted, 0, x, y);
    }
  }

  lemma SameMapped(sorted: seq<Span>, spans: seq<Span>)
    requires forall x :: x in sorted <==> x in spans
    ensures forall a: int :: Mapped(sorted, a) <==> Mapped(spans, a)
  {
    forall a: int ensures Mapped(sorted, a) <==> Mapped(spans, a) {
      if Mapped(sorted, a) { var t :| t in sorted && t.Has(a); assert t in spans; }
      if Mapped(spans, a) { var t :| t in spans && t.Has(a); assert t in sorted; }
    }
  }

  lemma DisjointPartition(spans: seq<Span>)
    requires Disjoint(spans) && forall s :: s in spans ==> s.End() <= TOP - 2
    ensures Partition(Report(SortByBegin(spans), 0), spans)
  {
    var sorted := SortByBegin(spans);
    DisjointIsOrdered(spans);
    assert sorted != [] ==> sorted[|sorted| - 1] in spans;
    ReportIsChain(sorted, 0);
    ReportMarks(sorted, 0);
    SameMapped(sorted, spans);
  }

  /**
   The reported list partitions the address space exactly when no two regions meet and none wraps
   or reaches the last two addresses.
   */
  lemma GetRegionsPartition(spans: seq<Span>)
    ensures Partition(Report(SortByBegin(spans), 0), spans)
            <==> Disjoint(spans) && forall s :: s in spans ==> s.End() <= TOP - 2
  {
    var sorted := SortByBegin(spans);
    SortIsSorted(spans);
    if Partition(Report(sorted, 0), spans) {
      ChainIsOrdered(sorted, 0);
      OrderedIsDisjoint(sorted, spans);
      OrderedBounds(sorted, 0);
      SameMembers(sorted, spans);
    } else if Disjoint(spans) && forall s :: s in spans ==> s.End() <= TOP - 2 {
      DisjointPartition(spans);
    }
  }

  // ---------------------------------------------------------------- looking an address up

  lemma {:induction false} ChainOrder(r: seq<Region>, from: int, i: nat, j: nat)
    requires Chain(r, from) && i < j < |r|
    ensures r[i].end < r[j].begin
    decreases j
  {
    assert r[j - 1 + 1].begin == r[j - 1].end + 1;
    if i < j - 1 { ChainOrder(r, from, i, j - 1); }
  }

  /** A chain has every address from its start up. */
  lemma {:induction false} ChainCovers(r: seq<Region>, from: int, a: int) returns (i: nat)
    requires Chain(r, from) && from <= a <= TOP
    ensures i < |r| && r[i].Has(a)
    decreases |r|
  {
    if a <= r[0].end {
      i := 0;
    } else {
      ChainTail(r, r[1..], from, 1);
      i := ChainCovers(r[1..], r[0].end + 1, a);
      i := i + 1;
    }
  }

  lemma ChainOnce(r: seq<Region>, a: int, i: nat, j: nat)
    requires Chain(r, 0) && i < |r| && j < |r| && r[i].Has(a) && r[j].Has(a)
    ensures i == j
  {
    if i < j { ChainOrder(r, 0, i, j); } else if j < i { ChainOrder(r, 0, j, i); }
  }

  /** The search of `QueryMemory`: the first region that has the address. In a chain there is one, and no other has it. */
  method FindRegion(r: seq<Region>, a: u64) returns (i: nat)
    ensures i <= |r| && (i < |r| ==> r[i].Has(a)) && forall j: nat :: j < i ==> !r[j].Has(a)
    ensures Chain(r, 0) ==> i < |r| && forall j: nat :: j < |r| && r[j].Has(a) ==> j == i
  {
    i := 0;
    while i < |r| && !r[i].Has(a)
      invariant i <= |r| && forall j: nat :: j < i ==> !r[j].Has(a)
    {
      i := i + 1;
    }
    if Chain(r, 0) {
      ghost var k := ChainCovers(r, 0, a);
      forall j: nat | j < |r| && r[j].Has(a) ensures j == i {
        ChainOnce(r, a, i, j);
      }
    }
  }

  // ---------------------------------------------------------------- the heap

  /** The spans that heap requests have added, and the current heap size. */
  datatype Heap = Heap(spans: seq<Span>, size: u64)

  /** `SetHeapSize`: growing maps the difference as one more span; shrinking only records the size. */
  function SetHeapSize(h: Heap, size: u64): Heap {
    if h.size < size then Heap(h.spans + [GrownBy(h.size, size)], size) else Heap(h.spans, size)
  }

  /** The span added when the heap grows; its length is passed as a 32-bit number. */
  function GrownBy(was: u64, size: u64): Span
    requires was < size
  {
    Span(Wrap64(HEAP_BASE + was), Wrap32(size - was - 1))
  }

  /** The heap is tiled now and after each request of the run. */
  predicate TiledThroughout(h: Heap, sizes: seq<u64>)
    decreases |sizes|
  {
    && Tiles(h.spans, HEAP_BASE, HEAP_BASE + h.size)
    && (sizes == [] || TiledThroughout(SetHeapSize(h, sizes[0]), sizes[1..]))
  }

  /** The spans lie end to end and fill the addresses from `from` up to but not including `to`. */
  predicate Tiles(spans: seq<Span>, from: int, to: int) {
    if spans == [] then from == to
    else
      var s := spans[|spans| - 1];
      from <= s.addr && s.addr + s.length < to == s.addr + s.length + 1 <= TOP + 1
      && Tiles(spans[..|spans| - 1], from, s.addr)
  }

  /** A request that neither shrinks the heap nor grows it by more than 32 bits or past the top. */
  predicate Fits(was: u64, size: u64) {
    was <= size <= was + 0x1_0000_0000 && HEAP_BASE + size <= TOP + 1
  }

  predicate FitsRun(was: u64, sizes: seq<u64>)
    decreases |sizes|
  {
    sizes == [] || (Fits(was, sizes[0]) && FitsRun(sizes[0], sizes[1..]))
  }

  /** One request keeps the heap exactly tiled just when it `Fits`. */
  lemma HeapStep(h: Heap, size: u64)
    requires Tiles(h.spans, HEAP_BASE, HEAP_BASE + h.size)
    ensures Tiles(SetHeapSize(h, size).spans, HEAP_BASE, HEAP_BASE + size) <==> Fits(h.size, size)
  {
    if h.size < size {
      var s := GrownBy(h.size, size);
      assert (h.spans + [s])[..|h.spans|] == h.spans;
      if HEAP_BASE + h.size <= TOP {
        assert s.addr == HEAP_BASE + h.size;
      }
    }
  }

  /** Shrinking and growing again maps a range twice, and what is reported is then no partition. */
  lemma RegrownOverlaps(h: Heap)
    requires h == SetHeapSize(SetHeapSize(SetHeapSize(Heap([], 0), 0x2000), 0x1000), 0x2000)
    ensures !Disjoint(h.spans) && !Partition(Report(SortByBegin(h.spans), 0), h.spans)
  {
    var s, t := GrownBy(0, 0x2000), GrownBy(0x1000, 0x2000);
    assert h.spans == [s, t];
    assert s in h.spans && t in h.spans && !Apart(s, t);
    GetRegionsPartition(h.spans);
  }

  /** The spans fill exactly the heap's range after every request of a run just when all of them fit. */
  lemma {:induction false} HeapTiling(h: Heap, sizes: seq<u64>)
    requires Tiles(h.spans, HEAP_BASE, HEAP_BASE + h.size)
    ensures TiledThroughout(h, sizes) <==> FitsRun(h.size, sizes)
    decreases |sizes|
  {
    if sizes != [] {
      var next := SetHeapSize(h, sizes[0]);
      HeapStep(h, sizes[0]);
      if Fits(h.size, sizes[0]) {
        HeapTiling(next, sizes[1..]);
      } else {
        assert !TiledThroughout(next, sizes[1..]);
      }
    }
  }

  /** Tiles cover every address of the range once and no address outside it. */
  lemma {:induction false} TilesCover(spans: seq<Span>, from: int, to: int, a: int)
    requires Tiles(spans, from, to)
    ensures from <= a < to <==> exists i: nat :: i < |spans| && spans[i].Has(a)
    ensures forall i: nat, j: nat :: i < |spans| && j < |spans| && spans[i].Has(a) && spans[j].Has(a) ==> i == j
  {
    if spans != [] {
      var n := |spans| - 1;
      var s, init := spans[n], spans[..n];
      TilesCover(init, from, s.addr, a);
      assert s.End() == s.addr + s.length;
      if s.Has(a) {
        forall i: nat | i < n ensures !spans[i].Has(a) {
          assert init[i] == spans[i];
        }
      } else {
        if i: nat :| i < |init| && init[i].Has(a) {
          assert spans[i].Has(a);
        }
        if i: nat :| i < |spans| && spans[i].Has(a) {
          assert init[i].Has(a);
        }
        forall i: nat, j: nat | i < |spans| && j < |spans| && spans[i].Has(a) && spans[j].Has(a) ensures i == j {
          assert init[i].Has(a) && init[j].Has(a);
        }
      }
    }
  }
}
