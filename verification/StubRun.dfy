/**
 What running a generated stub does, and that the reordered statements never use a temporary, a
 buffer or the response before it is ready or after it is gone.
 */
module StubRun {
  import opened StubGen

  /**
   A running stub: the response's sizes once built; the temporaries declared and the buffers live;
   how many buffers of each kind were fetched, the size fetched with each address and the size
   allocated for each buffer; what was filled, written back and sent; how far the stub got; and
   which of the temporaries for returned handles the service leaves null.
   */
  datatype Run = Run(built: bool, moves: nat, copies: nat, bytes: int, declared: set<nat>, live: set<nat>,
                     fetched: map<int, nat>, sizeOf: map<nat, nat>, room: map<nat, nat>, filled: set<nat>,
                     written: set<nat>, moved: set<nat>, copied: set<nat>, called: bool, guard: nat, returned: bool,
                     nulls: set<nat>)

  datatype Outcome = Running(r: Run) | Stuck

  function Fresh(nulls: set<nat>): Run {
    Run(false, 0, 0, 0, {}, {}, map[], map[], map[], {}, {}, {}, {}, false, 0, false, nulls)
  }

  /** Room in the data area that `GenBuf` sized, clear of the result code. */
  predicate InArea(r: Run, offset: nat, size: nat) {
    r.built && 8 <= offset && offset + size <= 8 + r.bytes
  }

  /** A buffer is passed with the size that was allocated for it right after it. */
  predicate Ready(r: Run, params: seq<Param>, i: nat)
    requires i < |params|
  {
    match params[i]
    case Temp(t) =>
      t in r.declared && (t in r.live ==> t in r.room && i + 1 < |params| && params[i + 1] == Temp(r.room[t]))
    case OutRef(offset, size) => InArea(r, offset, size)
    case _ => true
  }

  /** A copy between guest address `a` and buffer `b` of the size that belongs to both. */
  predicate Copies(r: Run, a: nat, b: nat, z: nat) {
    b in r.live && b in r.room && r.room[b] == z && a in r.sizeOf && r.sizeOf[a] == z
  }

  /** The statement that a null check guards: unless the handle is null, it is sent under an index not used before. */
  function Send(r: Run, s: Stmt): Outcome {
    if s.SetMove? && s.t == r.guard && r.built && s.i < r.moves && s.i !in r.moved then
      Running(r.(guard := 0, moved := if s.t in r.nulls then r.moved else r.moved + {s.i}))
    else if s.SetCopy? && s.t == r.guard && r.built && s.i < r.copies && s.i !in r.copied then
      Running(r.(guard := 0, copied := if s.t in r.nulls then r.copied else r.copied + {s.i}))
    else Stuck
  }

  /** One statement. It is stuck when it is run too early, too late or twice, or with a wrong operand. */
  function Step(r: Run, s: Stmt): Outcome {
    if r.returned then Stuck
    else if r.guard != 0 then Send(r, s)
    else
      match s
      case Declare(t) => if t !in r.declared then Running(r.(declared := r.declared + {t})) else Stuck
      case Fetch(a, kind, index, z) =>
        if z in r.declared && a !in r.declared && index == BufferIndex(r.fetched, kind) then
          Running(r.(declared := r.declared + {a}, fetched := r.fetched[kind := index + 1], sizeOf := r.sizeOf[a := z]))
        else Stuck
      case Alloc(b, z) =>
        if z in r.declared && b !in r.declared
        then Running(r.(declared := r.declared + {b}, live := r.live + {b}, room := r.room[b := z])) else Stuck
      case ReadIn(a, b, z) =>
        if Copies(r, a, b, z) && !r.called && b !in r.filled then Running(r.(filled := r.filled + {b})) else Stuck
      case WriteBack(a, b, z) =>
        if Copies(r, a, b, z) && r.called && b !in r.written then Running(r.(written := r.written + {b})) else Stuck
      case Free(b) => if b in r.live && r.called then Running(r.(live := r.live - {b})) else Stuck
      case DataPointer(t, offset, size) =>
        if t !in r.declared && InArea(r, offset, size) then Running(r.(declared := r.declared + {t})) else Stuck
      case IfNotNull(t) => if t != 0 && t in r.declared && r.called then Running(r.(guard := t)) else Stuck
      case SetMove(_, _) => Stuck
      case SetCopy(_, _) => Stuck
      case GenBuf(m, c, n) => if !r.built then Running(r.(built := true, moves := m, copies := c, bytes := n)) else Stuck
      case Log => Running(r)
      case Call(params) =>
        if r.built && !r.called && forall i: nat :: i < |params| ==> Ready(r, params, i) then Running(r.(called := true)) else Stuck
      case Return(code) => if r.called && r.live == {} && code == 0 then Running(r.(returned := true)) else Stuck
  }

  function Then(o: Outcome, s: Stmt): Outcome {
    if o.Stuck? then Stuck else Step(o.r, s)
  }

  function Execute(o: Outcome, stmts: seq<Stmt>): Outcome
    decreases |stmts|
  {
    if stmts == [] then o else Execute(Then(o, stmts[0]), stmts[1..])
  }

  lemma {:induction false} ExecuteAppend(o: Outcome, a: seq<Stmt>, b: seq<Stmt>)
    ensures Execute(o, a + b) == Execute(Execute(o, a), b)
    decreases |a|
  {
    if a == [] {
      assert a + b == b;
    } else {
      assert (a + b)[1..] == a[1..] + b;
      ExecuteAppend(Then(o, a[0]), a[1..], b);
    }
  }

  lemma ExecuteOne(o: Outcome, s: Stmt)
    ensures Execute(o, [s]) == Then(o, s)
  {
    assert [s][1..] == [];
    assert Execute(Then(o, s), []) == Then(o, s);
  }

  // ---------------------------------------------------------------- blocks of statements

  /** Only the statements for now, and only those for later. */
  function RunPlains(o: Outcome, items: seq<Item>): Outcome {
    Execute(o, Plains(items))
  }

  function RunAfters(o: Outcome, items: seq<Item>): Outcome {
    Execute(o, Afters(items))
  }

  function PlainOf(x: Item): seq<Stmt> {
    if x.Plain? then [x.s] else []
  }

  function AfterOf(x: Item): seq<Stmt> {
    if x.After? then [x.s] else []
  }

  lemma {:induction false} PlainsAppend(a: seq<Item>, b: seq<Item>)
    ensures Plains(a + b) == Plains(a) + Plains(b)
    ensures Afters(a + b) == Afters(a) + Afters(b)
  {
    if a == [] {
      assert a + b == b;
    } else {
      var x, rest := a[0], a[1..];
      assert (a + b)[1..] == rest + b;
      PlainsAppend(rest, b);
      assert (PlainOf(x) + Plains(rest)) + Plains(b) == PlainOf(x) + (Plains(rest) + Plains(b));
      assert (AfterOf(x) + Afters(rest)) + Afters(b) == AfterOf(x) + (Afters(rest) + Afters(b));
    }
  }

  lemma RunAppend(o: Outcome, a: seq<Item>, b: seq<Item>)
    ensures RunPlains(o, a + b) == RunPlains(RunPlains(o, a), b)
    ensures RunAfters(o, a + b) == RunAfters(RunAfters(o, a), b)
  {
    PlainsAppend(a, b);
    ExecuteAppend(o, Plains(a), Plains(b));
    ExecuteAppend(o, Afters(a), Afters(b));
  }

  lemma ItemsOne(x: Item)
    ensures Plains([x]) == if x.Plain? then [x.s] else []
    ensures Afters([x]) == if x.After? then [x.s] else []
  {
    assert [x][1..] == [];
  }

  lemma RunOne(o: Outcome, x: Item)
    ensures RunPlains(o, [x]) == if x.Plain? then Then(o, x.s) else o
    ensures RunAfters(o, [x]) == if x.After? then Then(o, x.s) else o
  {
    ItemsOne(x);
    if x.Plain? || x.After? { ExecuteOne(o, x.s); }
  }

  /** An item more. */
  function NextPlain(o: Outcome, x: Item): Outcome {
    if x.Plain? then Then(o, x.s) else o
  }

  function NextAfter(o: Outcome, x: Item): Outcome {
    if x.After? then Then(o, x.s) else o
  }

  lemma RunSnoc(o: Outcome, a: seq<Item>, x: Item)
    ensures RunPlains(o, a + [x]) == NextPlain(RunPlains(o, a), x)
    ensures RunAfters(o, a + [x]) == NextAfter(RunAfters(o, a), x)
  {
    RunAppend(o, a, [x]);
    RunOne(RunPlains(o, a), x);
    RunOne(RunAfters(o, a), x);
  }

  lemma RunThree(o: Outcome, x: Item, y: Item, z: Item)
    ensures RunPlains(o, [x, y, z]) == NextPlain(NextPlain(NextPlain(o, x), y), z)
    ensures RunAfters(o, [x, y, z]) == NextAfter(NextAfter(NextAfter(o, x), y), z)
  {
    assert [x, y, z] == [x] + [y] + [z];
    RunSnoc(o, [x] + [y], z);
    RunSnoc(o, [x], y);
    RunOne(o, x);
  }

  lemma RunFive(o: Outcome, x: Item, y: Item, z: Item, v: Item, w: Item)
    ensures RunPlains(o, [x, y, z] + [v, w]) == NextPlain(NextPlain(NextPlain(NextPlain(NextPlain(o, x), y), z), v), w)
    ensures RunAfters(o, [x, y, z] + [v, w]) == NextAfter(NextAfter(NextAfter(NextAfter(NextAfter(o, x), y), z), v), w)
  {
    assert [x, y, z] + [v, w] == [x, y, z] + [v] + [w];
    RunSnoc(o, [x, y, z] + [v], w);
    RunSnoc(o, [x, y, z], v);
    RunThree(o, x, y, z);
  }

  // ---------------------------------------------------------------- buffers of a stub

  /** Temporaries one to `n`. */
  function Upto(n: nat): (temps: set<nat>)
    ensures forall t: nat :: t in temps <==> 1 <= t <= n
  {
    if n == 0 then {} else Upto(n - 1) + {n}
  }

  function Allocated(x: Item): set<nat> {
    if x.Plain? && x.s.Alloc? then {x.s.b} else {}
  }

  function WrittenBack(x: Item): set<nat> {
    if x.After? && x.s.WriteBack? then {x.s.b} else {}
  }

  /** The buffers that the statements allocate, and those that they write back. */
  function Buffers(items: seq<Item>): set<nat> {
    if items == [] then {} else Buffers(items[..|items| - 1]) + Allocated(items[|items| - 1])
  }

  function OutBuffers(items: seq<Item>): set<nat> {
    if items == [] then {} else OutBuffers(items[..|items| - 1]) + WrittenBack(items[|items| - 1])
  }

  lemma BuffersSnoc(a: seq<Item>, x: Item)
    ensures Buffers(a + [x]) == Buffers(a) + Allocated(x)
    ensures OutBuffers(a + [x]) == OutBuffers(a) + WrittenBack(x)
  {
    assert (a + [x])[..|a|] == a;
  }

  lemma BuffersThree(a: seq<Item>, x: Item, y: Item, z: Item)
    ensures Buffers(a + [x, y, z]) == Buffers(a) + Allocated(x) + Allocated(y) + Allocated(z)
    ensures OutBuffers(a + [x, y, z]) == OutBuffers(a) + WrittenBack(x) + WrittenBack(y) + WrittenBack(z)
  {
    assert a + [x, y, z] == a + [x] + [y] + [z];
    BuffersSnoc(a + [x] + [y], z);
    BuffersSnoc(a + [x], y);
    BuffersSnoc(a, x);
  }

  lemma BuffersFive(a: seq<Item>, x: Item, y: Item, z: Item, v: Item, w: Item)
    ensures Buffers(a + ([x, y, z] + [v, w])) == Buffers(a) + Allocated(x) + Allocated(y) + Allocated(z) + Allocated(v) + Allocated(w)
    ensures OutBuffers(a + ([x, y, z] + [v, w]))
         == OutBuffers(a) + WrittenBack(x) + WrittenBack(y) + WrittenBack(z) + WrittenBack(v) + WrittenBack(w)
  {
    assert a + ([x, y, z] + [v, w]) == a + [x, y, z] + [v] + [w];
    BuffersSnoc(a + [x, y, z] + [v], w);
    BuffersSnoc(a + [x, y, z], v);
    BuffersThree(a, x, y, z);
  }

  // ---------------------------------------------------------------- handles of a stub

  function MovedTemp(x: Item): seq<nat> {
    if x.After? && x.s.SetMove? then [x.s.t] else []
  }

  function CopiedTemp(x: Item): seq<nat> {
    if x.After? && x.s.SetCopy? then [x.s.t] else []
  }

  /** The temporaries whose handles the statements send, in order. */
  function MoveTemps(items: seq<Item>): seq<nat> {
    if items == [] then [] else MoveTemps(items[..|items| - 1]) + MovedTemp(items[|items| - 1])
  }

  function CopyTemps(items: seq<Item>): seq<nat> {
    if items == [] then [] else CopyTemps(items[..|items| - 1]) + CopiedTemp(items[|items| - 1])
  }

  /** The positions of the temporaries that are not null. */
  function NonNull(temps: seq<nat>, nulls: set<nat>): (sent: set<nat>)
    ensures forall i: nat :: i in sent <==> i < |temps| && temps[i] !in nulls
  {
    if temps == [] then {}
    else
      var n := |temps| - 1;
      NonNull(temps[..n], nulls) + if temps[n] in nulls then {} else {n}
  }

  lemma NonNullNext(temps: seq<nat>, t: nat, nulls: set<nat>)
    ensures NonNull(temps + [t], nulls) == if t in nulls then NonNull(temps, nulls) else NonNull(temps, nulls) + {|temps|}
  {
    assert (temps + [t])[..|temps|] == temps;
  }

  lemma TempsSnoc(a: seq<Item>, x: Item)
    ensures MoveTemps(a + [x]) == MoveTemps(a) + MovedTemp(x) && CopyTemps(a + [x]) == CopyTemps(a) + CopiedTemp(x)
  {
    assert (a + [x])[..|a|] == a;
  }

  lemma TempsThree(a: seq<Item>, x: Item, y: Item, z: Item)
    ensures MoveTemps(a + [x, y, z]) == MoveTemps(a) + MovedTemp(x) + MovedTemp(y) + MovedTemp(z)
    ensures CopyTemps(a + [x, y, z]) == CopyTemps(a) + CopiedTemp(x) + CopiedTemp(y) + CopiedTemp(z)
  {
    assert a + [x, y, z] == a + [x] + [y] + [z];
    TempsSnoc(a + [x] + [y], z);
    TempsSnoc(a + [x], y);
    TempsSnoc(a, x);
  }

  /** Five statements that send nothing. */
  lemma NoTempsFive(a: seq<Item>, x: Item, y: Item, z: Item, v: Item, w: Item)
    requires MovedTemp(x) == MovedTemp(y) == MovedTemp(z) == MovedTemp(v) == MovedTemp(w) == []
    requires CopiedTemp(x) == CopiedTemp(y) == CopiedTemp(z) == CopiedTemp(v) == CopiedTemp(w) == []
    ensures MoveTemps(a + ([x, y, z] + [v, w])) == MoveTemps(a) && CopyTemps(a + ([x, y, z] + [v, w])) == CopyTemps(a)
  {
    assert a + ([x, y, z] + [v, w]) == a + [x, y, z] + [v] + [w];
    TempsSnoc(a + [x, y, z] + [v], w);
    TempsSnoc(a + [x, y, z], v);
    TempsThree(a, x, y, z);
  }

  lemma InBufferSendsNothing(items: seq<Item>, t: nat, kind: int, index: nat)
    ensures MoveTemps(items + InBufferItems(t, kind, index)) == MoveTemps(items)
    ensures CopyTemps(items + InBufferItems(t, kind, index)) == CopyTemps(items)
  {
    NoTempsFive(items, Plain(Declare(t + 2)), Plain(Fetch(t + 1, kind, index, t + 2)),
                Plain(Alloc(t + 3, t + 2)), Plain(ReadIn(t + 1, t + 3, t + 2)), After(Free(t + 3)));
  }

  lemma OutBufferSendsNothing(items: seq<Item>, t: nat, kind: int, index: nat)
    ensures MoveTemps(items + OutBufferItems(t, kind, index)) == MoveTemps(items)
    ensures CopyTemps(items + OutBufferItems(t, kind, index)) == CopyTemps(items)
  {
    NoTempsFive(items, Plain(Declare(t + 2)), Plain(Fetch(t + 1, kind, index, t + 2)),
                Plain(Alloc(t + 3, t + 2)), After(WriteBack(t + 1, t + 3, t + 2)), After(Free(t + 3)));
  }

  lemma HandleSent(items: seq<Item>, t: nat, send: Stmt)
    ensures MoveTemps(items + HandleItems(t, send)) == MoveTemps(items) + MovedTemp(After(send))
    ensures CopyTemps(items + HandleItems(t, send)) == CopyTemps(items) + CopiedTemp(After(send))
  {
    TempsThree(items, Plain(Declare(t)), After(IfNotNull(t)), After(send));
  }

  // ---------------------------------------------------------------- before the call

  /** The three temporaries of a buffer: its address, then its size, then the copy. */
  predicate Kept(q: Run, b: nat) {
    b >= 3 && b in q.room && q.room[b] == b - 1 && b - 2 in q.sizeOf && q.sizeOf[b - 2] == b - 1
  }

  /**
   After statements before the call of run `r`: the temporaries are declared, the buffers live and
   paired with their sizes, and nothing else changed.
   */
  ghost predicate Prepared(q: Run, r: Run, temps: nat, buffers: set<nat>, filled: set<nat>, fetched: map<int, nat>) {
    && q == r.(declared := Upto(temps), live := buffers, filled := filled, fetched := fetched, sizeOf := q.sizeOf, room := q.room)
    && forall b: nat :: b in buffers ==> b <= temps && Kept(q, b)
  }

  /** A response was built and nothing was called yet. */
  predicate Preparing(r: Run) {
    r.built && !r.called && r.guard == 0 && !r.returned
  }

  /** After the common start of a buffer parameter. */
  function Fetched(q: Run, t: nat, kind: int, index: nat): Run {
    q.(declared := Upto(t + 3), live := q.live + {t + 3}, fetched := q.fetched[kind := index + 1],
       sizeOf := q.sizeOf[t + 1 := t + 2], room := q.room[t + 3 := t + 2])
  }

  lemma PrepareFetch(q: Run, t: nat, kind: int, index: nat)
    requires Preparing(q) && q.declared == Upto(t) && index == BufferIndex(q.fetched, kind)
    ensures RunPlains(Running(q), FetchItems(t, kind, index)) == Running(Fetched(q, t, kind, index))
  {
    RunThree(Running(q), Plain(Declare(t + 2)), Plain(Fetch(t + 1, kind, index, t + 2)), Plain(Alloc(t + 3, t + 2)));
    var q1 := q.(declared := Upto(t) + {t + 2});
    assert Step(q, Declare(t + 2)) == Running(q1);
    var q2 := q1.(declared := q1.declared + {t + 1}, fetched := q.fetched[kind := index + 1], sizeOf := q.sizeOf[t + 1 := t + 2]);
    assert Step(q1, Fetch(t + 1, kind, index, t + 2)) == Running(q2);
    assert Upto(t) + {t + 2} + {t + 1} + {t + 3} == Upto(t + 3);
  }

  lemma FetchedIsPrepared(q: Run, r: Run, t: nat, buffers: set<nat>, filled: set<nat>, fetched: map<int, nat>, kind: int, index: nat)
    requires Prepared(q, r, t, buffers, filled, fetched)
    ensures var after := Fetched(q, t, kind, index);
            && Prepared(after, r, t + 3, buffers + {t + 3}, filled, fetched[kind := index + 1])
            && Copies(after, t + 1, t + 3, t + 2)
  {
    var after := Fetched(q, t, kind, index);
    forall b: nat | b in buffers + {t + 3} ensures b <= t + 3 && Kept(after, b) {
      if b != t + 3 {
        assert b in buffers && Kept(q, b);
      }
    }
  }

  lemma RunTwo(o: Outcome, x: Item, y: Item)
    ensures RunPlains(o, [x, y]) == NextPlain(NextPlain(o, x), y)
  {
    assert [x, y] == [x] + [y];
    RunSnoc(o, [x], y);
    RunOne(o, x);
  }

  lemma PrepareInBuffer(q: Run, t: nat, kind: int, index: nat)
    requires Preparing(q) && q.declared == Upto(t) && index == BufferIndex(q.fetched, kind)
    requires Copies(Fetched(q, t, kind, index), t + 1, t + 3, t + 2) && t + 3 !in q.filled
    ensures RunPlains(Running(q), InBufferItems(t, kind, index))
         == Running(Fetched(q, t, kind, index).(filled := q.filled + {t + 3}))
  {
    var last := [Plain(ReadIn(t + 1, t + 3, t + 2)), After(Free(t + 3))];
    RunAppend(Running(q), FetchItems(t, kind, index), last);
    PrepareFetch(q, t, kind, index);
    RunTwo(Running(Fetched(q, t, kind, index)), last[0], last[1]);
  }

  lemma PrepareOutBuffer(q: Run, t: nat, kind: int, index: nat)
    requires Preparing(q) && q.declared == Upto(t) && index == BufferIndex(q.fetched, kind)
    ensures RunPlains(Running(q), OutBufferItems(t, kind, index)) == Running(Fetched(q, t, kind, index))
  {
    var last := [After(WriteBack(t + 1, t + 3, t + 2)), After(Free(t + 3))];
    RunAppend(Running(q), FetchItems(t, kind, index), last);
    PrepareFetch(q, t, kind, index);
    RunTwo(Running(Fetched(q, t, kind, index)), last[0], last[1]);
  }

  /** The statements of a returned handle. */
  function HandleItems(t: nat, send: Stmt): seq<Item> {
    [Plain(Declare(t)), After(IfNotNull(t)), After(send)]
  }

  lemma PrepareHandle(q: Run, t: nat, send: Stmt)
    requires Preparing(q) && q.declared == Upto(t)
    ensures RunPlains(Running(q), HandleItems(t + 1, send)) == Running(q.(declared := Upto(t + 1)))
  {
    RunThree(Running(q), Plain(Declare(t + 1)), After(IfNotNull(t + 1)), After(send));
    assert Upto(t) + {t + 1} == Upto(t + 1);
  }

  lemma PreparePointer(q: Run, t: nat, offset: nat, size: nat)
    requires Preparing(q) && q.declared == Upto(t) && InArea(q, offset, size)
    ensures RunPlains(Running(q), [Plain(DataPointer(t + 1, offset, size))]) == Running(q.(declared := Upto(t + 1)))
  {
    RunOne(Running(q), Plain(DataPointer(t + 1, offset, size)));
    assert Upto(t) + {t + 1} == Upto(t + 1);
  }

  lemma InBufferAllocates(items: seq<Item>, t: nat, kind: int, index: nat)
    ensures Buffers(items + InBufferItems(t, kind, index)) == Buffers(items) + {t + 3}
    ensures OutBuffers(items + InBufferItems(t, kind, index)) == OutBuffers(items)
  {
    BuffersFive(items, Plain(Declare(t + 2)), Plain(Fetch(t + 1, kind, index, t + 2)),
                Plain(Alloc(t + 3, t + 2)), Plain(ReadIn(t + 1, t + 3, t + 2)), After(Free(t + 3)));
  }

  lemma OutBufferAllocates(items: seq<Item>, t: nat, kind: int, index: nat)
    ensures Buffers(items + OutBufferItems(t, kind, index)) == Buffers(items) + {t + 3}
    ensures OutBuffers(items + OutBufferItems(t, kind, index)) == OutBuffers(items) + {t + 3}
  {
    BuffersFive(items, Plain(Declare(t + 2)), Plain(Fetch(t + 1, kind, index, t + 2)),
                Plain(Alloc(t + 3, t + 2)), After(WriteBack(t + 1, t + 3, t + 2)), After(Free(t + 3)));
  }

  lemma HandleAllocatesNothing(items: seq<Item>, t: nat, send: Stmt)
    requires !send.WriteBack?
    ensures Buffers(items + HandleItems(t, send)) == Buffers(items)
    ensures OutBuffers(items + HandleItems(t, send)) == OutBuffers(items)
  {
    BuffersThree(items, Plain(Declare(t)), After(IfNotNull(t)), After(send));
  }

  /** Buffers are temporaries that exist, and only buffers are written back. */
  ghost predicate Tidy(items: seq<Item>, temps: nat) {
    Buffers(items) <= Upto(temps) && OutBuffers(items) <= Buffers(items)
  }

  /** The run `q` is what the statements generated so far make of `r` before the call. */
  ghost predicate Prepares(q: Run, r: Run, items: seq<Item>, temps: nat, fetched: map<int, nat>) {
    && Tidy(items, temps) && RunPlains(Running(r), items) == Running(q)
    && Prepared(q, r, temps, Buffers(items), Buffers(items) - OutBuffers(items), fetched)
  }

  lemma PreparesInBuffer(q: Run, r: Run, items: seq<Item>, t: nat, fetched: map<int, nat>, kind: int) returns (after: Run)
    requires Preparing(r) && Prepares(q, r, items, t, fetched)
    ensures var index := BufferIndex(fetched, kind);
            Prepares(after, r, items + InBufferItems(t, kind, index), t + 3, fetched[kind := index + 1])
  {
    var index, buffers, outs := BufferIndex(fetched, kind), Buffers(items), OutBuffers(items);
    FetchedIsPrepared(q, r, t, buffers, buffers - outs, fetched, kind, index);
    PrepareInBuffer(q, t, kind, index);
    InBufferAllocates(items, t, kind, index);
    RunAppend(Running(r), items, InBufferItems(t, kind, index));
    var b: nat := t + 3;
    assert b !in outs && buffers - outs + {b} == (buffers + {b}) - outs;
    after := Fetched(q, t, kind, index).(filled := q.filled + {t + 3});
    SameKept(Fetched(q, t, kind, index), after, buffers + {t + 3});
  }

  /** Whether buffers are kept does not depend on what was filled or declared. */
  lemma SameKept(q: Run, after: Run, buffers: set<nat>)
    requires after.sizeOf == q.sizeOf && after.room == q.room
    requires forall b: nat :: b in buffers ==> Kept(q, b)
    ensures forall b: nat :: b in buffers ==> Kept(after, b)
  {
  }

  lemma PreparesOutBuffer(q: Run, r: Run, items: seq<Item>, t: nat, fetched: map<int, nat>, kind: int) returns (after: Run)
    requires Preparing(r) && Prepares(q, r, items, t, fetched)
    ensures var index := BufferIndex(fetched, kind);
            Prepares(after, r, items + OutBufferItems(t, kind, index), t + 3, fetched[kind := index + 1])
  {
    var index, buffers, outs := BufferIndex(fetched, kind), Buffers(items), OutBuffers(items);
    FetchedIsPrepared(q, r, t, buffers, buffers - outs, fetched, kind, index);
    PrepareOutBuffer(q, t, kind, index);
    OutBufferAllocates(items, t, kind, index);
    RunAppend(Running(r), items, OutBufferItems(t, kind, index));
    var b: nat := t + 3;
    assert b !in buffers && buffers - outs == (buffers + {b}) - (outs + {b});
    after := Fetched(q, t, kind, index);
  }

  lemma PreparesHandle(q: Run, r: Run, items: seq<Item>, t: nat, fetched: map<int, nat>, send: Stmt) returns (after: Run)
    requires Preparing(r) && Prepares(q, r, items, t, fetched) && !send.WriteBack?
    ensures Prepares(after, r, items + HandleItems(t + 1, send), t + 1, fetched)
  {
    PrepareHandle(q, t, send);
    HandleAllocatesNothing(items, t + 1, send);
    RunAppend(Running(r), items, HandleItems(t + 1, send));
    after := q.(declared := Upto(t + 1));
    SameKept(q, after, Buffers(items));
  }

  lemma PreparesPointer(q: Run, r: Run, items: seq<Item>, t: nat, fetched: map<int, nat>, offset: nat, size: nat) returns (after: Run)
    requires Preparing(r) && Prepares(q, r, items, t, fetched) && InArea(r, offset, size)
    ensures Prepares(after, r, items + [Plain(DataPointer(t + 1, offset, size))], t + 1, fetched)
  {
    PreparePointer(q, t, offset, size);
    BuffersSnoc(items, Plain(DataPointer(t + 1, offset, size)));
    RunAppend(Running(r), items, [Plain(DataPointer(t + 1, offset, size))]);
    after := q.(declared := Upto(t + 1));
    SameKept(q, after, Buffers(items));
  }

  lemma PreparesInput(types: Types, q: Run, r: Run, g: Gen, spec: Spec) returns (after: Run)
    requires Acyclic(types) && (IsData(spec) ==> Alignment(types, spec) > 0)
    requires Preparing(r) && Prepares(q, r, g.items, g.temps, g.bufOffs)
    ensures var h := AddInput(types, g, spec); Prepares(after, r, h.items, h.temps, h.bufOffs)
  {
    if spec.Array? || spec.Buffer? {
      InBufferAdded(types, g, spec);
      after := PreparesInBuffer(q, r, g.items, g.temps, g.bufOffs, spec.kind);
    } else {
      after := q;
      NothingAdded(types, g, spec);
    }
  }

  lemma InBufferAdded(types: Types, g: Gen, spec: Spec)
    requires Acyclic(types) && (spec.Array? || spec.Buffer?)
    ensures var h, index := AddInput(types, g, spec), BufferIndex(g.bufOffs, spec.kind);
            && h.items == g.items + InBufferItems(g.temps, spec.kind, index) && h.temps == g.temps + 3
            && h.bufOffs == g.bufOffs[spec.kind := index + 1]
  {
  }

  lemma NothingAdded(types: Types, g: Gen, spec: Spec)
    requires Acyclic(types) && !spec.Array? && !spec.Buffer? && (IsData(spec) ==> Alignment(types, spec) > 0)
    ensures var h := AddInput(types, g, spec); h.items == g.items && h.temps == g.temps && h.bufOffs == g.bufOffs
  {
  }

  lemma OutBufferAdds(types: Types, g: Gen, spec: Spec)
    requires Acyclic(types) && (spec.Array? || spec.Buffer?)
    ensures var h, index := AddOutput(types, g, spec), BufferIndex(g.bufOffs, spec.kind);
            && h.items == g.items + OutBufferItems(g.temps, spec.kind, index) && h.temps == g.temps + 3
            && h.bufOffs == g.bufOffs[spec.kind := index + 1]
  {
  }

  lemma PreparesOutput(types: Types, q: Run, r: Run, g: Gen, spec: Spec) returns (after: Run)
    requires Acyclic(types) && !IsPid(spec) && (IsData(spec) ==> Alignment(types, spec) > 0)
    requires Preparing(r) && Prepares(q, r, g.items, g.temps, g.bufOffs)
    requires g.offset >= 8 && AddOutput(types, g, spec).offset <= 8 + r.bytes
    ensures var h := AddOutput(types, g, spec); Prepares(after, r, h.items, h.temps, h.bufOffs)
  {
    if spec.Array? || spec.Buffer? {
      OutBufferAdds(types, g, spec);
      after := PreparesCopied(q, r, g, spec.kind, AddOutput(types, g, spec));
    } else if spec.Object? || spec.IpcService? {
      after := PreparesReturned(types, q, r, g, spec);
    } else {
      after := PreparesField(types, q, r, g, spec);
    }
  }

  lemma PreparesCopied(q: Run, r: Run, g: Gen, kind: int, h: Gen) returns (after: Run)
    requires Preparing(r) && Prepares(q, r, g.items, g.temps, g.bufOffs)
    requires var index := BufferIndex(g.bufOffs, kind);
             && h.items == g.items + OutBufferItems(g.temps, kind, index) && h.temps == g.temps + 3
             && h.bufOffs == g.bufOffs[kind := index + 1]
    ensures Prepares(after, r, h.items, h.temps, h.bufOffs)
  {
    after := PreparesOutBuffer(q, r, g.items, g.temps, g.bufOffs, kind);
  }

  lemma PreparesReturned(types: Types, q: Run, r: Run, g: Gen, spec: Spec) returns (after: Run)
    requires Acyclic(types) && (spec.Object? || spec.IpcService?) && Preparing(r) && Prepares(q, r, g.items, g.temps, g.bufOffs)
    ensures var h := AddOutput(types, g, spec); Prepares(after, r, h.items, h.temps, h.bufOffs)
  {
    var send := if spec.Object? then SetMove(g.moves, g.temps + 1) else SetCopy(g.copies, g.temps + 1);
    after := PreparesHandle(q, r, g.items, g.temps, g.bufOffs, send);
  }

  lemma PreparesField(types: Types, q: Run, r: Run, g: Gen, spec: Spec) returns (after: Run)
    requires Acyclic(types) && IsData(spec) && Alignment(types, spec) > 0
    requires Preparing(r) && Prepares(q, r, g.items, g.temps, g.bufOffs)
    requires g.offset >= 8 && AddOutput(types, g, spec).offset <= 8 + r.bytes
    ensures var h := AddOutput(types, g, spec); Prepares(after, r, h.items, h.temps, h.bufOffs)
  {
    after := q;
    FieldItems(types, g, spec);
    if IsPointerType(types, DataElem(spec)) {
      var f := Place(types, g, spec);
      after := PreparesPointer(q, r, g.items, g.temps, g.bufOffs, f.offset, f.size);
    }
  }

  /** A data output adds one statement if it is passed by pointer, and none otherwise. */
  lemma FieldItems(types: Types, g: Gen, spec: Spec)
    requires Acyclic(types) && IsData(spec) && Alignment(types, spec) > 0
    ensures var f, after := Place(types, g, spec), AddOutput(types, g, spec);
            && f.offset >= g.offset && after.offset == f.offset + f.size && after.bufOffs == g.bufOffs
            && after.moves == g.moves && after.copies == g.copies
            && if IsPointerType(types, DataElem(spec))
               then after.items == g.items + [Plain(DataPointer(g.temps + 1, f.offset, f.size))] && after.temps == g.temps + 1
               else after.items == g.items && after.temps == g.temps
  {
  }

  /** No statement was run yet, except that the response may have been built. */
  predicate Unstarted(r: Run) {
    r.declared == {} && r.live == {} && r.filled == {} && r.fetched == map[]
  }

  lemma {:induction false} InputsPrepare(types: Types, r: Run, inputs: seq<Spec>) returns (q: Run)
    requires Acyclic(types) && Aligned(types, inputs) && Preparing(r) && Unstarted(r)
    ensures var g := Inputs(types, inputs); Prepares(q, r, g.items, g.temps, g.bufOffs)
    decreases |inputs|
  {
    if inputs != [] {
      q := InputsPrepare(types, r, inputs[..|inputs| - 1]);
      q := PreparesInput(types, q, r, Inputs(types, inputs[..|inputs| - 1]), inputs[|inputs| - 1]);
    } else {
      assert Plains([]) == [];
      q := r;
    }
  }

  /** An output parameter only adds. */
  lemma OutputGrows(types: Types, g: Gen, spec: Spec)
    requires Acyclic(types) && !IsPid(spec) && (IsData(spec) ==> Alignment(types, spec) > 0)
    ensures var after := AddOutput(types, g, spec);
            g.temps <= after.temps && g.offset <= after.offset && g.moves <= after.moves && g.copies <= after.copies
  {
  }

  lemma {:induction false} OffsetFromEight(types: Types, g0: Gen, outputs: seq<Spec>)
    requires Acyclic(types) && Aligned(types, outputs) && NoPid(outputs)
    ensures Outputs(types, g0, outputs).offset >= 8
    decreases |outputs|
  {
    if outputs != [] {
      OffsetFromEight(types, g0, outputs[..|outputs| - 1]);
      OutputGrows(types, Outputs(types, g0, outputs[..|outputs| - 1]), outputs[|outputs| - 1]);
    }
  }

  lemma {:induction false} OutputsPrepare(types: Types, q0: Run, r: Run, g0: Gen, outputs: seq<Spec>) returns (q: Run)
    requires Acyclic(types) && Aligned(types, outputs) && NoPid(outputs)
    requires Preparing(r) && Prepares(q0, r, g0.items, g0.temps, g0.bufOffs) && Outputs(types, g0, outputs).offset <= 8 + r.bytes
    ensures var g := Outputs(types, g0, outputs); Prepares(q, r, g.items, g.temps, g.bufOffs)
    decreases |outputs|
  {
    q := q0;
    if outputs != [] {
      var front := outputs[..|outputs| - 1];
      OutputGrows(types, Outputs(types, g0, front), outputs[|outputs| - 1]);
      OffsetFromEight(types, g0, front);
      q := OutputsPrepare(types, q0, r, g0, front);
      q := PreparesOutput(types, q, r, Outputs(types, g0, front), outputs[|outputs| - 1]);
    }
  }

  // ---------------------------------------------------------------- the call

  /** An argument is a temporary that exists or lies in the data area, and a buffer is followed by its size. */
  ghost predicate ParamReady(r: Run, items: seq<Item>, temps: nat, params: seq<Param>, i: nat)
    requires i < |params|
  {
    match params[i]
    case Temp(t) => 1 <= t <= temps && (t in Buffers(items) ==> i + 1 < |params| && params[i + 1] == Temp(t - 1))
    case OutRef(offset, size) => InArea(r, offset, size)
    case _ => true
  }

  ghost predicate ParamsReady(r: Run, g: Gen) {
    forall i: nat :: i < |g.params| ==> ParamReady(r, g.items, g.temps, g.params, i)
  }

  /** More arguments, the new buffers being those that follow the temporaries so far. */
  lemma ParamsGrow(r: Run, g: Gen, more: seq<Param>, after: Gen)
    requires ParamsReady(r, g) && after.params == g.params + more && g.temps <= after.temps
    requires forall t: nat :: t <= g.temps && t in Buffers(after.items) ==> t in Buffers(g.items)
    requires forall k: nat :: k < |more| ==> ParamReady(r, after.items, after.temps, more, k)
    ensures ParamsReady(r, after)
  {
    forall i: nat | i < |after.params| ensures ParamReady(r, after.items, after.temps, after.params, i) {
      if i < |g.params| {
        assert ParamReady(r, g.items, g.temps, g.params, i);
      } else {
        assert ParamReady(r, after.items, after.temps, more, i - |g.params|);
      }
    }
  }

  lemma InBufferParamReady(types: Types, r: Run, g: Gen, spec: Spec)
    requires Acyclic(types) && (spec.Array? || spec.Buffer?) && ParamsReady(r, g) && Tidy(g.items, g.temps)
    ensures ParamsReady(r, AddInput(types, g, spec))
  {
    InBufferAllocates(g.items, g.temps, spec.kind, BufferIndex(g.bufOffs, spec.kind));
    ParamsGrow(r, g, [Temp(g.temps + 3), Temp(g.temps + 2)], AddInput(types, g, spec));
  }

  lemma InputParamReady(types: Types, r: Run, g: Gen, spec: Spec)
    requires Acyclic(types) && (IsData(spec) ==> Alignment(types, spec) > 0)
    requires ParamsReady(r, g) && Tidy(g.items, g.temps)
    ensures ParamsReady(r, AddInput(types, g, spec))
  {
    if spec.Array? || spec.Buffer? {
      InBufferParamReady(types, r, g, spec);
    } else {
      var after := AddInput(types, g, spec);
      NothingAdded(types, g, spec);
      ParamsGrow(r, g, after.params[|g.params|..], after);
    }
  }

  lemma {:induction false} InputParamsReady(types: Types, r: Run, inputs: seq<Spec>)
    requires Acyclic(types) && Aligned(types, inputs)
    ensures ParamsReady(r, Inputs(types, inputs))
    decreases |inputs|
  {
    if inputs != [] {
      InputParamsReady(types, r, inputs[..|inputs| - 1]);
      InputsTidy(types, inputs[..|inputs| - 1]);
      InputParamReady(types, r, Inputs(types, inputs[..|inputs| - 1]), inputs[|inputs| - 1]);
    }
  }

  lemma OutBufferParamReady(types: Types, r: Run, g: Gen, spec: Spec)
    requires Acyclic(types) && (spec.Array? || spec.Buffer?) && ParamsReady(r, g) && Tidy(g.items, g.temps)
    ensures ParamsReady(r, AddOutput(types, g, spec))
  {
    OutBufferAllocates(g.items, g.temps, spec.kind, BufferIndex(g.bufOffs, spec.kind));
    ParamsGrow(r, g, [Temp(g.temps + 3), Temp(g.temps + 2)], AddOutput(types, g, spec));
  }

  lemma HandleParamReady(types: Types, r: Run, g: Gen, spec: Spec)
    requires Acyclic(types) && (spec.Object? || spec.IpcService?) && ParamsReady(r, g) && Tidy(g.items, g.temps)
    ensures ParamsReady(r, AddOutput(types, g, spec))
  {
    var send := if spec.Object? then SetMove(g.moves, g.temps + 1) else SetCopy(g.copies, g.temps + 1);
    HandleAllocatesNothing(g.items, g.temps + 1, send);
    assert AddOutput(types, g, spec).items == g.items + HandleItems(g.temps + 1, send);
    ParamsGrow(r, g, [Temp(g.temps + 1)], AddOutput(types, g, spec));
  }

  lemma FieldParamReady(types: Types, r: Run, g: Gen, spec: Spec)
    requires Acyclic(types) && IsData(spec) && Alignment(types, spec) > 0
    requires r.built && ParamsReady(r, g) && Tidy(g.items, g.temps)
    requires g.offset >= 8 && AddOutput(types, g, spec).offset <= 8 + r.bytes
    ensures ParamsReady(r, AddOutput(types, g, spec))
  {
    var f := Place(types, g, spec);
    FieldItems(types, g, spec);
    if IsPointerType(types, DataElem(spec)) {
      BuffersSnoc(g.items, Plain(DataPointer(g.temps + 1, f.offset, f.size)));
      ParamsGrow(r, g, [Temp(g.temps + 1)], AddOutput(types, g, spec));
    } else {
      ParamsGrow(r, g, [OutRef(f.offset, f.size)], AddOutput(types, g, spec));
    }
  }

  lemma {:induction false} OutputParamsReady(types: Types, r: Run, g0: Gen, outputs: seq<Spec>)
    requires Acyclic(types) && Aligned(types, outputs) && NoPid(outputs)
    requires r.built && ParamsReady(r, g0) && Tidy(g0.items, g0.temps) && Outputs(types, g0, outputs).offset <= 8 + r.bytes
    ensures ParamsReady(r, Outputs(types, g0, outputs))
    decreases |outputs|
  {
    if outputs != [] {
      var front, spec := outputs[..|outputs| - 1], outputs[|outputs| - 1];
      var g := Outputs(types, g0, front);
      OutputGrows(types, g, spec);
      OffsetFromEight(types, g0, front);
      OutputParamsReady(types, r, g0, front);
      OutputsTidy(types, g0, front);
      if spec.Array? || spec.Buffer? {
        OutBufferParamReady(types, r, g, spec);
      } else if spec.Object? || spec.IpcService? {
        HandleParamReady(types, r, g, spec);
      } else {
        FieldParamReady(types, r, g, spec);
      }
    }
  }

  // ---------------------------------------------------------------- after the call

  /** After the statements for later: buffers written back and freed, handles sent. */
  function Finished(r: Run, items: seq<Item>): Run {
    r.(live := r.live - Buffers(items), written := OutBuffers(items),
       moved := NonNull(MoveTemps(items), r.nulls), copied := NonNull(CopyTemps(items), r.nulls))
  }

  /** The service returned, and nothing was sent or written back yet. */
  predicate Finishing(r: Run) {
    r.built && r.called && r.guard == 0 && !r.returned && r.written == {} && r.moved == {} && r.copied == {}
  }

  /** The statements generated so far run after the call. */
  ghost predicate Finishes(r: Run, items: seq<Item>, moves: nat, copies: nat) {
    RunAfters(Running(r), items) == Running(Finished(r, items)) && |MoveTemps(items)| == moves && |CopyTemps(items)| == copies
  }

  /** Temporaries up to `t` are declared, and the buffers of the statements are live and paired with their sizes. */
  ghost predicate Holds(r: Run, items: seq<Item>, t: nat) {
    Upto(t) <= r.declared && Buffers(items) <= r.live && forall b: nat :: b in Buffers(items) ==> Kept(r, b)
  }

  lemma FreeBlock(now: Run, t: nat, kind: int, index: nat)
    requires now.called && now.guard == 0 && !now.returned && t + 3 in now.live
    ensures RunAfters(Running(now), InBufferItems(t, kind, index)) == Running(now.(live := now.live - {t + 3}))
  {
    RunFive(Running(now), Plain(Declare(t + 2)), Plain(Fetch(t + 1, kind, index, t + 2)),
            Plain(Alloc(t + 3, t + 2)), Plain(ReadIn(t + 1, t + 3, t + 2)), After(Free(t + 3)));
  }

  lemma WriteBackBlock(now: Run, t: nat, kind: int, index: nat)
    requires now.called && now.guard == 0 && !now.returned && Copies(now, t + 1, t + 3, t + 2) && t + 3 !in now.written
    ensures RunAfters(Running(now), OutBufferItems(t, kind, index))
         == Running(now.(live := now.live - {t + 3}, written := now.written + {t + 3}))
  {
    RunFive(Running(now), Plain(Declare(t + 2)), Plain(Fetch(t + 1, kind, index, t + 2)),
            Plain(Alloc(t + 3, t + 2)), After(WriteBack(t + 1, t + 3, t + 2)), After(Free(t + 3)));
  }

  lemma SendBlock(now: Run, t: nat, send: Stmt)
    requires now.called && now.guard == 0 && !now.returned && t != 0 && t in now.declared
    ensures RunAfters(Running(now), HandleItems(t, send)) == Send(now.(guard := t), send)
  {
    RunThree(Running(now), Plain(Declare(t)), After(IfNotNull(t)), After(send));
  }

  /** The run when these buffers are done with and the same handles are sent. */
  lemma FinishedWith(r: Run, items: seq<Item>, after: seq<Item>, buffers: set<nat>, written: set<nat>)
    requires MoveTemps(after) == MoveTemps(items) && CopyTemps(after) == CopyTemps(items)
    requires Buffers(after) == buffers && OutBuffers(after) == written
    ensures Finished(r, after) == Finished(r, items).(live := r.live - buffers, written := written)
  {
  }

  lemma FinishInBuffer(r: Run, items: seq<Item>, t: nat, kind: int, index: nat, moves: nat, copies: nat)
    requires Finishing(r) && Finishes(r, items, moves, copies) && Tidy(items, t)
    requires Holds(r, items + InBufferItems(t, kind, index), t + 3)
    ensures Finishes(r, items + InBufferItems(t, kind, index), moves, copies)
  {
    var now, block := Finished(r, items), InBufferItems(t, kind, index);
    InBufferAllocates(items, t, kind, index);
    InBufferSendsNothing(items, t, kind, index);
    RunAppend(Running(r), items, block);
    assert t + 3 in r.live && t + 3 !in Buffers(items);
    FreeBlock(now, t, kind, index);
    assert r.live - Buffers(items) - {t + 3} == r.live - (Buffers(items) + {t + 3});
    FinishedWith(r, items, items + block, Buffers(items) + {t + 3}, OutBuffers(items));
  }

  lemma FinishOutBuffer(r: Run, items: seq<Item>, t: nat, kind: int, index: nat, moves: nat, copies: nat)
    requires Finishing(r) && Finishes(r, items, moves, copies) && Tidy(items, t)
    requires Holds(r, items + OutBufferItems(t, kind, index), t + 3)
    ensures Finishes(r, items + OutBufferItems(t, kind, index), moves, copies)
  {
    OutBufferAllocates(items, t, kind, index);
    assert t + 3 in r.live && Kept(r, t + 3);
    OutBufferSendsNothing(items, t, kind, index);
    OutBufferRuns(r, items, t, kind, index);
    FinishedWith(r, items, items + OutBufferItems(t, kind, index), Buffers(items) + {t + 3}, OutBuffers(items) + {t + 3});
  }

  lemma OutBufferRuns(r: Run, items: seq<Item>, t: nat, kind: int, index: nat)
    requires Finishing(r) && RunAfters(Running(r), items) == Running(Finished(r, items)) && Tidy(items, t)
    requires t + 3 in r.live && Kept(r, t + 3)
    ensures RunAfters(Running(r), items + OutBufferItems(t, kind, index))
         == Running(Finished(r, items).(live := r.live - (Buffers(items) + {t + 3}), written := OutBuffers(items) + {t + 3}))
  {
    RunAppend(Running(r), items, OutBufferItems(t, kind, index));
    assert t + 3 !in Buffers(items) && t + 3 !in OutBuffers(items);
    WriteBackBlock(Finished(r, items), t, kind, index);
    assert r.live - Buffers(items) - {t + 3} == r.live - (Buffers(items) + {t + 3});
  }

  /** The run when the buffers are done with and these handles are sent. */
  lemma FinishedBy(r: Run, items: seq<Item>, after: seq<Item>, moved: set<nat>, copied: set<nat>)
    requires Buffers(after) == Buffers(items) && OutBuffers(after) == OutBuffers(items)
    requires NonNull(MoveTemps(after), r.nulls) == moved && NonNull(CopyTemps(after), r.nulls) == copied
    ensures Finished(r, after) == Finished(r, items).(moved := moved, copied := copied)
  {
  }

  lemma SendMove(now: Run, t: nat, i: nat)
    requires now.built && i < now.moves && i !in now.moved && now.guard == 0
    ensures Send(now.(guard := t), SetMove(i, t)) == Running(now.(moved := if t in now.nulls then now.moved else now.moved + {i}))
  {
  }

  lemma SendCopy(now: Run, t: nat, i: nat)
    requires now.built && i < now.copies && i !in now.copied && now.guard == 0
    ensures Send(now.(guard := t), SetCopy(i, t)) == Running(now.(copied := if t in now.nulls then now.copied else now.copied + {i}))
  {
  }

  /** After the statements of a returned handle. */
  lemma HandleRuns(r: Run, items: seq<Item>, t: nat, send: Stmt)
    requires Finishing(r) && RunAfters(Running(r), items) == Running(Finished(r, items)) && t != 0 && t in r.declared
    ensures RunAfters(Running(r), items + HandleItems(t, send)) == Send(Finished(r, items).(guard := t), send)
  {
    RunAppend(Running(r), items, HandleItems(t, send));
    SendBlock(Finished(r, items), t, send);
  }

  /** The statements `more` allocate what `items` do, and send these handles. */
  predicate Extends(items: seq<Item>, more: seq<Item>, moved: seq<nat>, copied: seq<nat>) {
    && Buffers(more) == Buffers(items) && OutBuffers(more) == OutBuffers(items)
    && MoveTemps(more) == moved && CopyTemps(more) == copied
  }

  lemma MoveSent(r: Run, items: seq<Item>, more: seq<Item>, t: nat, i: nat)
    requires Finishing(r) && |MoveTemps(items)| == i < r.moves
    requires Extends(items, more, MoveTemps(items) + [t], CopyTemps(items))
    ensures Send(Finished(r, items).(guard := t), SetMove(i, t)) == Running(Finished(r, more))
  {
    var now := Finished(r, items);
    NonNullNext(MoveTemps(items), t, r.nulls);
    SendMove(now, t, i);
    FinishedBy(r, items, more, if t in r.nulls then now.moved else now.moved + {i}, now.copied);
  }

  lemma CopySent(r: Run, items: seq<Item>, more: seq<Item>, t: nat, i: nat)
    requires Finishing(r) && |CopyTemps(items)| == i < r.copies
    requires Extends(items, more, MoveTemps(items), CopyTemps(items) + [t])
    ensures Send(Finished(r, items).(guard := t), SetCopy(i, t)) == Running(Finished(r, more))
  {
    var now := Finished(r, items);
    NonNullNext(CopyTemps(items), t, r.nulls);
    SendCopy(now, t, i);
    FinishedBy(r, items, more, now.moved, if t in r.nulls then now.copied else now.copied + {i});
  }

  lemma FinishMove(r: Run, items: seq<Item>, t: nat, moves: nat, copies: nat)
    requires Finishing(r) && Finishes(r, items, moves, copies) && moves < r.moves && t != 0 && t in r.declared
    ensures Finishes(r, items + HandleItems(t, SetMove(moves, t)), moves + 1, copies)
  {
    HandleRuns(r, items, t, SetMove(moves, t));
    HandleAllocatesNothing(items, t, SetMove(moves, t));
    HandleSent(items, t, SetMove(moves, t));
    MoveSent(r, items, items + HandleItems(t, SetMove(moves, t)), t, moves);
  }

  lemma FinishCopy(r: Run, items: seq<Item>, t: nat, moves: nat, copies: nat)
    requires Finishing(r) && Finishes(r, items, moves, copies) && copies < r.copies && t != 0 && t in r.declared
    ensures Finishes(r, items + HandleItems(t, SetCopy(copies, t)), moves, copies + 1)
  {
    HandleRuns(r, items, t, SetCopy(copies, t));
    HandleAllocatesNothing(items, t, SetCopy(copies, t));
    HandleSent(items, t, SetCopy(copies, t));
    CopySent(r, items, items + HandleItems(t, SetCopy(copies, t)), t, copies);
  }

  lemma FinishPointer(r: Run, items: seq<Item>, t: nat, offset: nat, size: nat, moves: nat, copies: nat)
    requires Finishes(r, items, moves, copies)
    ensures Finishes(r, items + [Plain(DataPointer(t, offset, size))], moves, copies)
  {
    var x := Plain(DataPointer(t, offset, size));
    RunSnoc(Running(r), items, x);
    BuffersSnoc(items, x);
    TempsSnoc(items, x);
    FinishedWith(r, items, items + [x], Buffers(items), OutBuffers(items));
  }

  lemma FinishesInput(types: Types, r: Run, g: Gen, spec: Spec)
    requires Acyclic(types) && (IsData(spec) ==> Alignment(types, spec) > 0)
    requires Finishing(r) && Finishes(r, g.items, 0, 0) && Tidy(g.items, g.temps)
    requires var after := AddInput(types, g, spec); Holds(r, after.items, after.temps)
    ensures Finishes(r, AddInput(types, g, spec).items, 0, 0)
  {
    if spec.Array? || spec.Buffer? {
      FinishInBuffer(r, g.items, g.temps, spec.kind, BufferIndex(g.bufOffs, spec.kind), 0, 0);
    }
  }

  /** What the next output parameter needs of the run and of the statements so far. */
  ghost predicate CanFinish(r: Run, g: Gen, after: Gen) {
    && Finishing(r) && Finishes(r, g.items, g.moves, g.copies) && Tidy(g.items, g.temps)
    && Holds(r, after.items, after.temps) && after.moves <= r.moves && after.copies <= r.copies
  }

  lemma FinishesOutBuffer(types: Types, r: Run, g: Gen, spec: Spec)
    requires Acyclic(types) && (spec.Array? || spec.Buffer?) && CanFinish(r, g, AddOutput(types, g, spec))
    ensures var after := AddOutput(types, g, spec); Finishes(r, after.items, after.moves, after.copies)
  {
    FinishOutBuffer(r, g.items, g.temps, spec.kind, BufferIndex(g.bufOffs, spec.kind), g.moves, g.copies);
  }

  lemma ObjectItems(types: Types, g: Gen, spec: Spec)
    requires Acyclic(types) && spec.Object?
    ensures var t, after := g.temps + 1, AddOutput(types, g, spec);
            after.items == g.items + HandleItems(t, SetMove(g.moves, t)) && after.temps == t
            && after.moves == g.moves + 1 && after.copies == g.copies && after.params == g.params + [Temp(t)]
  {
  }

  lemma ServiceItems(types: Types, g: Gen, spec: Spec)
    requires Acyclic(types) && spec.IpcService?
    ensures var t, after := g.temps + 1, AddOutput(types, g, spec);
            after.items == g.items + HandleItems(t, SetCopy(g.copies, t)) && after.temps == t
            && after.copies == g.copies + 1 && after.moves == g.moves && after.params == g.params + [Temp(t)]
  {
  }

  lemma FinishesField(types: Types, r: Run, g: Gen, spec: Spec)
    requires Acyclic(types) && IsData(spec) && Alignment(types, spec) > 0 && CanFinish(r, g, AddOutput(types, g, spec))
    ensures var after := AddOutput(types, g, spec); Finishes(r, after.items, after.moves, after.copies)
  {
    var f := Place(types, g, spec);
    FieldItems(types, g, spec);
    FinishPointer(r, g.items, g.temps + 1, f.offset, f.size, g.moves, g.copies);
  }

  lemma FinishesObject(r: Run, g: Gen, after: Gen)
    requires CanFinish(r, g, after) && after.items == g.items + HandleItems(g.temps + 1, SetMove(g.moves, g.temps + 1))
    requires after.temps == g.temps + 1 && after.moves == g.moves + 1 && after.copies == g.copies
    ensures Finishes(r, after.items, after.moves, after.copies)
  {
    assert g.temps + 1 in Upto(g.temps + 1);
    FinishMove(r, g.items, g.temps + 1, g.moves, g.copies);
  }

  lemma FinishesService(r: Run, g: Gen, after: Gen)
    requires CanFinish(r, g, after) && after.items == g.items + HandleItems(g.temps + 1, SetCopy(g.copies, g.temps + 1))
    requires after.temps == g.temps + 1 && after.copies == g.copies + 1 && after.moves == g.moves
    ensures Finishes(r, after.items, after.moves, after.copies)
  {
    assert g.temps + 1 in Upto(g.temps + 1);
    FinishCopy(r, g.items, g.temps + 1, g.moves, g.copies);
  }

  lemma FinishesOutput(types: Types, r: Run, g: Gen, spec: Spec)
    requires Acyclic(types) && !IsPid(spec) && (IsData(spec) ==> Alignment(types, spec) > 0)
    requires CanFinish(r, g, AddOutput(types, g, spec))
    ensures var after := AddOutput(types, g, spec); Finishes(r, after.items, after.moves, after.copies)
  {
    if spec.Array? || spec.Buffer? {
      FinishesOutBuffer(types, r, g, spec);
    } else if spec.Object? {
      ObjectItems(types, g, spec);
      FinishesObject(r, g, AddOutput(types, g, spec));
    } else if spec.IpcService? {
      ServiceItems(types, g, spec);
      FinishesService(r, g, AddOutput(types, g, spec));
    } else {
      FinishesField(types, r, g, spec);
    }
  }

  lemma InputGrows(types: Types, g: Gen, spec: Spec)
    requires Acyclic(types) && (IsData(spec) ==> Alignment(types, spec) > 0)
    ensures var after := AddInput(types, g, spec); g.temps <= after.temps && Buffers(g.items) <= Buffers(after.items)
    ensures Tidy(g.items, g.temps) ==> var after := AddInput(types, g, spec); Tidy(after.items, after.temps)
  {
    if spec.Array? || spec.Buffer? {
      InBufferAllocates(g.items, g.temps, spec.kind, BufferIndex(g.bufOffs, spec.kind));
    }
  }

  /** Only buffers allocate. */
  lemma OthersAllocateNothing(types: Types, g: Gen, spec: Spec)
    requires Acyclic(types) && !IsPid(spec) && !spec.Array? && !spec.Buffer? && (IsData(spec) ==> Alignment(types, spec) > 0)
    ensures var after := AddOutput(types, g, spec);
            Buffers(after.items) == Buffers(g.items) && OutBuffers(after.items) == OutBuffers(g.items) && g.temps <= after.temps
  {
    if spec.Object? {
      ObjectItems(types, g, spec);
      HandleAllocatesNothing(g.items, g.temps + 1, SetMove(g.moves, g.temps + 1));
    } else if spec.IpcService? {
      ServiceItems(types, g, spec);
      HandleAllocatesNothing(g.items, g.temps + 1, SetCopy(g.copies, g.temps + 1));
    } else {
      FieldItems(types, g, spec);
      BuffersSnoc(g.items, Plain(DataPointer(g.temps + 1, Place(types, g, spec).offset, Place(types, g, spec).size)));
    }
  }

  lemma OutputKeepsBuffers(types: Types, g: Gen, spec: Spec)
    requires Acyclic(types) && !IsPid(spec) && (IsData(spec) ==> Alignment(types, spec) > 0)
    ensures Buffers(g.items) <= Buffers(AddOutput(types, g, spec).items)
    ensures Tidy(g.items, g.temps) ==> var after := AddOutput(types, g, spec); Tidy(after.items, after.temps)
  {
    if spec.Array? || spec.Buffer? {
      OutBufferAdds(types, g, spec);
      OutBufferAllocates(g.items, g.temps, spec.kind, BufferIndex(g.bufOffs, spec.kind));
    } else {
      OthersAllocateNothing(types, g, spec);
    }
  }

  lemma {:induction false} InputsTidy(types: Types, inputs: seq<Spec>)
    requires Acyclic(types) && Aligned(types, inputs)
    ensures var g := Inputs(types, inputs); Tidy(g.items, g.temps)
    decreases |inputs|
  {
    if inputs != [] {
      InputsTidy(types, inputs[..|inputs| - 1]);
      InputGrows(types, Inputs(types, inputs[..|inputs| - 1]), inputs[|inputs| - 1]);
    }
  }

  lemma {:induction false} OutputsTidy(types: Types, g0: Gen, outputs: seq<Spec>)
    requires Acyclic(types) && Aligned(types, outputs) && NoPid(outputs) && Tidy(g0.items, g0.temps)
    ensures var g := Outputs(types, g0, outputs); Tidy(g.items, g.temps)
    decreases |outputs|
  {
    if outputs != [] {
      OutputsTidy(types, g0, outputs[..|outputs| - 1]);
      OutputKeepsBuffers(types, Outputs(types, g0, outputs[..|outputs| - 1]), outputs[|outputs| - 1]);
    }
  }

  lemma {:induction false} InputsFinish(types: Types, r: Run, inputs: seq<Spec>)
    requires Acyclic(types) && Aligned(types, inputs) && Finishing(r)
    requires var g := Inputs(types, inputs); Holds(r, g.items, g.temps)
    ensures Finishes(r, Inputs(types, inputs).items, 0, 0)
    decreases |inputs|
  {
    if inputs == [] {
      assert Afters([]) == [];
      assert r.live - {} == r.live;
    } else {
      var front, spec := inputs[..|inputs| - 1], inputs[|inputs| - 1];
      var g := Inputs(types, front);
      InputGrows(types, g, spec);
      UptoGrows(g.temps, AddInput(types, g, spec).temps);
      InputsFinish(types, r, front);
      InputsTidy(types, front);
      FinishesInput(types, r, g, spec);
    }
  }

  lemma UptoGrows(a: nat, b: nat)
    requires a <= b
    ensures Upto(a) <= Upto(b)
  {
  }

  lemma {:induction false} OutputsFinish(types: Types, r: Run, g0: Gen, outputs: seq<Spec>)
    requires Acyclic(types) && Aligned(types, outputs) && NoPid(outputs)
    requires Finishing(r) && Finishes(r, g0.items, 0, 0) && Tidy(g0.items, g0.temps)
    requires var g := Outputs(types, g0, outputs); Holds(r, g.items, g.temps) && g.moves <= r.moves && g.copies <= r.copies
    ensures var g := Outputs(types, g0, outputs); Finishes(r, g.items, g.moves, g.copies)
    decreases |outputs|
  {
    if outputs != [] {
      var front, spec := outputs[..|outputs| - 1], outputs[|outputs| - 1];
      var g := Outputs(types, g0, front);
      OutputGrows(types, g, spec);
      OutputKeepsBuffers(types, g, spec);
      UptoGrows(g.temps, AddOutput(types, g, spec).temps);
      OutputsFinish(types, r, g0, front);
      OutputsTidy(types, g0, front);
      FinishesOutput(types, r, g, spec);
    }
  }

  // ---------------------------------------------------------------- the whole stub

  /** The run after `GenBuf`. */
  function BuiltFor(nulls: set<nat>, g: Gen): Run {
    Fresh(nulls).(built := true, moves := g.moves, copies := g.copies, bytes := g.offset - 8)
  }

  lemma WholePrepares(nulls: set<nat>, types: Types, inputs: seq<Spec>, outputs: seq<Spec>) returns (q: Run)
    requires Acyclic(types) && Aligned(types, inputs) && Aligned(types, outputs) && NoPid(outputs)
    ensures var g := Whole(types, inputs, outputs);
            Prepares(q, BuiltFor(nulls, g), g.items, g.temps, g.bufOffs) && ParamsReady(BuiltFor(nulls, g), g)
  {
    var g, g0 := Whole(types, inputs, outputs), Inputs(types, inputs);
    q := InputsPrepare(types, BuiltFor(nulls, g), inputs);
    q := OutputsPrepare(types, q, BuiltFor(nulls, g), g0, outputs);
    InputParamsReady(types, BuiltFor(nulls, g), inputs);
    InputsTidy(types, inputs);
    OutputParamsReady(types, BuiltFor(nulls, g), g0, outputs);
  }

  lemma WholeFinishes(nulls: set<nat>, types: Types, q: Run, inputs: seq<Spec>, outputs: seq<Spec>)
    requires Acyclic(types) && Aligned(types, inputs) && Aligned(types, outputs) && NoPid(outputs)
    requires var g := Whole(types, inputs, outputs); Prepares(q, BuiltFor(nulls, g), g.items, g.temps, g.bufOffs)
    ensures var g := Whole(types, inputs, outputs);
            Execute(Running(q.(called := true)), Afters(g.items)) == Running(ReadyToReturn(q, g))
  {
    var g, g0 := Whole(types, inputs, outputs), Inputs(types, inputs);
    var r := q.(called := true);
    SameKept(q, r, Buffers(g.items));
    GrowsOverOutputs(types, g0, outputs);
    UptoGrows(g0.temps, g.temps);
    InputsFinish(types, r, inputs);
    InputsTidy(types, inputs);
    OutputsFinish(types, r, g0, outputs);
  }

  /** The run when only the return is left. */
  function ReadyToReturn(q: Run, g: Gen): Run {
    Finished(q.(called := true), g.items)
  }

  lemma {:induction false} GrowsOverOutputs(types: Types, g0: Gen, outputs: seq<Spec>)
    requires Acyclic(types) && Aligned(types, outputs) && NoPid(outputs)
    ensures var g := Outputs(types, g0, outputs); g0.temps <= g.temps && Buffers(g0.items) <= Buffers(g.items)
    decreases |outputs|
  {
    if outputs != [] {
      var g := Outputs(types, g0, outputs[..|outputs| - 1]);
      GrowsOverOutputs(types, g0, outputs[..|outputs| - 1]);
      OutputGrows(types, g, outputs[|outputs| - 1]);
      OutputKeepsBuffers(types, g, outputs[|outputs| - 1]);
    }
  }

  lemma CallSucceeds(nulls: set<nat>, q: Run, g: Gen)
    requires ParamsReady(BuiltFor(nulls, g), g) && Prepares(q, BuiltFor(nulls, g), g.items, g.temps, g.bufOffs)
    ensures Execute(Running(q), [Log, Call(g.params)]) == Running(q.(called := true))
  {
    assert [Log, Call(g.params)] == [Log] + [Call(g.params)];
    ExecuteAppend(Running(q), [Log], [Call(g.params)]);
    ExecuteOne(Running(q), Log);
    forall i: nat | i < |g.params| ensures Ready(q, g.params, i) {
      assert ParamReady(BuiltFor(nulls, g), g.items, g.temps, g.params, i);
      if g.params[i].Temp? && g.params[i].t in q.live {
        assert Kept(q, g.params[i].t);
      }
    }
    ExecuteOne(Running(q), Call(g.params));
  }

  /** What holds when a stub has returned. */
  ghost predicate Complete(nulls: set<nat>, r: Run, g: Gen) {
    && r.called && r.returned && r.live == {}
    && r.written == OutBuffers(g.items) && r.filled == Buffers(g.items) - OutBuffers(g.items)
    && r.moved == NonNull(MoveTemps(g.items), nulls) && r.copied == NonNull(CopyTemps(g.items), nulls)
  }

  /**
   A reordered stub runs to its end: the response is built before anything points into it; the
   buffers of each kind are fetched in order; every buffer is allocated once, filled before the
   call or written back after it with its own address and size, and then freed; it is passed to
   the service with its size; of the returned handles exactly those that are not null are sent, each
   under its own index; and no temporary is used before it is set.
   */
  lemma StubRuns(nulls: set<nat>, types: Types, inputs: seq<Spec>, outputs: seq<Spec>)
    requires Acyclic(types) && Aligned(types, inputs) && Aligned(types, outputs) && NoPid(outputs)
    ensures var o := Execute(Running(Fresh(nulls)), Reordered(Caller(types, inputs, outputs)));
            o.Running? && Complete(nulls, o.r, Whole(types, inputs, outputs))
  {
    var g := Whole(types, inputs, outputs);
    StubOrder(types, inputs, outputs);
    var q := WholePrepares(nulls, types, inputs, outputs);
    WholeFinishes(nulls, types, q, inputs, outputs);
    CallSucceeds(nulls, q, g);
    RunParts(nulls, q, g, Reordered(Caller(types, inputs, outputs)), ReadyToReturn(q, g));
    ReturnSucceeds(nulls, q, g);
  }

  lemma RunParts(nulls: set<nat>, q: Run, g: Gen, stub: seq<Stmt>, last: Run)
    requires IsStub(stub, g) && Execute(Running(BuiltFor(nulls, g)), Plains(g.items)) == Running(q)
    requires Execute(Running(q), [Log, Call(g.params)]) == Running(q.(called := true))
    requires Execute(Running(q.(called := true)), Afters(g.items)) == Running(last)
    ensures Execute(Running(Fresh(nulls)), stub) == Execute(Running(last), [Return(0)])
  {
    BuildSucceeds(nulls, g);
    ExecuteParts(Running(Fresh(nulls)), [GenBuf(g.moves, g.copies, g.offset - 8)], Running(BuiltFor(nulls, g)),
                 Plains(g.items), Running(q), [Log, Call(g.params)], Running(q.(called := true)),
                 Afters(g.items), Running(last), [Return(0)]);
  }

  lemma BuildSucceeds(nulls: set<nat>, g: Gen)
    ensures Execute(Running(Fresh(nulls)), [GenBuf(g.moves, g.copies, g.offset - 8)]) == Running(BuiltFor(nulls, g))
  {
    ExecuteOne(Running(Fresh(nulls)), GenBuf(g.moves, g.copies, g.offset - 8));
  }

  lemma ReturnSucceeds(nulls: set<nat>, q: Run, g: Gen)
    requires Prepares(q, BuiltFor(nulls, g), g.items, g.temps, g.bufOffs)
    ensures var o := Execute(Running(ReadyToReturn(q, g)), [Return(0)]); o.Running? && Complete(nulls, o.r, g)
  {
    assert Buffers(g.items) - Buffers(g.items) == {};
    assert q.live == Buffers(g.items) && q.filled == Buffers(g.items) - OutBuffers(g.items) && q.nulls == nulls;
    ReturnRuns(ReadyToReturn(q, g));
  }

  lemma ReturnRuns(r: Run)
    requires r.called && !r.returned && r.guard == 0 && r.live == {}
    ensures Execute(Running(r), [Return(0)]) == Running(r.(returned := true))
  {
    ExecuteOne(Running(r), Return(0));
  }

  lemma ExecuteParts(o: Outcome, a: seq<Stmt>, p: Outcome, b: seq<Stmt>, q: Outcome, c: seq<Stmt>, u: Outcome, d: seq<Stmt>,
                     v: Outcome, e: seq<Stmt>)
    requires Execute(o, a) == p && Execute(p, b) == q && Execute(q, c) == u && Execute(u, d) == v
    ensures Execute(o, a + b + c + d + e) == Execute(v, e)
  {
    ExecuteAppend(o, a, b);
    ExecuteAppend(o, a + b, c);
    ExecuteAppend(o, a + b + c, d);
    ExecuteAppend(o, a + b + c + d, e);
  }

  function BufferCount(specs: seq<Spec>): nat {
    if specs == [] then 0
    else BufferCount(specs[..|specs| - 1]) + if specs[|specs| - 1].Array? || specs[|specs| - 1].Buffer? then 1 else 0
  }

  /** Each input buffer is allocated once, and none is written back. */
  lemma {:induction false} InputBuffers(types: Types, inputs: seq<Spec>)
    requires Acyclic(types) && Aligned(types, inputs)
    ensures var g := Inputs(types, inputs); |Buffers(g.items)| == BufferCount(inputs) && OutBuffers(g.items) == {}
    decreases |inputs|
  {
    if inputs != [] {
      var g, spec := Inputs(types, inputs[..|inputs| - 1]), inputs[|inputs| - 1];
      InputBuffers(types, inputs[..|inputs| - 1]);
      InputsTidy(types, inputs[..|inputs| - 1]);
      InputBufferAdded(types, g, spec);
    }
  }

  lemma InputBufferAdded(types: Types, g: Gen, spec: Spec)
    requires Acyclic(types) && (IsData(spec) ==> Alignment(types, spec) > 0) && Tidy(g.items, g.temps)
    ensures var items := AddInput(types, g, spec).items;
            && |Buffers(items)| == |Buffers(g.items)| + (if spec.Array? || spec.Buffer? then 1 else 0)
            && OutBuffers(items) == OutBuffers(g.items)
  {
    if spec.Array? || spec.Buffer? {
      InBufferAllocates(g.items, g.temps, spec.kind, BufferIndex(g.bufOffs, spec.kind));
      assert g.temps + 3 !in Buffers(g.items);
    } else {
      assert AddInput(types, g, spec).items == g.items;
    }
  }

  /**
   The buffers of a stub are those of its signature: one for each input or output buffer, of which
   exactly the output ones are written back.
   */
  lemma {:induction false} BufferCounts(types: Types, inputs: seq<Spec>, outputs: seq<Spec>)
    requires Acyclic(types) && Aligned(types, inputs) && Aligned(types, outputs) && NoPid(outputs)
    ensures var items := Whole(types, inputs, outputs).items;
            && |Buffers(items)| == BufferCount(inputs) + BufferCount(outputs)
            && |OutBuffers(items)| == BufferCount(outputs)
    decreases |outputs|
  {
    if outputs == [] {
      InputBuffers(types, inputs);
    } else {
      var front, spec := outputs[..|outputs| - 1], outputs[|outputs| - 1];
      var g := Whole(types, inputs, front);
      BufferCounts(types, inputs, front);
      InputsTidy(types, inputs);
      OutputsTidy(types, Inputs(types, inputs), front);
      OutputBufferAdded(types, g, spec);
    }
  }

  lemma OutputBufferAdded(types: Types, g: Gen, spec: Spec)
    requires Acyclic(types) && !IsPid(spec) && (IsData(spec) ==> Alignment(types, spec) > 0) && Tidy(g.items, g.temps)
    ensures var items, more := AddOutput(types, g, spec).items, if spec.Array? || spec.Buffer? then 1 else 0;
            |Buffers(items)| == |Buffers(g.items)| + more && |OutBuffers(items)| == |OutBuffers(g.items)| + more
  {
    if spec.Array? || spec.Buffer? {
      OutBufferAllocates(g.items, g.temps, spec.kind, BufferIndex(g.bufOffs, spec.kind));
      assert g.temps + 3 !in Buffers(g.items) && g.temps + 3 !in OutBuffers(g.items);
    } else {
      OthersAllocateNothing(types, g, spec);
    }
  }

  // ---------------------------------------------------------------- the handles are those of the signature

  function ServiceCount(specs: seq<Spec>): nat {
    if specs == [] then 0 else ServiceCount(specs[..|specs| - 1]) + if specs[|specs| - 1].IpcService? then 1 else 0
  }

  /** Different temporaries, each of which is an argument of the call. */
  predicate Arguments(temps: seq<nat>, g: Gen) {
    && (forall t :: t in temps ==> t <= g.temps && Temp(t) in g.params)
    && forall i: nat, j: nat :: i < j < |temps| ==> temps[i] != temps[j]
  }

  predicate Handled(g: Gen, moves: nat, copies: nat) {
    && g.moves == |MoveTemps(g.items)| == moves && g.copies == |CopyTemps(g.items)| == copies
    && Arguments(MoveTemps(g.items) + CopyTemps(g.items), g)
  }

  lemma {:induction false} InputsSendNothing(types: Types, inputs: seq<Spec>)
    requires Acyclic(types) && Aligned(types, inputs)
    ensures var g := Inputs(types, inputs); MoveTemps(g.items) == CopyTemps(g.items) == []
    decreases |inputs|
  {
    if inputs != [] {
      var g, spec := Inputs(types, inputs[..|inputs| - 1]), inputs[|inputs| - 1];
      InputsSendNothing(types, inputs[..|inputs| - 1]);
      InputSendsNothing(types, g, spec);
    }
  }

  lemma InputSendsNothing(types: Types, g: Gen, spec: Spec)
    requires Acyclic(types) && (IsData(spec) ==> Alignment(types, spec) > 0)
    ensures var after := AddInput(types, g, spec);
            MoveTemps(after.items) == MoveTemps(g.items) && CopyTemps(after.items) == CopyTemps(g.items)
  {
    if spec.Array? || spec.Buffer? {
      InBufferSendsNothing(g.items, g.temps, spec.kind, BufferIndex(g.bufOffs, spec.kind));
    } else {
      NothingAdded(types, g, spec);
    }
  }

  lemma OtherOutput(types: Types, g: Gen, spec: Spec)
    requires Acyclic(types) && !IsPid(spec) && !spec.Object? && !spec.IpcService? && (IsData(spec) ==> Alignment(types, spec) > 0)
    ensures var after := AddOutput(types, g, spec);
            && MoveTemps(after.items) == MoveTemps(g.items) && CopyTemps(after.items) == CopyTemps(g.items)
            && after.moves == g.moves && after.copies == g.copies && g.temps <= after.temps && g.params <= after.params
  {
    if spec.Array? || spec.Buffer? {
      OutBufferSendsNothing(g.items, g.temps, spec.kind, BufferIndex(g.bufOffs, spec.kind));
    } else {
      FieldItems(types, g, spec);
      TempsSnoc(g.items, Plain(DataPointer(g.temps + 1, Place(types, g, spec).offset, Place(types, g, spec).size)));
    }
  }

  lemma HandledStays(g: Gen, after: Gen, moves: nat, copies: nat)
    requires Handled(g, moves, copies) && g.temps <= after.temps && g.params <= after.params
    requires MoveTemps(after.items) == MoveTemps(g.items) && CopyTemps(after.items) == CopyTemps(g.items)
    requires after.moves == g.moves && after.copies == g.copies
    ensures Handled(after, moves, copies)
  {
    var temps := MoveTemps(g.items) + CopyTemps(g.items);
    forall t | t in temps ensures t <= after.temps && Temp(t) in after.params {
      var i :| 0 <= i < |g.params| && g.params[i] == Temp(t);
      assert after.params[i] == Temp(t);
    }
  }

  /** A handle more, anywhere among the others. */
  lemma ArgumentsMore(a: seq<nat>, b: seq<nat>, g: Gen, after: Gen)
    requires Arguments(a + b, g) && after.temps == g.temps + 1 && after.params == g.params + [Temp(g.temps + 1)]
    ensures Arguments(a + [g.temps + 1] + b, after)
  {
    var t, all, more := g.temps + 1, a + b, a + [g.temps + 1] + b;
    forall i: nat | i < |more| ensures more[i] == if i < |a| then all[i] else if i == |a| then t else all[i - 1] {
    }
    assert after.params[|g.params|] == Temp(t);
    forall x | x in more ensures x <= after.temps && Temp(x) in after.params {
      if x != t {
        assert x in all;
        var i :| 0 <= i < |g.params| && g.params[i] == Temp(x);
        assert after.params[i] == Temp(x);
      }
    }
    forall i: nat, j: nat | i < j < |more| ensures more[i] != more[j] {
      assert i == |a| || all[if i < |a| then i else i - 1] in all;
      assert j == |a| || all[if j < |a| then j else j - 1] in all;
    }
  }

  lemma HandledMove(g: Gen, after: Gen, moves: nat, copies: nat)
    requires Handled(g, moves, copies) && after.temps == g.temps + 1 && after.params == g.params + [Temp(g.temps + 1)]
    requires MoveTemps(after.items) == MoveTemps(g.items) + [g.temps + 1] && CopyTemps(after.items) == CopyTemps(g.items)
    requires after.moves == g.moves + 1 && after.copies == g.copies
    ensures Handled(after, moves + 1, copies)
  {
    ArgumentsMore(MoveTemps(g.items), CopyTemps(g.items), g, after);
  }

  lemma HandledCopy(g: Gen, after: Gen, moves: nat, copies: nat)
    requires Handled(g, moves, copies) && after.temps == g.temps + 1 && after.params == g.params + [Temp(g.temps + 1)]
    requires MoveTemps(after.items) == MoveTemps(g.items) && CopyTemps(after.items) == CopyTemps(g.items) + [g.temps + 1]
    requires after.moves == g.moves && after.copies == g.copies + 1
    ensures Handled(after, moves, copies + 1)
  {
    ArgumentsLast(MoveTemps(g.items), CopyTemps(g.items), g, after);
  }

  lemma ArgumentsLast(a: seq<nat>, b: seq<nat>, g: Gen, after: Gen)
    requires Arguments(a + b, g) && after.temps == g.temps + 1 && after.params == g.params + [Temp(g.temps + 1)]
    ensures Arguments(a + (b + [g.temps + 1]), after)
  {
    assert (a + b) + [] == a + b;
    ArgumentsMore(a + b, [], g, after);
    assert a + b + [g.temps + 1] + [] == a + (b + [g.temps + 1]);
  }

  /**
   The handles that a stub sends are those of its signature: one for each output object or service,
   each in a temporary of its own that the service is given to fill.
   */
  lemma {:induction false} HandleCounts(types: Types, inputs: seq<Spec>, outputs: seq<Spec>)
    requires Acyclic(types) && Aligned(types, inputs) && Aligned(types, outputs) && NoPid(outputs)
    ensures Handled(Whole(types, inputs, outputs), ObjectCount(outputs), ServiceCount(outputs))
    decreases |outputs|
  {
    if outputs == [] {
      InputsSendNothing(types, inputs);
    } else {
      var front, spec := outputs[..|outputs| - 1], outputs[|outputs| - 1];
      var g := Whole(types, inputs, front);
      HandleCounts(types, inputs, front);
      if spec.Object? {
        ObjectItems(types, g, spec);
        HandleSent(g.items, g.temps + 1, SetMove(g.moves, g.temps + 1));
        HandledMove(g, AddOutput(types, g, spec), ObjectCount(front), ServiceCount(front));
      } else if spec.IpcService? {
        ServiceItems(types, g, spec);
        HandleSent(g.items, g.temps + 1, SetCopy(g.copies, g.temps + 1));
        HandledCopy(g, AddOutput(types, g, spec), ObjectCount(front), ServiceCount(front));
      } else {
        OtherOutput(types, g, spec);
        HandledStays(g, AddOutput(types, g, spec), ObjectCount(front), ServiceCount(front));
      }
    }
  }
}
