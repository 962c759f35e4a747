/**
 The IPC stub compiler: where the parameters of a command lie in the request and the response,
 and in which order the statements of its stub run.
 */
module StubGen {
  import Bits

  // ---------------------------------------------------------------- types

  /** A parameter's type: a basic or named type, raw bytes, an alignment, a buffer or a handle. */
  datatype Spec =
    | Basic(name: string)
    | Bytes(n: nat)
    | Align(k: nat, elem: Spec)
    | Array(elem: Spec, kind: int)
    | Buffer(elem: Spec, kind: int)
    | Object(interface: string)
    | IpcService

  /** Named types and a rank that falls along their definitions. */
  datatype Types = Types(defs: map<string, Spec>, rank: map<string, nat>)

  const TYPE_SIZES: map<string, nat> :=
    map["i8" := 1, "i16" := 2, "i32" := 4, "i64" := 8, "i128" := 16, "u8" := 1, "u16" := 2, "u32" := 4,
        "u64" := 8, "u128" := 16, "f32" := 4, "pid" := 8, "bool" := 1]

  ghost predicate Acyclic(types: Types) {
    forall name :: name in types.defs ==>
      && name in types.rank
      && (types.defs[name].Basic? && types.defs[name].name in types.defs ==>
            types.defs[name].name in types.rank && types.rank[types.defs[name].name] < types.rank[name])
  }

  ghost function Height(types: Types, spec: Spec): nat
    requires Acyclic(types)
  {
    if spec.Basic? && spec.name in types.defs then types.rank[spec.name] + 1 else 0
  }

  function TypeSize(types: Types, spec: Spec): nat
    requires Acyclic(types)
    decreases Height(types, spec)
  {
    match spec
    case Basic(name) =>
      if name == "unknown" || name == "i8" || name == "u8" then 1
      else if name in types.defs then TypeSize(types, types.defs[name])
      else if name in TYPE_SIZES then TYPE_SIZES[name]
      else 1
    case Bytes(n) => n
    case _ => 1
  }

  predicate IsPointerType(types: Types, spec: Spec)
    requires Acyclic(types)
    decreases Height(types, spec)
  {
    match spec
    case Basic(name) =>
      if name in TYPE_SIZES then false
      else if name in types.defs then IsPointerType(types, types.defs[name])
      else true
    case _ => true
  }

  predicate IsPid(spec: Spec) {
    spec == Basic("pid")
  }

  /** Whether the parameter travels in the data area. */
  predicate IsData(spec: Spec) {
    !(spec.Array? || spec.Buffer? || spec.Object? || spec.IpcService? || IsPid(spec))
  }

  function DataElem(spec: Spec): Spec {
    if spec.Align? then spec.elem else spec
  }

  function Alignment(types: Types, spec: Spec): nat
    requires Acyclic(types)
  {
    if spec.Align? then spec.k
    else if TypeSize(types, spec) < 8 then TypeSize(types, spec) else 8
  }

  /** The sizes of the basic types, where no definition hides them. */
  lemma BasicSizes(types: Types, name: string)
    requires Acyclic(types) && name !in types.defs
    ensures TypeSize(types, Basic(name)) ==
            if name in {"i16", "u16"} then 2
            else if name in {"i32", "u32", "f32"} then 4
            else if name in {"i64", "u64", "pid"} then 8
            else if name in {"i128", "u128"} then 16
            else 1
    ensures !IsPointerType(types, Basic(name)) <==>
            name in {"i8", "u8", "bool", "i16", "u16", "i32", "u32", "f32", "i64", "u64", "pid", "i128", "u128"}
  {
  }

  /** A defined name has the size of its definition, unless it is one of the three that are looked at first. */
  lemma NamedSizes(types: Types, name: string)
    requires Acyclic(types) && name in types.defs
    ensures TypeSize(types, Basic(name)) == if name in {"unknown", "i8", "u8"} then 1 else TypeSize(types, types.defs[name])
    ensures name !in TYPE_SIZES ==> IsPointerType(types, Basic(name)) == IsPointerType(types, types.defs[name])
    ensures name in TYPE_SIZES ==> !IsPointerType(types, Basic(name))
  {
  }

  /** Bytes have their number as size and are passed by pointer; alignment is the size, at most eight, unless given. */
  lemma OtherSizes(types: Types, spec: Spec, n: nat)
    requires Acyclic(types)
    ensures TypeSize(types, Bytes(n)) == n && IsPointerType(types, Bytes(n))
    ensures Alignment(types, Align(n, spec)) == n && DataElem(Align(n, spec)) == spec
    ensures !spec.Align? ==> DataElem(spec) == spec
    ensures !spec.Align? && TypeSize(types, spec) <= 8 ==> Alignment(types, spec) == TypeSize(types, spec)
    ensures !spec.Align? && TypeSize(types, spec) >= 8 ==> Alignment(types, spec) == 8
  {
  }

  /** The parameters that do not travel in the data area. */
  lemma DataKinds(spec: Spec)
    ensures IsPid(spec) <==> spec == Basic("pid")
    ensures IsData(spec) <==> (spec.Basic? && spec.name != "pid") || spec.Bytes? || spec.Align?
  {
  }

  /** No data parameter has alignment zero, which the original divides by. */
  ghost predicate Aligned(types: Types, specs: seq<Spec>)
    requires Acyclic(types)
  {
    forall s :: s in specs && IsData(s) ==> Alignment(types, s) > 0
  }

  // ---------------------------------------------------------------- offsets

  /** Steps up to a multiple of `alignment`. */
  function AlignUp(offset: nat, alignment: nat): (r: nat)
    requires alignment > 0
    ensures offset <= r
    decreases if offset % alignment == 0 then 0 else alignment - offset % alignment
  {
    if offset % alignment == 0 then offset
    else
      NextRemainder(offset, alignment);
      AlignUp(offset + 1, alignment)
  }

  /** It is the least multiple at or above `offset`. */
  lemma {:induction false} AlignUpIsLeast(offset: nat, alignment: nat)
    requires alignment > 0
    ensures var r := AlignUp(offset, alignment);
            r % alignment == 0 && forall x :: offset <= x < r ==> x % alignment != 0
    decreases if offset % alignment == 0 then 0 else alignment - offset % alignment
  {
    if offset % alignment != 0 {
      NextRemainder(offset, alignment);
      AlignUpIsLeast(offset + 1, alignment);
    }
  }

  lemma NextRemainder(x: nat, d: nat)
    requires d > 0
    ensures (x + 1) % d == if x % d + 1 == d then 0 else x % d + 1
  {
    var q, r := x / d, x % d;
    if r + 1 == d {
      Distribute(q, d);
      Bits.DivUnique(x + 1, d, q + 1, 0);
    } else {
      Bits.DivUnique(x + 1, d, q, r + 1);
    }
  }

  lemma Distribute(q: int, d: int)
    ensures (q + 1) * d == q * d + d
  {
  }

  // ---------------------------------------------------------------- statements

  /** An argument of the service call. */
  datatype Param =
    | Temp(t: nat)
    | Moved(i: nat)
    | Copied(i: nat)
    | ProcessId
    | InRef(offset: nat, size: nat)
    | OutRef(offset: nat, size: nat)

  /** A generated statement. Temporaries are numbered from one. */
  datatype Stmt =
    | Declare(t: nat)
    | Fetch(a: nat, kind: int, index: nat, s: nat)
    | Alloc(b: nat, s: nat)
    | ReadIn(a: nat, b: nat, s: nat)
    | WriteBack(a: nat, b: nat, s: nat)
    | Free(b: nat)
    | DataPointer(t: nat, offset: nat, size: nat)
    | IfNotNull(t: nat)
    | SetMove(i: nat, t: nat)
    | SetCopy(i: nat, t: nat)
    | GenBuf(moves: nat, copies: nat, bytes: int)
    | Log
    | Call(params: seq<Param>)
    | Return(code: int)

  /** What the generator yields: statements, some of them for later, and the place for those. */
  datatype Item = Plain(s: Stmt) | After(s: Stmt) | AfterMark | Init(s: Stmt)

  /** A data parameter's place. */
  datatype Field = Field(offset: nat, size: nat, alignment: nat)

  /** The generator's variables. */
  datatype Gen = Gen(items: seq<Item>, params: seq<Param>, fields: seq<Field>, temps: nat, offset: nat,
                     bufOffs: map<int, nat>, moves: nat, copies: nat, bufs: nat)

  function BufferIndex(bufOffs: map<int, nat>, kind: int): nat {
    if kind in bufOffs then bufOffs[kind] else 0
  }

  /** The statements that get a buffer's address and size and allocate its copy. */
  function FetchItems(t: nat, kind: int, index: nat): seq<Item> {
    [Plain(Declare(t + 2)), Plain(Fetch(t + 1, kind, index, t + 2)), Plain(Alloc(t + 3, t + 2))]
  }

  function InBufferItems(t: nat, kind: int, index: nat): seq<Item> {
    FetchItems(t, kind, index) + [Plain(ReadIn(t + 1, t + 3, t + 2)), After(Free(t + 3))]
  }

  function OutBufferItems(t: nat, kind: int, index: nat): seq<Item> {
    FetchItems(t, kind, index) + [After(WriteBack(t + 1, t + 3, t + 2)), After(Free(t + 3))]
  }

  /** A buffer parameter is a temporary and its size. */
  function AddBuffer(g: Gen, kind: int, items: seq<Item>): Gen {
    g.(items := g.items + items, params := g.params + [Temp(g.temps + 3), Temp(g.temps + 2)], temps := g.temps + 3,
       bufOffs := g.bufOffs[kind := BufferIndex(g.bufOffs, kind) + 1], bufs := g.bufs + 1)
  }

  /** Places a data parameter at the next aligned offset. */
  function Place(types: Types, g: Gen, spec: Spec): (f: Field)
    requires Acyclic(types) && Alignment(types, spec) > 0
  {
    Field(AlignUp(g.offset, Alignment(types, spec)), TypeSize(types, DataElem(spec)), Alignment(types, spec))
  }

  function AddField(g: Gen, f: Field): Gen {
    g.(fields := g.fields + [f], offset := f.offset + f.size)
  }

  /** An input parameter. A copied handle is looked up under the count of moved ones. */
  function AddInput(types: Types, g: Gen, spec: Spec): Gen
    requires Acyclic(types) && (IsData(spec) ==> Alignment(types, spec) > 0)
  {
    if spec.Array? || spec.Buffer? then
      AddBuffer(g, spec.kind, InBufferItems(g.temps, spec.kind, BufferIndex(g.bufOffs, spec.kind)))
    else if spec.Object? then g.(params := g.params + [Moved(g.moves)], moves := g.moves + 1)
    else if spec.IpcService? then g.(params := g.params + [Copied(g.moves)], copies := g.copies + 1)
    else if IsPid(spec) then g.(params := g.params + [ProcessId])
    else
      var f := Place(types, g, spec);
      AddField(g, f).(params := g.params + [InRef(f.offset, f.size)])
  }

  /** A handle that the service returns: a temporary, sent if it is not null. */
  function AddHandle(g: Gen, send: Stmt): Gen {
    var t := g.temps + 1;
    g.(items := g.items + [Plain(Declare(t)), After(IfNotNull(t)), After(send)], params := g.params + [Temp(t)], temps := t)
  }

  /** An output parameter; the original asserts that none is a process id. */
  function AddOutput(types: Types, g: Gen, spec: Spec): Gen
    requires Acyclic(types) && !IsPid(spec) && (IsData(spec) ==> Alignment(types, spec) > 0)
  {
    if spec.Array? || spec.Buffer? then
      AddBuffer(g, spec.kind, OutBufferItems(g.temps, spec.kind, BufferIndex(g.bufOffs, spec.kind)))
    else if spec.Object? then AddHandle(g, SetMove(g.moves, g.temps + 1)).(moves := g.moves + 1)
    else if spec.IpcService? then AddHandle(g, SetCopy(g.copies, g.temps + 1)).(copies := g.copies + 1)
    else
      var f := Place(types, g, spec);
      if IsPointerType(types, DataElem(spec)) then
        AddField(g, f).(items := g.items + [Plain(DataPointer(g.temps + 1, f.offset, f.size))],
                        params := g.params + [Temp(g.temps + 1)], temps := g.temps + 1)
      else
        AddField(g, f).(params := g.params + [OutRef(f.offset, f.size)])
  }

  const START: Gen := Gen([], [], [], 0, 8, map[], 0, 0, 0)

  function Inputs(types: Types, specs: seq<Spec>): Gen
    requires Acyclic(types) && Aligned(types, specs)
  {
    if specs == [] then START
    else AddInput(types, Inputs(types, specs[..|specs| - 1]), specs[|specs| - 1])
  }

  /** Offsets and handle counts start again for the outputs; temporaries and buffer indexes go on. */
  function Between(g: Gen): Gen {
    g.(fields := [], offset := 8, moves := 0, copies := 0)
  }

  predicate NoPid(specs: seq<Spec>) {
    forall s :: s in specs ==> !IsPid(s)
  }

  function Outputs(types: Types, g: Gen, specs: seq<Spec>): Gen
    requires Acyclic(types) && Aligned(types, specs) && NoPid(specs)
  {
    if specs == [] then Between(g)
    else AddOutput(types, Outputs(types, g, specs[..|specs| - 1]), specs[|specs| - 1])
  }

  /** The statements after those of the parameters. */
  function Finish(g: Gen, count: nat): seq<Item> {
    if count + g.bufs != |g.params| then g.items + [Plain(Return(0xf601))]
    else g.items + Tail(GenBuf(g.moves, g.copies, g.offset - 8), Log, Call(g.params), Return(0))
  }

  function Caller(types: Types, inputs: seq<Spec>, outputs: seq<Spec>): seq<Item>
    requires Acyclic(types) && Aligned(types, inputs) && Aligned(types, outputs) && NoPid(outputs)
  {
    Finish(Outputs(types, Inputs(types, inputs), outputs), |outputs| + |inputs|)
  }

  /** The padding loop of the generator. */
  method Pad(offset: nat, alignment: nat) returns (padded: nat)
    requires alignment > 0
    ensures padded == AlignUp(offset, alignment)
  {
    padded := offset;
    while padded % alignment != 0
      invariant padded >= offset && AlignUp(padded, alignment) == AlignUp(offset, alignment)
      decreases AlignUp(offset, alignment) - padded
    {
      padded := padded + 1;
    }
  }

  lemma PrefixStep(specs: seq<Spec>, i: nat)
    requires i < |specs|
    ensures specs[..i + 1][..i] == specs[..i] && specs[..i + 1][i] == specs[i]
    ensures forall s :: s in specs[..i + 1] ==> s in specs
  {
  }

  /** The loop over the input parameters. */
  method GenerateInputs(types: Types, inputs: seq<Spec>) returns (g: Gen)
    requires Acyclic(types) && Aligned(types, inputs)
    ensures g == Inputs(types, inputs)
  {
    var items: seq<Item>, params: seq<Param> := [], [];
    var tempI, inpOffset, hndOff, objOff, bufSizes := 0, 8, 0, 0, 0;
    var bufOffs: map<int, nat> := map[];
    var fields: seq<Field> := [];
    for i := 0 to |inputs|
      invariant Gen(items, params, fields, tempI, inpOffset, bufOffs, objOff, hndOff, bufSizes) == Inputs(types, inputs[..i])
    {
      PrefixStep(inputs, i);
      var elem := inputs[i];
      if elem.Array? || elem.Buffer? {
        var cbo := BufferIndex(bufOffs, elem.kind);
        bufOffs := bufOffs[elem.kind := cbo + 1];
        var an, sn, bn := tempI + 1, tempI + 2, tempI + 3;
        tempI := tempI + 3;
        items := items + [Plain(Declare(sn)), Plain(Fetch(an, elem.kind, cbo, sn)), Plain(Alloc(bn, sn)),
                          Plain(ReadIn(an, bn, sn)), After(Free(bn))];
        params := params + [Temp(bn), Temp(sn)];
        bufSizes := bufSizes + 1;
      } else if elem.Object? {
        params := params + [Moved(objOff)];
        objOff := objOff + 1;
      } else if elem.IpcService? {
        params := params + [Copied(objOff)];
        hndOff := hndOff + 1;
      } else if IsPid(elem) {
        params := params + [ProcessId];
      } else {
        inpOffset := Pad(inpOffset, Alignment(types, elem));
        var size := TypeSize(types, DataElem(elem));
        params := params + [InRef(inpOffset, size)];
        fields := fields + [Field(inpOffset, size, Alignment(types, elem))];
        inpOffset := inpOffset + size;
      }
    }
    assert inputs[..|inputs|] == inputs;
    g := Gen(items, params, fields, tempI, inpOffset, bufOffs, objOff, hndOff, bufSizes);
  }

  lemma OutputsStep(types: Types, g0: Gen, outputs: seq<Spec>, i: nat)
    requires Acyclic(types) && Aligned(types, outputs) && i < |outputs| && NoPid(outputs[..i])
    ensures NoPid(outputs[..i + 1]) <==> !IsPid(outputs[i])
    ensures !IsPid(outputs[i]) ==>
              Outputs(types, g0, outputs[..i + 1]) == AddOutput(types, Outputs(types, g0, outputs[..i]), outputs[i])
  {
    PrefixStep(outputs, i);
    assert outputs[..i + 1] == outputs[..i] + [outputs[i]];
  }

  /** The loop over the output parameters, which fails on a process id. */
  method GenerateOutputs(types: Types, g0: Gen, outputs: seq<Spec>) returns (ok: bool, g: Gen)
    requires Acyclic(types) && Aligned(types, outputs)
    ensures ok == NoPid(outputs)
    ensures ok ==> g == Outputs(types, g0, outputs)
  {
    g := g0.(fields := [], offset := 8, moves := 0, copies := 0);
    for i := 0 to |outputs|
      invariant NoPid(outputs[..i]) && g == Outputs(types, g0, outputs[..i])
    {
      PrefixStep(outputs, i);
      OutputsStep(types, g0, outputs, i);
      var elem := outputs[i];
      if elem.Array? || elem.Buffer? {
        g := GenerateOutBuffer(types, g, elem);
      } else if elem.Object? || elem.IpcService? {
        g := GenerateOutHandle(types, g, elem);
      } else if IsPid(elem) {
        assert elem in outputs;
        return false, g0;
      } else {
        g := GenerateOutField(types, g, elem);
      }
    }
    assert outputs[..|outputs|] == outputs;
    ok := true;
  }

  method GenerateOutHandle(types: Types, g0: Gen, elem: Spec) returns (g: Gen)
    requires Acyclic(types) && (elem.Object? || elem.IpcService?)
    ensures g == AddOutput(types, g0, elem)
  {
    var tn := g0.temps + 1;
    g := g0.(params := g0.params + [Temp(tn)], temps := tn);
    if elem.Object? {
      g := g.(items := g.items + [Plain(Declare(tn)), After(IfNotNull(tn)), After(SetMove(g0.moves, tn))], moves := g0.moves + 1);
    } else {
      g := g.(items := g.items + [Plain(Declare(tn)), After(IfNotNull(tn)), After(SetCopy(g0.copies, tn))], copies := g0.copies + 1);
    }
  }

  method GenerateOutBuffer(types: Types, g0: Gen, elem: Spec) returns (g: Gen)
    requires Acyclic(types) && (elem.Array? || elem.Buffer?)
    ensures g == AddOutput(types, g0, elem)
  {
    var cbo := BufferIndex(g0.bufOffs, elem.kind);
    var an, sn, bn := g0.temps + 1, g0.temps + 2, g0.temps + 3;
    g := g0.(temps := g0.temps + 3, bufOffs := g0.bufOffs[elem.kind := cbo + 1]);
    g := g.(items := g.items + [Plain(Declare(sn)), Plain(Fetch(an, elem.kind, cbo, sn)), Plain(Alloc(bn, sn)),
                                After(WriteBack(an, bn, sn)), After(Free(bn))]);
    g := g.(params := g.params + [Temp(bn), Temp(sn)], bufs := g.bufs + 1);
  }

  method GenerateOutField(types: Types, g0: Gen, elem: Spec) returns (g: Gen)
    requires Acyclic(types) && IsData(elem) && Alignment(types, elem) > 0
    ensures g == AddOutput(types, g0, elem)
  {
    var alignment := Alignment(types, elem);
    var offset := Pad(g0.offset, alignment);
    var size := TypeSize(types, DataElem(elem));
    assert Field(offset, size, alignment) == Place(types, g0, elem);
    g := g0.(fields := g0.fields + [Field(offset, size, alignment)], offset := offset + size);
    assert g == AddField(g0, Place(types, g0, elem));
    if IsPointerType(types, DataElem(elem)) {
      var tn := g0.temps + 1;
      g := g.(items := g0.items + [Plain(DataPointer(tn, offset, size))], params := g0.params + [Temp(tn)], temps := tn);
    } else {
      g := g.(params := g0.params + [OutRef(offset, size)]);
    }
  }

  /** `generateCaller`: the statements of a stub, in the order in which they are generated. */
  method GenerateCaller(types: Types, inputs: seq<Spec>, outputs: seq<Spec>) returns (ok: bool, items: seq<Item>)
    requires Acyclic(types) && Aligned(types, inputs) && Aligned(types, outputs)
    ensures ok == NoPid(outputs)
    ensures ok ==> items == Caller(types, inputs, outputs)
  {
    var g := GenerateInputs(types, inputs);
    ok, g := GenerateOutputs(types, g, outputs);
    items := g.items;
    if ok {
      if |outputs| + |inputs| + g.bufs != |g.params| {
        items := items + [Plain(Return(0xf601))];
      } else {
        items := items + [Init(GenBuf(g.moves, g.copies, g.offset - 8)), Plain(Log), Plain(Call(g.params)),
                          AfterMark, Plain(Return(0))];
      }
    }
  }

  // ---------------------------------------------------------------- reordering

  /** The reorderer's variables; `open` once the statements held back at first were emitted. */
  datatype Sorter = Sorter(after: seq<Stmt>, before: seq<Stmt>, open: bool, out: seq<Stmt>)

  function Sort(w: Sorter, x: Item): Sorter {
    match x
    case AfterMark => w.(out := w.out + w.after)
    case Init(s) => w.(out := w.out + [s] + w.before, before := [], open := true)
    case After(s) => w.(after := w.after + [s])
    case Plain(s) => if w.open then w.(out := w.out + [s]) else w.(before := w.before + [s])
  }

  function SortAll(w: Sorter, items: seq<Item>): Sorter
    decreases |items|
  {
    if items == [] then w else SortAll(Sort(w, items[0]), items[1..])
  }

  function Reordered(items: seq<Item>): seq<Stmt> {
    SortAll(Sorter([], [], false, []), items).out
  }

  /** A second initial statement would find no list of held-back statements. */
  predicate OneInit(items: seq<Item>) {
    forall i, j :: 0 <= i < j < |items| && items[i].Init? ==> !items[j].Init?
  }

  method Reorder(items: seq<Item>) returns (out: seq<Stmt>)
    requires OneInit(items)
    ensures out == Reordered(items)
  {
    var after: seq<Stmt>, before: seq<Stmt> := [], [];
    var open := false;
    out := [];
    for i := 0 to |items|
      invariant SortAll(Sorter(after, before, open, out), items[i..]) == SortAll(Sorter([], [], false, []), items)
    {
      assert items[i..][0] == items[i] && items[i..][1..] == items[i + 1..];
      var x := items[i];
      match x {
        case AfterMark => out := out + after;
        case Init(s) =>
          out := out + [s] + before;
          before := [];
          open := true;
        case After(s) => after := after + [s];
        case Plain(s) =>
          if !open {
            before := before + [s];
          } else {
            out := out + [s];
          }
      }
    }
  }

  function Plains(items: seq<Item>): seq<Stmt> {
    if items == [] then [] else (if items[0].Plain? then [items[0].s] else []) + Plains(items[1..])
  }

  function Afters(items: seq<Item>): seq<Stmt> {
    if items == [] then [] else (if items[0].After? then [items[0].s] else []) + Afters(items[1..])
  }

  /** Only statements for now and for later. */
  predicate Body(items: seq<Item>) {
    forall x :: x in items ==> x.Plain? || x.After?
  }

  lemma {:induction false} SortBody(w: Sorter, items: seq<Item>, rest: seq<Item>)
    requires Body(items) && !w.open
    ensures SortAll(w, items + rest)
         == SortAll(w.(before := w.before + Plains(items), after := w.after + Afters(items)), rest)
    decreases |items|
  {
    if items == [] {
      assert items + rest == rest;
      assert w.before + [] == w.before && w.after + [] == w.after;
    } else {
      assert (items + rest)[1..] == items[1..] + rest;
      SortBody(Sort(w, items[0]), items[1..], rest);
      SortStatement(w, items);
    }
  }

  lemma SortStatement(w: Sorter, items: seq<Item>)
    requires items != [] && (items[0].Plain? || items[0].After?) && !w.open
    ensures var v := Sort(w, items[0]);
            && !v.open && v.out == w.out
            && v.before + Plains(items[1..]) == w.before + Plains(items)
            && v.after + Afters(items[1..]) == w.after + Afters(items)
  {
    var x, rest := items[0], items[1..];
    if x.Plain? {
      assert Plains(items) == [x.s] + Plains(rest) && Afters(items) == [] + Afters(rest) == Afters(rest);
      assert (w.before + [x.s]) + Plains(rest) == w.before + ([x.s] + Plains(rest));
    } else {
      assert Afters(items) == [x.s] + Afters(rest) && Plains(items) == [] + Plains(rest) == Plains(rest);
      assert (w.after + [x.s]) + Afters(rest) == w.after + ([x.s] + Afters(rest));
    }
  }

  /** The items after those of the parameters. */
  function Tail(init: Stmt, log: Stmt, call: Stmt, ret: Stmt): seq<Item> {
    [Init(init), Plain(log), Plain(call), AfterMark, Plain(ret)]
  }

  lemma SortTail(w: Sorter, init: Stmt, log: Stmt, call: Stmt, ret: Stmt)
    requires !w.open && w.out == []
    ensures SortAll(w, Tail(init, log, call, ret)).out == [init] + w.before + [log, call] + w.after + [ret]
  {
    var rest := Tail(init, log, call, ret);
    var w1 := Sort(w, rest[0]);
    var w2 := Sort(w1, rest[1]);
    var w3 := Sort(w2, rest[2]);
    var w4 := Sort(w3, rest[3]);
    assert rest[1..][0] == rest[1] && rest[1..][1..] == rest[2..];
    assert rest[2..][0] == rest[2] && rest[2..][1..] == rest[3..];
    assert rest[3..][0] == rest[3] && rest[3..][1..] == rest[4..];
    assert rest[4..][0] == rest[4] && rest[4..][1..] == [];
    assert SortAll(w, rest) == SortAll(w1, rest[1..]) == SortAll(w2, rest[2..]);
    assert SortAll(w2, rest[2..]) == SortAll(w3, rest[3..]) == SortAll(w4, rest[4..]);
    assert SortAll(w4, rest[4..]) == SortAll(Sort(w4, rest[4]), []);
    assert w4.out == [init] + w.before + [log] + [call] + w.after && w4.open;
    assert Sort(w4, rest[4]).out == w4.out + [ret];
    assert [init] + w.before + [log] + [call] == [init] + w.before + [log, call];
  }

  lemma StubHasOneInit(body: seq<Item>, init: Stmt, log: Stmt, call: Stmt, ret: Stmt)
    requires Body(body)
    ensures OneInit(body + Tail(init, log, call, ret))
  {
    var items := body + Tail(init, log, call, ret);
    forall i | 0 <= i < |body| ensures !items[i].Init? {
      assert items[i] == body[i] && body[i] in body;
    }
  }

  /** Every statement is emitted once: the first one, the held-back ones, the call, the later ones and the return. */
  lemma ReorderStub(body: seq<Item>, init: Stmt, log: Stmt, call: Stmt, ret: Stmt)
    requires Body(body)
    ensures Reordered(body + Tail(init, log, call, ret)) == [init] + Plains(body) + [log, call] + Afters(body) + [ret]
  {
    SortBody(Sorter([], [], false, []), body, Tail(init, log, call, ret));
    assert [] + Plains(body) == Plains(body) && [] + Afters(body) == Afters(body);
    SortTail(Sorter(Afters(body), Plains(body), false, []), init, log, call, ret);
  }

  /** Statements of either kind, as a multiset. */
  lemma {:induction false} EachOnce(items: seq<Item>)
    requires Body(items)
    ensures multiset(Plains(items)) + multiset(Afters(items)) == multiset(Statements(items))
  {
    if items != [] {
      EachOnce(items[1..]);
    }
  }

  function Statements(items: seq<Item>): seq<Stmt> {
    if items == [] then [] else (if items[0].AfterMark? then [] else [items[0].s]) + Statements(items[1..])
  }

  // ---------------------------------------------------------------- layout

  /** The first offset after the fields. */
  function EndOf(fields: seq<Field>): nat {
    if fields == [] then 8 else fields[|fields| - 1].offset + fields[|fields| - 1].size
  }

  /** Each field is at the least aligned offset after the ones before it. */
  ghost predicate LeastPadding(fields: seq<Field>) {
    fields != [] ==>
      var front, f := fields[..|fields| - 1], fields[|fields| - 1];
      LeastPadding(front) && LeastOffset(EndOf(front), f)
  }

  ghost predicate LeastOffset(from: nat, f: Field) {
    f.alignment > 0 && from <= f.offset && f.offset % f.alignment == 0
    && forall x :: from <= x < f.offset ==> x % f.alignment != 0
  }

  /** The data parameters among the parameters. */
  function DataSpecs(specs: seq<Spec>): seq<Spec> {
    if specs == [] then []
    else DataSpecs(specs[..|specs| - 1]) + if IsData(specs[|specs| - 1]) then [specs[|specs| - 1]] else []
  }

  /** The fields are those of the data parameters, in order. */
  ghost predicate FieldsOf(types: Types, fields: seq<Field>, data: seq<Spec>)
    requires Acyclic(types)
  {
    |fields| == |data|
    && forall i :: 0 <= i < |data| ==>
         fields[i].size == TypeSize(types, DataElem(data[i])) && fields[i].alignment == Alignment(types, data[i])
  }

  /** Least padding throughout, and the fields are those of the data parameters. */
  ghost predicate LaidOut(types: Types, g: Gen, data: seq<Spec>)
    requires Acyclic(types)
  {
    LeastPadding(g.fields) && g.offset == EndOf(g.fields) && FieldsOf(types, g.fields, data)
  }

  lemma FieldAdded(types: Types, g: Gen, spec: Spec, data: seq<Spec>, after: Gen)
    requires Acyclic(types) && Alignment(types, spec) > 0 && LaidOut(types, g, data)
    requires var f := Place(types, g, spec); after.fields == g.fields + [f] && after.offset == f.offset + f.size
    ensures LaidOut(types, after, data + [spec])
  {
    var f := Place(types, g, spec);
    AlignUpIsLeast(g.offset, f.alignment);
    assert (g.fields + [f])[..|g.fields|] == g.fields;
  }

  lemma InputLaidOut(types: Types, g: Gen, spec: Spec, data: seq<Spec>)
    requires Acyclic(types) && (IsData(spec) ==> Alignment(types, spec) > 0) && LaidOut(types, g, data)
    ensures LaidOut(types, AddInput(types, g, spec), if IsData(spec) then data + [spec] else data)
  {
    if IsData(spec) {
      FieldAdded(types, g, spec, data, AddInput(types, g, spec));
    }
  }

  lemma OutputLaidOut(types: Types, g: Gen, spec: Spec, data: seq<Spec>)
    requires Acyclic(types) && !IsPid(spec) && (IsData(spec) ==> Alignment(types, spec) > 0) && LaidOut(types, g, data)
    ensures LaidOut(types, AddOutput(types, g, spec), if IsData(spec) then data + [spec] else data)
  {
    if IsData(spec) {
      FieldAdded(types, g, spec, data, AddOutput(types, g, spec));
    }
  }

  lemma {:induction false} InputLayout(types: Types, inputs: seq<Spec>)
    requires Acyclic(types) && Aligned(types, inputs)
    ensures LaidOut(types, Inputs(types, inputs), DataSpecs(inputs))
    decreases |inputs|
  {
    if inputs != [] {
      var front := inputs[..|inputs| - 1];
      InputLayout(types, front);
      InputLaidOut(types, Inputs(types, front), inputs[|inputs| - 1], DataSpecs(front));
      assert DataSpecs(front) + [] == DataSpecs(front);
    }
  }

  lemma {:induction false} OutputLayout(types: Types, g0: Gen, outputs: seq<Spec>)
    requires Acyclic(types) && Aligned(types, outputs) && NoPid(outputs)
    ensures LaidOut(types, Outputs(types, g0, outputs), DataSpecs(outputs))
    decreases |outputs|
  {
    if outputs != [] {
      var front := outputs[..|outputs| - 1];
      OutputLayout(types, g0, front);
      OutputLaidOut(types, Outputs(types, g0, front), outputs[|outputs| - 1], DataSpecs(front));
      assert DataSpecs(front) + [] == DataSpecs(front);
    }
  }

  /**
   Fields ascend without overlap from offset 8 on, clear of the result code in bytes 0 to 3, and
   end inside the area whose size is passed to `GenBuf`.
   */
  lemma {:induction false} FieldsDisjoint(fields: seq<Field>, i: nat, j: nat)
    requires LeastPadding(fields) && i <= j < |fields|
    ensures 8 <= fields[i].offset && fields[j].offset + fields[j].size <= EndOf(fields)
    ensures i < j ==> fields[i].offset + fields[i].size <= fields[j].offset
    decreases |fields|
  {
    var n := |fields| - 1;
    var front := fields[..n];
    if j < n {
      FieldsDisjoint(front, i, j);
    } else if i < j {
      FieldsDisjoint(front, i, n - 1);
    } else if n > 0 {
      FieldsDisjoint(front, n - 1, n - 1);
    }
  }

  // ---------------------------------------------------------------- parameters

  lemma {:induction false} InputCount(types: Types, inputs: seq<Spec>)
    requires Acyclic(types) && Aligned(types, inputs)
    ensures var g := Inputs(types, inputs); |g.params| == |inputs| + g.bufs && Body(g.items)
    decreases |inputs|
  {
    if inputs != [] {
      InputCount(types, inputs[..|inputs| - 1]);
    }
  }

  /** The indexes under which the arguments look up moved handles. */
  function MovedIndexes(params: seq<Param>): seq<nat> {
    if params == [] then []
    else MovedIndexes(params[..|params| - 1]) + if params[|params| - 1].Moved? then [params[|params| - 1].i] else []
  }

  function ObjectCount(specs: seq<Spec>): nat {
    if specs == [] then 0 else ObjectCount(specs[..|specs| - 1]) + if specs[|specs| - 1].Object? then 1 else 0
  }

  lemma MovedSnoc(params: seq<Param>, p: Param)
    ensures MovedIndexes(params + [p]) == MovedIndexes(params) + if p.Moved? then [p.i] else []
  {
    assert (params + [p])[..|params|] == params;
  }

  lemma InputMoved(types: Types, g: Gen, spec: Spec)
    requires Acyclic(types) && (IsData(spec) ==> Alignment(types, spec) > 0)
    ensures var after := AddInput(types, g, spec);
            if spec.Object? then MovedIndexes(after.params) == MovedIndexes(g.params) + [g.moves] && after.moves == g.moves + 1
            else MovedIndexes(after.params) == MovedIndexes(g.params) && after.moves == g.moves
  {
    var after := AddInput(types, g, spec);
    if spec.Array? || spec.Buffer? {
      assert after.params == g.params + [Temp(g.temps + 3)] + [Temp(g.temps + 2)];
      MovedSnoc(g.params + [Temp(g.temps + 3)], Temp(g.temps + 2));
      MovedSnoc(g.params, Temp(g.temps + 3));
    } else {
      MovedSnoc(g.params, after.params[|g.params|]);
    }
  }

  /** The objects among the inputs are the message's moved handles in order, each used once. */
  lemma {:induction false} InputHandles(types: Types, inputs: seq<Spec>)
    requires Acyclic(types) && Aligned(types, inputs)
    ensures var g := Inputs(types, inputs);
            g.moves == ObjectCount(inputs) == |MovedIndexes(g.params)|
            && forall i :: 0 <= i < g.moves ==> MovedIndexes(g.params)[i] == i
    decreases |inputs|
  {
    if inputs != [] {
      InputHandles(types, inputs[..|inputs| - 1]);
      InputMoved(types, Inputs(types, inputs[..|inputs| - 1]), inputs[|inputs| - 1]);
    }
  }

  lemma {:induction false} OutputCount(types: Types, g0: Gen, outputs: seq<Spec>)
    requires Acyclic(types) && Aligned(types, outputs) && NoPid(outputs) && Body(g0.items)
    ensures var g := Outputs(types, g0, outputs);
            |g.params| - g.bufs == |outputs| + |g0.params| - g0.bufs && Body(g.items)
    decreases |outputs|
  {
    if outputs != [] {
      OutputCount(types, g0, outputs[..|outputs| - 1]);
    }
  }

  /** The generator's variables after all parameters. */
  function Whole(types: Types, inputs: seq<Spec>, outputs: seq<Spec>): Gen
    requires Acyclic(types) && Aligned(types, inputs) && Aligned(types, outputs) && NoPid(outputs)
  {
    Outputs(types, Inputs(types, inputs), outputs)
  }

  /** The number of arguments is always as expected, so the branch that rejects a command is never taken. */
  lemma NeverRejected(types: Types, inputs: seq<Spec>, outputs: seq<Spec>)
    requires Acyclic(types) && Aligned(types, inputs) && Aligned(types, outputs) && NoPid(outputs)
    ensures var g := Whole(types, inputs, outputs);
            && |outputs| + |inputs| + g.bufs == |g.params| && Body(g.items)
            && Caller(types, inputs, outputs)
               == g.items + Tail(GenBuf(g.moves, g.copies, g.offset - 8), Log, Call(g.params), Return(0))
  {
    InputCount(types, inputs);
    OutputCount(types, Inputs(types, inputs), outputs);
  }

  /** The whole stub, reordered: each generated statement once, in the order in which they must run. */
  lemma StubOrder(types: Types, inputs: seq<Spec>, outputs: seq<Spec>)
    requires Acyclic(types) && Aligned(types, inputs) && Aligned(types, outputs) && NoPid(outputs)
    ensures OneInit(Caller(types, inputs, outputs))
    ensures IsStub(Reordered(Caller(types, inputs, outputs)), Whole(types, inputs, outputs))
  {
    NeverRejected(types, inputs, outputs);
    StubOf(Whole(types, inputs, outputs), Caller(types, inputs, outputs));
  }

  /** The generated statements in order, and each of them once. */
  ghost predicate IsStub(stub: seq<Stmt>, g: Gen) {
    var init := GenBuf(g.moves, g.copies, g.offset - 8);
    && stub == [init] + Plains(g.items) + [Log, Call(g.params)] + Afters(g.items) + [Return(0)]
    && multiset(stub) == multiset(Statements(g.items)) + multiset{init, Log, Call(g.params), Return(0)}
  }

  lemma StubOf(g: Gen, items: seq<Item>)
    requires Body(g.items) && items == g.items + Tail(GenBuf(g.moves, g.copies, g.offset - 8), Log, Call(g.params), Return(0))
    ensures OneInit(items) && IsStub(Reordered(items), g)
  {
    var init := GenBuf(g.moves, g.copies, g.offset - 8);
    StubHasOneInit(g.items, init, Log, Call(g.params), Return(0));
    ReorderStub(g.items, init, Log, Call(g.params), Return(0));
    EachOnce(g.items);
  }
}
