/**
 The arguments and the statements of a generated stub, read off its signature: what each parameter
 contributes, and where.
 */
module StubArgs {
  import opened StubGen
  import StubRun

  function KindCount(specs: seq<Spec>, kind: int): nat {
    if specs == [] then 0
    else
      var s := specs[|specs| - 1];
      KindCount(specs[..|specs| - 1], kind) + if (s.Array? || s.Buffer?) && s.kind == kind then 1 else 0
  }

  /** Data parameters that are passed by pointer. */
  function PointerCount(types: Types, specs: seq<Spec>): nat
    requires Acyclic(types)
  {
    if specs == [] then 0
    else
      var s := specs[|specs| - 1];
      PointerCount(types, specs[..|specs| - 1]) + if IsData(s) && IsPointerType(types, DataElem(s)) then 1 else 0
  }

  /** Handles that the service returns. */
  function HandleCount(specs: seq<Spec>): nat {
    ObjectCount(specs) + StubRun.ServiceCount(specs)
  }

  predicate IsBuffer(spec: Spec) {
    spec.Array? || spec.Buffer?
  }

  // ---------------------------------------------------------------- inputs

  /** The generator's counters after the inputs. */
  ghost predicate CountedInputs(g: Gen, inputs: seq<Spec>) {
    var b := StubRun.BufferCount(inputs);
    && |g.params| == |inputs| + b && |g.items| == 5 * b && g.temps == 3 * b && |g.fields| == |DataSpecs(inputs)|
    && g.moves == ObjectCount(inputs) && g.copies == StubRun.ServiceCount(inputs)
    && forall kind: int :: BufferIndex(g.bufOffs, kind) == KindCount(inputs, kind)
  }

  /** What the input parameter at position `k` contributes. */
  ghost predicate InputAt(g: Gen, inputs: seq<Spec>, k: nat)
    requires k < |inputs|
  {
    var before, spec := inputs[..k], inputs[k];
    var b := StubRun.BufferCount(before);
    var p, q, t, d := k + b, 5 * b, 3 * b, |DataSpecs(before)|;
    if IsBuffer(spec) then
      && p + 2 <= |g.params| && g.params[p] == Temp(t + 3) && g.params[p + 1] == Temp(t + 2)
      && q + 5 <= |g.items|
      && g.items[q] == Plain(Declare(t + 2))
      && g.items[q + 1] == Plain(Fetch(t + 1, spec.kind, KindCount(before, spec.kind), t + 2))
      && g.items[q + 2] == Plain(Alloc(t + 3, t + 2))
      && g.items[q + 3] == Plain(ReadIn(t + 1, t + 3, t + 2))
      && g.items[q + 4] == After(Free(t + 3))
    else
      p < |g.params|
      && if spec.Object? then g.params[p] == Moved(ObjectCount(before))
         else if spec.IpcService? then g.params[p] == Copied(ObjectCount(before))
         else if IsPid(spec) then g.params[p] == ProcessId
         else d < |g.fields| && g.params[p] == InRef(g.fields[d].offset, g.fields[d].size)
  }

  /** The counts with one parameter more. */
  lemma CountsNext(types: Types, front: seq<Spec>, spec: Spec)
    requires Acyclic(types)
    ensures var more, one := front + [spec], if IsBuffer(spec) then 1 else 0;
            && more[..|front|] == front && more[|front|] == spec
            && StubRun.BufferCount(more) == StubRun.BufferCount(front) + one
            && ObjectCount(more) == ObjectCount(front) + (if spec.Object? then 1 else 0)
            && StubRun.ServiceCount(more) == StubRun.ServiceCount(front) + (if spec.IpcService? then 1 else 0)
            && |DataSpecs(more)| == |DataSpecs(front)| + (if IsData(spec) then 1 else 0)
            && PointerCount(types, more)
               == PointerCount(types, front) + (if IsData(spec) && IsPointerType(types, DataElem(spec)) then 1 else 0)
            && forall kind: int ::
                 KindCount(more, kind) == KindCount(front, kind) + (if IsBuffer(spec) && spec.kind == kind then 1 else 0)
  {
    assert (front + [spec])[..|front|] == front;
  }

  /** The generator after one input more. */
  ghost predicate InputAdded(g: Gen, h: Gen, front: seq<Spec>, spec: Spec) {
    && CountedInputs(h, front + [spec]) && InputAt(h, front + [spec], |front|)
    && g.params <= h.params && g.items <= h.items && g.fields <= h.fields
  }

  lemma InBufferAdded(types: Types, g: Gen, front: seq<Spec>, spec: Spec)
    requires Acyclic(types) && IsBuffer(spec) && CountedInputs(g, front)
    ensures InputAdded(g, AddInput(types, g, spec), front, spec)
  {
    CountsNext(types, front, spec);
  }

  lemma OtherInputAdded(types: Types, g: Gen, front: seq<Spec>, spec: Spec)
    requires Acyclic(types) && !IsBuffer(spec) && (IsData(spec) ==> Alignment(types, spec) > 0) && CountedInputs(g, front)
    ensures InputAdded(g, AddInput(types, g, spec), front, spec)
  {
    CountsNext(types, front, spec);
  }

  lemma InputLast(types: Types, g: Gen, front: seq<Spec>, spec: Spec)
    requires Acyclic(types) && (IsData(spec) ==> Alignment(types, spec) > 0) && CountedInputs(g, front)
    ensures InputAdded(g, AddInput(types, g, spec), front, spec)
  {
    if IsBuffer(spec) {
      InBufferAdded(types, g, front, spec);
    } else {
      OtherInputAdded(types, g, front, spec);
    }
  }

  lemma InputStays(g: Gen, h: Gen, inputs: seq<Spec>, more: seq<Spec>, k: nat)
    requires k < |inputs| && inputs <= more && InputAt(g, inputs, k)
    requires g.params <= h.params && g.items <= h.items && g.fields <= h.fields
    ensures InputAt(h, more, k)
  {
    assert inputs[..k] == more[..k];
  }

  /** Each input parameter has its arguments and statements at their places, and there are no others. */
  lemma {:induction false} InputArguments(types: Types, inputs: seq<Spec>)
    requires Acyclic(types) && Aligned(types, inputs)
    ensures CountedInputs(Inputs(types, inputs), inputs)
    ensures forall k: nat :: k < |inputs| ==> InputAt(Inputs(types, inputs), inputs, k)
    decreases |inputs|
  {
    if inputs != [] {
      var n := |inputs| - 1;
      var front, spec := inputs[..n], inputs[n];
      var g := Inputs(types, front);
      assert inputs == front + [spec];
      InputArguments(types, front);
      InputLast(types, g, front, spec);
      forall k: nat | k < |inputs| ensures InputAt(Inputs(types, inputs), inputs, k) {
        if k < n { InputStays(g, Inputs(types, inputs), front, inputs, k); }
      }
    }
  }

  /** The references to request data among the arguments, and those to the fields. */
  function InRefs(params: seq<Param>): seq<Param> {
    if params == [] then []
    else
      var p := params[|params| - 1];
      InRefs(params[..|params| - 1]) + if p.InRef? then [p] else []
  }

  function FieldRefs(fields: seq<Field>): seq<Param> {
    seq(|fields|, i requires 0 <= i < |fields| => InRef(fields[i].offset, fields[i].size))
  }

  lemma InRefsNext(params: seq<Param>, p: Param)
    ensures InRefs(params + [p]) == InRefs(params) + if p.InRef? then [p] else []
  {
    assert (params + [p])[..|params|] == params;
  }

  /** The request data that the call reads is that of the fields, in order. */
  lemma {:induction false} InputReferences(types: Types, inputs: seq<Spec>)
    requires Acyclic(types) && Aligned(types, inputs)
    ensures var g := Inputs(types, inputs); InRefs(g.params) == FieldRefs(g.fields)
    decreases |inputs|
  {
    if inputs != [] {
      var g, spec := Inputs(types, inputs[..|inputs| - 1]), inputs[|inputs| - 1];
      InputReferences(types, inputs[..|inputs| - 1]);
      ReferenceAdded(types, g, spec);
    }
  }

  lemma ReferenceAdded(types: Types, g: Gen, spec: Spec)
    requires Acyclic(types) && (IsData(spec) ==> Alignment(types, spec) > 0) && InRefs(g.params) == FieldRefs(g.fields)
    ensures var h := AddInput(types, g, spec); InRefs(h.params) == FieldRefs(h.fields)
  {
    if IsBuffer(spec) {
      TwoTemps(g.params, g.temps + 3, g.temps + 2);
    } else if IsData(spec) {
      var f := Place(types, g, spec);
      InRefsNext(g.params, InRef(f.offset, f.size));
      FieldRefsNext(g.fields, f);
    } else {
      InRefsNext(g.params, if spec.Object? then Moved(g.moves) else if spec.IpcService? then Copied(g.moves) else ProcessId);
    }
  }

  lemma TwoTemps(params: seq<Param>, a: nat, b: nat)
    ensures InRefs(params + [Temp(a), Temp(b)]) == InRefs(params)
  {
    assert params + [Temp(a), Temp(b)] == params + [Temp(a)] + [Temp(b)];
    InRefsNext(params + [Temp(a)], Temp(b));
    InRefsNext(params, Temp(a));
  }

  lemma FieldRefsNext(fields: seq<Field>, f: Field)
    ensures FieldRefs(fields + [f]) == FieldRefs(fields) + [InRef(f.offset, f.size)]
  {
  }

  // ---------------------------------------------------------------- outputs

  /** The first argument, statement and temporary after the inputs and some outputs. */
  function Argument(inputs: seq<Spec>, before: seq<Spec>): nat {
    |inputs| + StubRun.BufferCount(inputs) + |before| + StubRun.BufferCount(before)
  }

  function Statement(types: Types, inputs: seq<Spec>, before: seq<Spec>): nat
    requires Acyclic(types)
  {
    5 * StubRun.BufferCount(inputs) + 5 * StubRun.BufferCount(before) + 3 * HandleCount(before) + PointerCount(types, before)
  }

  function Temporary(types: Types, inputs: seq<Spec>, before: seq<Spec>): nat
    requires Acyclic(types)
  {
    3 * StubRun.BufferCount(inputs) + 3 * StubRun.BufferCount(before) + HandleCount(before) + PointerCount(types, before)
  }

  ghost predicate CountedOutputs(types: Types, g: Gen, inputs: seq<Spec>, outputs: seq<Spec>)
    requires Acyclic(types)
  {
    && |g.params| == Argument(inputs, outputs) && |g.items| == Statement(types, inputs, outputs)
    && g.temps == Temporary(types, inputs, outputs) && |g.fields| == |DataSpecs(outputs)|
    && g.moves == ObjectCount(outputs) && g.copies == StubRun.ServiceCount(outputs)
    && forall kind: int :: BufferIndex(g.bufOffs, kind) == KindCount(inputs, kind) + KindCount(outputs, kind)
  }

  /** The arguments and statements of a buffer, at argument `p` and statement `q`, with temporaries after `t`. */
  predicate OutBufferAt(g: Gen, p: nat, q: nat, t: nat, kind: int, index: nat) {
    && p + 2 <= |g.params| && g.params[p] == Temp(t + 3) && g.params[p + 1] == Temp(t + 2)
    && q + 5 <= |g.items|
    && g.items[q] == Plain(Declare(t + 2))
    && g.items[q + 1] == Plain(Fetch(t + 1, kind, index, t + 2))
    && g.items[q + 2] == Plain(Alloc(t + 3, t + 2))
    && g.items[q + 3] == After(WriteBack(t + 1, t + 3, t + 2))
    && g.items[q + 4] == After(Free(t + 3))
  }

  predicate HandleAt(g: Gen, p: nat, q: nat, t: nat, send: Stmt) {
    && p < |g.params| && g.params[p] == Temp(t + 1) && q + 3 <= |g.items|
    && g.items[q] == Plain(Declare(t + 1)) && g.items[q + 1] == After(IfNotNull(t + 1)) && g.items[q + 2] == After(send)
  }

  predicate FieldAt(g: Gen, p: nat, q: nat, t: nat, d: nat, pointer: bool) {
    && d < |g.fields| && p < |g.params|
    && var f := g.fields[d];
       if pointer then q < |g.items| && g.params[p] == Temp(t + 1) && g.items[q] == Plain(DataPointer(t + 1, f.offset, f.size))
       else g.params[p] == OutRef(f.offset, f.size)
  }

  /** What the output parameter at position `k` contributes. */
  ghost predicate OutputAt(types: Types, g: Gen, inputs: seq<Spec>, outputs: seq<Spec>, k: nat)
    requires Acyclic(types) && k < |outputs|
  {
    var before, spec := outputs[..k], outputs[k];
    var p, q, t := Argument(inputs, before), Statement(types, inputs, before), Temporary(types, inputs, before);
    if IsBuffer(spec) then OutBufferAt(g, p, q, t, spec.kind, KindCount(inputs, spec.kind) + KindCount(before, spec.kind))
    else if spec.Object? then HandleAt(g, p, q, t, SetMove(ObjectCount(before), t + 1))
    else if spec.IpcService? then HandleAt(g, p, q, t, SetCopy(StubRun.ServiceCount(before), t + 1))
    else FieldAt(g, p, q, t, |DataSpecs(before)|, IsPointerType(types, DataElem(spec)))
  }

  /** The generator after one output more. */
  ghost predicate OutputAdded(types: Types, g: Gen, h: Gen, inputs: seq<Spec>, front: seq<Spec>, spec: Spec)
    requires Acyclic(types)
  {
    && CountedOutputs(types, h, inputs, front + [spec]) && OutputAt(types, h, inputs, front + [spec], |front|)
    && g.params <= h.params && g.items <= h.items && g.fields <= h.fields
  }

  /** A buffer's statements, arguments and temporaries are added, and nothing else. */
  ghost predicate BufferOnly(g: Gen, h: Gen, kind: int, fill: Item) {
    var t, index := g.temps, BufferIndex(g.bufOffs, kind);
    && h.items == g.items + [Plain(Declare(t + 2)), Plain(Fetch(t + 1, kind, index, t + 2)), Plain(Alloc(t + 3, t + 2)),
                             fill, After(Free(t + 3))]
    && h.params == g.params + [Temp(t + 3), Temp(t + 2)] && h.temps == t + 3
    && h.fields == g.fields && h.moves == g.moves && h.copies == g.copies && h.bufOffs == g.bufOffs[kind := index + 1]
  }

  lemma OutBufferOnly(types: Types, g: Gen, spec: Spec)
    requires Acyclic(types) && IsBuffer(spec)
    ensures BufferOnly(g, AddOutput(types, g, spec), spec.kind, After(WriteBack(g.temps + 1, g.temps + 3, g.temps + 2)))
  {
  }

  lemma OutBufferCounted(types: Types, g: Gen, h: Gen, inputs: seq<Spec>, front: seq<Spec>, spec: Spec, fill: Item)
    requires Acyclic(types) && IsBuffer(spec) && CountedOutputs(types, g, inputs, front) && BufferOnly(g, h, spec.kind, fill)
    ensures CountedOutputs(types, h, inputs, front + [spec])
  {
    CountsNext(types, front, spec);
  }

  lemma OutBufferPlaced(types: Types, g: Gen, h: Gen, inputs: seq<Spec>, front: seq<Spec>, spec: Spec)
    requires Acyclic(types) && IsBuffer(spec) && CountedOutputs(types, g, inputs, front)
    requires BufferOnly(g, h, spec.kind, After(WriteBack(g.temps + 1, g.temps + 3, g.temps + 2)))
    ensures OutputAt(types, h, inputs, front + [spec], |front|)
  {
    assert (front + [spec])[..|front|] == front;
  }

  lemma OutBufferAdded(types: Types, g: Gen, inputs: seq<Spec>, front: seq<Spec>, spec: Spec)
    requires Acyclic(types) && IsBuffer(spec) && CountedOutputs(types, g, inputs, front)
    ensures OutputAdded(types, g, AddOutput(types, g, spec), inputs, front, spec)
  {
    var h, fill := AddOutput(types, g, spec), After(WriteBack(g.temps + 1, g.temps + 3, g.temps + 2));
    OutBufferOnly(types, g, spec);
    OutBufferCounted(types, g, h, inputs, front, spec, fill);
    OutBufferPlaced(types, g, h, inputs, front, spec);
  }

  lemma ObjectAdded(types: Types, g: Gen, inputs: seq<Spec>, front: seq<Spec>, spec: Spec)
    requires Acyclic(types) && spec.Object? && CountedOutputs(types, g, inputs, front)
    ensures OutputAdded(types, g, AddOutput(types, g, spec), inputs, front, spec)
  {
    CountsNext(types, front, spec);
  }

  lemma ServiceAdded(types: Types, g: Gen, inputs: seq<Spec>, front: seq<Spec>, spec: Spec)
    requires Acyclic(types) && spec.IpcService? && CountedOutputs(types, g, inputs, front)
    ensures OutputAdded(types, g, AddOutput(types, g, spec), inputs, front, spec)
  {
    CountsNext(types, front, spec);
  }

  lemma OutFieldAdded(types: Types, g: Gen, inputs: seq<Spec>, front: seq<Spec>, spec: Spec)
    requires Acyclic(types) && IsData(spec) && Alignment(types, spec) > 0 && CountedOutputs(types, g, inputs, front)
    ensures OutputAdded(types, g, AddOutput(types, g, spec), inputs, front, spec)
  {
    CountsNext(types, front, spec);
  }

  lemma OutputLast(types: Types, g: Gen, inputs: seq<Spec>, front: seq<Spec>, spec: Spec)
    requires Acyclic(types) && !IsPid(spec) && (IsData(spec) ==> Alignment(types, spec) > 0)
    requires CountedOutputs(types, g, inputs, front)
    ensures OutputAdded(types, g, AddOutput(types, g, spec), inputs, front, spec)
  {
    if IsBuffer(spec) {
      OutBufferAdded(types, g, inputs, front, spec);
    } else if spec.Object? {
      ObjectAdded(types, g, inputs, front, spec);
    } else if spec.IpcService? {
      ServiceAdded(types, g, inputs, front, spec);
    } else {
      OutFieldAdded(types, g, inputs, front, spec);
    }
  }

  lemma OutputStays(types: Types, g: Gen, h: Gen, inputs: seq<Spec>, outputs: seq<Spec>, more: seq<Spec>, k: nat)
    requires Acyclic(types) && k < |outputs| && outputs <= more && OutputAt(types, g, inputs, outputs, k)
    requires g.params <= h.params && g.items <= h.items && g.fields <= h.fields
    ensures OutputAt(types, h, inputs, more, k)
  {
    assert outputs[..k] == more[..k];
  }

  /** The same for the outputs, after what the inputs contributed. */
  lemma {:induction false} OutputArguments(types: Types, inputs: seq<Spec>, outputs: seq<Spec>)
    requires Acyclic(types) && Aligned(types, inputs) && Aligned(types, outputs) && NoPid(outputs)
    ensures var g := Whole(types, inputs, outputs);
            && CountedOutputs(types, g, inputs, outputs)
            && Inputs(types, inputs).params <= g.params && Inputs(types, inputs).items <= g.items
            && forall k: nat :: k < |outputs| ==> OutputAt(types, g, inputs, outputs, k)
    decreases |outputs|
  {
    if outputs == [] {
      InputArguments(types, inputs);
    } else {
      var n := |outputs| - 1;
      var front, spec := outputs[..n], outputs[n];
      var g := Whole(types, inputs, front);
      assert outputs == front + [spec];
      OutputArguments(types, inputs, front);
      OutputLast(types, g, inputs, front, spec);
      forall k: nat | k < |outputs| ensures OutputAt(types, Whole(types, inputs, outputs), inputs, outputs, k) {
        if k < n { OutputStays(types, g, Whole(types, inputs, outputs), inputs, front, outputs, k); }
      }
    }
  }
}
