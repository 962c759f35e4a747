/**
 A generated stub writes to the message that its own `GenBuf` call builds: the places of its data
 fields, handles and result code in that message.
 */
module StubMessage {
  import opened StubGen
  import Ipc

  /** What a stub writes: an output field, a returned handle or the result code. */
  datatype Target = FieldOf(i: nat) | MovedHandle(i: nat) | CopiedHandle(i: nat) | ResultCode

  predicate Valid(g: Gen, t: Target) {
    match t
    case FieldOf(i) => i < |g.fields|
    case MovedHandle(i) => i < g.moves
    case CopiedHandle(i) => i < g.copies
    case ResultCode => true
  }

  /** The first byte of the payload of the message that the stub's `GenBuf` builds. */
  function Payload(g: Gen): nat {
    4 * Ipc.PayloadWord(g.moves, g.copies)
  }

  /** The first byte that a write goes to; `GetDataPointer` counts offsets from eight bytes into the payload. */
  function At(g: Gen, t: Target): nat
    requires Valid(g, t)
  {
    match t
    case FieldOf(i) => Payload(g) + 8 + g.fields[i].offset
    case MovedHandle(i) => 4 * Ipc.Slot(Ipc.Move(i, 0), g.moves, g.copies)
    case CopiedHandle(i) => 4 * Ipc.Slot(Ipc.Copy(i, 0), g.moves, g.copies)
    case ResultCode => 4 * Ipc.Slot(Ipc.Error(0), g.moves, g.copies)
  }

  function Size(g: Gen, t: Target): nat
    requires Valid(g, t)
  {
    if t.FieldOf? then g.fields[t.i].size else 4
  }

  predicate Before(g: Gen, t: Target, u: Target)
    requires Valid(g, t) && Valid(g, u)
  {
    At(g, t) + Size(g, t) <= At(g, u)
  }

  /** The generator's variables after the outputs, as far as they matter here. */
  ghost predicate Fields(g: Gen) {
    LeastPadding(g.fields) && g.offset == EndOf(g.fields)
  }

  lemma FieldsApart(g: Gen, i: nat, j: nat)
    requires Fields(g) && i < |g.fields| && j < |g.fields| && i != j
    ensures Before(g, FieldOf(i), FieldOf(j)) || Before(g, FieldOf(j), FieldOf(i))
  {
    FieldsDisjoint(g.fields, if i < j then i else j, if i < j then j else i);
  }

  /** Handles lie between the descriptor and the payload, and the result code before the fields. */
  lemma Bounds(g: Gen, t: Target)
    requires Fields(g) && Valid(g, t)
    ensures t.FieldOf? ==> Payload(g) + 16 <= At(g, t) && At(g, t) + Size(g, t) <= Payload(g) + 8 + g.offset
    ensures t.MovedHandle? || t.CopiedHandle? ==> 12 <= At(g, t) && At(g, t) + 4 <= Payload(g)
    ensures t.ResultCode? ==> At(g, t) == Payload(g) + 8
  {
    if t.FieldOf? {
      FieldsDisjoint(g.fields, t.i, t.i);
      EndsBelow(g.fields, t.i);
    }
  }

  lemma EndsBelow(fields: seq<Field>, i: nat)
    requires LeastPadding(fields) && i < |fields|
    ensures fields[i].offset + fields[i].size <= EndOf(fields)
  {
    FieldsDisjoint(fields, i, i);
  }

  lemma HandlesApart(g: Gen, t: Target, u: Target)
    requires Valid(g, t) && Valid(g, u) && t != u && !t.FieldOf? && !u.FieldOf? && !t.ResultCode? && !u.ResultCode?
    ensures Before(g, t, u) || Before(g, u, t)
  {
  }

  /** Two writes of a stub never touch the same byte, whatever its signature. */
  lemma WritesApart(types: Types, inputs: seq<Spec>, outputs: seq<Spec>, t: Target, u: Target)
    requires Acyclic(types) && Aligned(types, inputs) && Aligned(types, outputs) && NoPid(outputs)
    requires Valid(Whole(types, inputs, outputs), t) && Valid(Whole(types, inputs, outputs), u) && t != u
    ensures var g := Whole(types, inputs, outputs); Before(g, t, u) || Before(g, u, t)
  {
    var g := Whole(types, inputs, outputs);
    WholeFields(types, inputs, outputs);
    Apart(g, t, u);
  }

  lemma WholeFields(types: Types, inputs: seq<Spec>, outputs: seq<Spec>)
    requires Acyclic(types) && Aligned(types, inputs) && Aligned(types, outputs) && NoPid(outputs)
    ensures Fields(Whole(types, inputs, outputs))
  {
    OutputLayout(types, Inputs(types, inputs), outputs);
  }

  lemma Apart(g: Gen, t: Target, u: Target)
    requires Fields(g) && Valid(g, t) && Valid(g, u) && t != u
    ensures Before(g, t, u) || Before(g, u, t)
  {
    Bounds(g, t);
    Bounds(g, u);
    if t.FieldOf? && u.FieldOf? {
      FieldsApart(g, t.i, u.i);
    } else if !t.FieldOf? && !u.FieldOf? && !t.ResultCode? && !u.ResultCode? {
      HandlesApart(g, t, u);
    }
  }

  /** Nothing that a stub writes touches the header, the handle descriptor or the magic. */
  lemma HeaderUntouched(types: Types, inputs: seq<Spec>, outputs: seq<Spec>, t: Target)
    requires Acyclic(types) && Aligned(types, inputs) && Aligned(types, outputs) && NoPid(outputs)
    requires Valid(Whole(types, inputs, outputs), t)
    ensures var g := Whole(types, inputs, outputs);
            At(g, t) >= 8 + (if Ipc.HasHandles(g.moves, g.copies) then 4 else 0)
            && (At(g, t) + Size(g, t) <= Payload(g) || At(g, t) >= Payload(g) + 8)
  {
    WholeFields(types, inputs, outputs);
    Bounds(Whole(types, inputs, outputs), t);
  }

  /** The response's data ends inside the message buffer. */
  predicate FitsBuffer(g: Gen) {
    Payload(g) + 8 + g.offset <= 4 * Ipc.BUFFER_WORDS
  }

  /**
   Everything that a stub writes lies inside the message buffer exactly when its data ends there,
   and then the message is one that can be built and parsed.
   */
  lemma WritesInside(types: Types, inputs: seq<Spec>, outputs: seq<Spec>)
    requires Acyclic(types) && Aligned(types, inputs) && Aligned(types, outputs) && NoPid(outputs)
    ensures var g := Whole(types, inputs, outputs);
            && (FitsBuffer(g) <==> forall t :: Valid(g, t) ==> At(g, t) + Size(g, t) <= 4 * Ipc.BUFFER_WORDS)
            && (FitsBuffer(g) ==> g.offset >= 8 && Ipc.Buildable(g.moves, g.copies, g.offset - 8))
  {
    var g := Whole(types, inputs, outputs);
    WholeFields(types, inputs, outputs);
    EndAtLeast(g.fields);
    if FitsBuffer(g) {
      forall t | Valid(g, t) ensures At(g, t) + Size(g, t) <= 4 * Ipc.BUFFER_WORDS {
        Bounds(g, t);
      }
    } else {
      LastWrite(g);
    }
  }

  lemma EndAtLeast(fields: seq<Field>)
    requires LeastPadding(fields)
    ensures EndOf(fields) >= 8
  {
    if fields != [] { FieldsDisjoint(fields, |fields| - 1, |fields| - 1); }
  }

  /** The write that leaves the buffer when the data does. */
  lemma LastWrite(g: Gen)
    requires Fields(g) && !FitsBuffer(g)
    ensures exists t :: Valid(g, t) && At(g, t) + Size(g, t) > 4 * Ipc.BUFFER_WORDS
  {
    var t := if g.fields == [] then ResultCode else FieldOf(|g.fields| - 1);
    assert Valid(g, t) && At(g, t) + Size(g, t) > 4 * Ipc.BUFFER_WORDS;
  }
}
