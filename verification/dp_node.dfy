/** The part of the data-processor node contract the constant nodes rely on:
    typed, directed attributes (sockets), the values that flow on them, and
    storing a value on an output socket. */
module DataProcessor {
  import opened Ints
  import opened Results

  datatype IOType = In | Out

  datatype AttrType = BufferType | IntegerType | FloatType

  /** A socket of a node: its direction, the type of value it carries and a
      display name that has no meaning for evaluation. */
  datatype Attribute = Attribute(io: IOType, ty: AttrType, name: string)

  /** A value written to an output socket. Floating-point values are not
      part of this model. */
  datatype Value = BufferValue(bytes: seq<u8>) | IntegerValue(n: u64)

  function TypeOf(v: Value): AttrType
  {
    match v
    case BufferValue(_) => BufferType
    case IntegerValue(_) => IntegerType
  }

  /** `v` may be written to `a`: `a` is an output of the same type. */
  predicate Accepts(a: Attribute, v: Value)
  {
    a.io == Out && TypeOf(v) == a.ty
  }

  /** The values a single `process` call wrote, one slot per attribute;
      `None` for a socket the call did not write. */
  type Outputs = seq<Option<Value>>

  /** Every written slot belongs to an output socket of the value's type. */
  predicate WellTyped(attrs: seq<Attribute>, outs: Outputs)
  {
    && |outs| == |attrs|
    && forall i | 0 <= i < |outs| :: outs[i].Some? ==> Accepts(attrs[i], outs[i].value)
  }

  /** The outputs before a `process` call has written anything. */
  function NoOutputs(attrs: seq<Attribute>): (outs: Outputs)
    ensures WellTyped(attrs, outs)
    ensures forall i | 0 <= i < |outs| :: outs[i].None?
  {
    seq(|attrs|, _ => None)
  }

  /** Stores `v` on output socket `index`. The socket must exist, be an
      output and have the value's type; writing changes no other slot. */
  function SetOnOutput(attrs: seq<Attribute>, outs: Outputs, index: nat, v: Value): (r: Outputs)
    requires WellTyped(attrs, outs)
    requires index < |attrs| && Accepts(attrs[index], v)
    ensures WellTyped(attrs, r)
    ensures r[index] == Some(v)
    ensures forall i | 0 <= i < |r| && i != index :: r[i] == outs[i]
  {
    outs[index := Some(v)]
  }
}
