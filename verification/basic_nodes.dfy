/** The constant-source nodes of the data-processor graph: nullptr, buffer,
    string, integer and comment. Each node is an immutable value holding the
    attribute list fixed at construction and the kind-specific state;
    `process`, `store` and `load` are pure functions from one node value to
    the next. */
module BasicNodes {
  import opened Ints
  import opened Results
  import opened Json
  import opened DataProcessor

  datatype Kind = NullptrKind | BufferKind | StringKind | IntegerKind | CommentKind

  /** The internal state of each kind of node. */
  datatype State =
    | Nullptr
    | Buffer(size: u32, buffer: seq<u8>)
    | String(text: string)
    | Integer(number: u64)
    | Comment(comment: string)

  function KindOf(s: State): Kind
  {
    match s
    case Nullptr => NullptrKind
    case Buffer(_, _) => BufferKind
    case String(_) => StringKind
    case Integer(_) => IntegerKind
    case Comment(_) => CommentKind
  }

  /** A node: its header (the identifier it is shown and saved under), its
      attribute list and its internal state. */
  datatype Node = Node(header: string, attributes: seq<Attribute>, state: State)

  function Header(k: Kind): string
  {
    match k
    case NullptrKind => "hex.builtin.nodes.constants.nullptr.header"
    case BufferKind => "hex.builtin.nodes.constants.buffer.header"
    case StringKind => "hex.builtin.nodes.constants.string.header"
    case IntegerKind => "hex.builtin.nodes.constants.int.header"
    case CommentKind => "hex.builtin.nodes.constants.comment.header"
  }

  /** The attribute list each constructor passes to the base node. */
  function Attributes(k: Kind): seq<Attribute>
  {
    match k
    case IntegerKind => [Attribute(Out, IntegerType, "")]
    case CommentKind => []
    case _ => [Attribute(Out, BufferType, "")]
  }

  /** The invariant every node keeps: header and attributes are the ones its
      kind was constructed with. */
  predicate Valid(n: Node)
  {
    n.header == Header(KindOf(n.state)) && n.attributes == Attributes(KindOf(n.state))
  }

  function DefaultState(k: Kind): State
  {
    match k
    case NullptrKind => Nullptr
    case BufferKind => Buffer(1, [])
    case StringKind => String("")
    case IntegerKind => Integer(0)
    case CommentKind => Comment("")
  }

  /** A freshly constructed node of kind `k`, holding its kind's default
      state: size 1 with no bytes, the integer 0, or the empty text. */
  function Construct(k: Kind): (n: Node)
    ensures Valid(n) && KindOf(n.state) == k
    ensures k == BufferKind ==> n.state == Buffer(1, [])
    ensures k == StringKind ==> n.state == String("")
    ensures k == IntegerKind ==> n.state == Integer(0)
    ensures k == CommentKind ==> n.state == Comment("")
  {
    Node(Header(k), Attributes(k), DefaultState(k))
  }

  /** Every modelled constant node is a source: it has no input socket, at
      most one output, and only the comment node has none at all. */
  lemma AttributeShape(k: Kind)
    ensures forall a | a in Attributes(k) :: a.io == Out
    ensures |Attributes(k)| <= 1
    ensures |Attributes(k)| == 0 <==> k == CommentKind
  {
  }

  // ---------------------------------------------------------------- process

  /** `std::vector::resize(size, 0x00)`: the result has exactly `size`
      bytes, keeps the prefix of `b` that fits and is zero past the end of
      `b`. */
  function Resize(b: seq<u8>, size: nat): (r: seq<u8>)
    ensures |r| == size
    ensures forall i | 0 <= i < |b| && i < size :: r[i] == b[i]
    ensures forall i | |b| <= i < size :: r[i] == 0
  {
    if size <= |b| then b[..size] else b + seq(size - |b|, _ => 0)
  }

  /** The three properties of `Resize` determine its result. */
  lemma ResizeUnique(b: seq<u8>, size: nat, r: seq<u8>)
    requires |r| == size
    requires forall i | 0 <= i < |b| && i < size :: r[i] == b[i]
    requires forall i | |b| <= i < size :: r[i] == 0
    ensures r == Resize(b, size)
  {
  }

  /** The buffer node's internal buffer after `process`: resized only when
      its length differs from the configured size. */
  function ReconcileBuffer(size: u32, b: seq<u8>): seq<u8>
  {
    if |b| != size then Resize(b, size) else b
  }

  /** The node after a `process` call and the values that call wrote. */
  datatype Processed = Processed(node: Node, outputs: Outputs)

  /** `process()`. The string node's escape decoding is defined elsewhere,
      so it is a parameter, `decode`. Every call writes each output socket
      with a value of the socket's type, and only the buffer node changes
      its own state. */
  function Process(n: Node, decode: string -> seq<u8>): (r: Processed)
    requires Valid(n)
    ensures Valid(r.node)
    ensures r.node.attributes == n.attributes && r.node.header == n.header
    ensures KindOf(r.node.state) == KindOf(n.state)
    ensures WellTyped(n.attributes, r.outputs)
    ensures forall i | 0 <= i < |r.outputs| :: r.outputs[i].Some?
    ensures !n.state.Buffer? ==> r.node == n
  {
    var outs := NoOutputs(n.attributes);
    match n.state
    case Nullptr =>
      Processed(n, SetOnOutput(n.attributes, outs, 0, BufferValue([])))
    case Buffer(size, b) =>
      var b' := ReconcileBuffer(size, b);
      Processed(n.(state := Buffer(size, b')), SetOnOutput(n.attributes, outs, 0, BufferValue(b')))
    case String(v) =>
      Processed(n, SetOnOutput(n.attributes, outs, 0, BufferValue(decode(v))))
    case Integer(v) =>
      Processed(n, SetOnOutput(n.attributes, outs, 0, IntegerValue(v)))
    case Comment(_) =>
      Processed(n, outs)
  }

  /** The graph engine evaluating the node `k` times in a row; the result
      of the last evaluation. */
  function ProcessRepeatedly(n: Node, decode: string -> seq<u8>, k: nat): Processed
    requires Valid(n) && k >= 1
    decreases k
  {
    var r := Process(n, decode);
    if k == 1 then r else ProcessRepeatedly(r.node, decode, k - 1)
  }

  /** The nullptr node writes an empty buffer on its single output. */
  lemma NullptrOutputsEmpty(n: Node, decode: string -> seq<u8>)
    requires Valid(n) && n.state.Nullptr?
    ensures n.attributes == [Attribute(Out, BufferType, "")]
    ensures Process(n, decode) == Processed(n, [Some(BufferValue([]))])
  {
  }

  /** After `process` the buffer node's buffer and its output both have
      exactly the configured size; the bytes that fit are kept and every
      added byte is zero. */
  lemma BufferProcessResizes(n: Node, decode: string -> seq<u8>)
    requires Valid(n) && n.state.Buffer?
    ensures var r := Process(n, decode);
      && r.node.state.Buffer?
      && r.node.state.size == n.state.size
      && |r.node.state.buffer| == n.state.size
      && r.outputs == [Some(BufferValue(r.node.state.buffer))]
    ensures var b, b' := n.state.buffer, Process(n, decode).node.state.buffer;
      forall i | 0 <= i < |b| && i < n.state.size :: b'[i] == b[i]
    ensures var b, b' := n.state.buffer, Process(n, decode).node.state.buffer;
      forall i | |b| <= i < n.state.size :: b'[i] == 0
  {
  }

  /** A fresh buffer node (size 1, empty buffer) outputs one zero byte. */
  lemma FreshBufferOutputsZero(decode: string -> seq<u8>)
    ensures Process(Construct(BufferKind), decode).outputs == [Some(BufferValue([0]))]
  {
    var n := Construct(BufferKind);
    BufferProcessResizes(n, decode);
    var b := Process(n, decode).node.state.buffer;
    assert |b| == 1 && b[0] == 0;
    assert b == [0];
  }

  /** Editing the buffer node's size, as its size field in the node editor
      does; nothing else about the node changes. */
  function WithSize(n: Node, size: u32): (m: Node)
    requires Valid(n) && n.state.Buffer?
    ensures Valid(m) && m.state == Buffer(size, n.state.buffer)
  {
    n.(state := Buffer(size, n.state.buffer))
  }

  /** Shrinking the buffer node and growing it back discards the truncated
      bytes for good: the regrown region reads as zeros, and only the part
      that survived the shrink keeps its old content. */
  lemma ShrinkThenRegrow(n: Node, decode: string -> seq<u8>, small: u32)
    requires Valid(n) && n.state.Buffer? && small <= n.state.size
    ensures var big := n.state.size;
      var first := Process(n, decode).node;
      var shrunk := Process(WithSize(first, small), decode).node;
      var regrown := Process(WithSize(shrunk, big), decode);
      && regrown.outputs == [Some(BufferValue(regrown.node.state.buffer))]
      && |regrown.node.state.buffer| == big
      && (forall i | 0 <= i < small :: regrown.node.state.buffer[i] == first.state.buffer[i])
      && (forall i | small <= i < big :: regrown.node.state.buffer[i] == 0)
  {
  }

  /** Processing twice is processing once: the second call leaves the node
      as the first call left it and writes the same outputs. */
  lemma ProcessIdempotent(n: Node, decode: string -> seq<u8>)
    requires Valid(n)
    ensures Process(Process(n, decode).node, decode) == Process(n, decode)
  {
  }

  /** However many times the node is evaluated, the last evaluation equals
      the first. */
  lemma {:induction false} RepeatedProcessStable(n: Node, decode: string -> seq<u8>, k: nat)
    requires Valid(n) && k >= 1
    ensures ProcessRepeatedly(n, decode, k) == Process(n, decode)
    decreases k
  {
    if k > 1 {
      var m := Process(n, decode).node;
      ProcessIdempotent(n, decode);
      RepeatedProcessStable(m, decode, k - 1);
    }
  }

  /** The nullptr node outputs an empty buffer however many times it is
      processed. */
  lemma NullptrAlwaysEmpty(n: Node, decode: string -> seq<u8>, k: nat)
    requires Valid(n) && n.state.Nullptr? && k >= 1
    ensures ProcessRepeatedly(n, decode, k).outputs == [Some(BufferValue([]))]
  {
    RepeatedProcessStable(n, decode, k);
  }

  /** The string node outputs its text decoded to bytes. */
  lemma StringProcessDecodes(n: Node, decode: string -> seq<u8>)
    requires Valid(n) && n.state.String?
    ensures Process(n, decode) == Processed(n, [Some(BufferValue(decode(n.state.text)))])
  {
  }

  /** The integer node outputs its value on its single integer socket. */
  lemma IntegerProcessEmits(n: Node, decode: string -> seq<u8>)
    requires Valid(n) && n.state.Integer?
    ensures n.attributes == [Attribute(Out, IntegerType, "")]
    ensures Process(n, decode) == Processed(n, [Some(IntegerValue(n.state.number))])
  {
  }

  /** The comment node has no sockets and `process` does nothing. */
  lemma CommentProcessNoop(n: Node, decode: string -> seq<u8>)
    requires Valid(n) && n.state.Comment?
    ensures n.attributes == []
    ensures Process(n, decode) == Processed(n, [])
  {
  }

  // ------------------------------------------------------------ store / load

  /** The keys `store` writes for each kind. */
  function StoredKeys(k: Kind): set<string>
  {
    match k
    case NullptrKind => {}
    case BufferKind => {"size", "data"}
    case StringKind => {"data"}
    case IntegerKind => {"data"}
    case CommentKind => {"comment"}
  }

  /** `store()`: a record of the internal state, never of the outputs. */
  function Store(n: Node): (j: JSON)
    ensures j.JObj? && j.fields.Keys == StoredKeys(KindOf(n.state))
  {
    match n.state
    case Nullptr => JObj(map[])
    case Buffer(size, b) => JObj(map["size" := JNum(size), "data" := FromBytes(b)])
    case String(v) => JObj(map["data" := JStr(v)])
    case Integer(v) => JObj(map["data" := JNum(v)])
    case Comment(c) => JObj(map["comment" := JStr(c)])
  }

  /** `j` is an object whose `key` holds a value. */
  predicate Has(j: JSON, key: string)
  {
    j.JObj? && key in j.fields
  }

  /** The records `load` accepts for each kind, stated field by field. */
  predicate Accepted(k: Kind, j: JSON)
  {
    match k
    case NullptrKind => true
    case BufferKind =>
      && Has(j, "size") && j.fields["size"].JNum?
      && Has(j, "data") && j.fields["data"].JArr? && AllNumbers(j.fields["data"].items)
    case StringKind => Has(j, "data") && j.fields["data"].JStr?
    case IntegerKind => Has(j, "data") && j.fields["data"].JNum?
    case CommentKind => Has(j, "comment") && j.fields["comment"].JStr?
  }

  /** The comment node reads its key with an unchecked lookup: on an object
      without the key the behaviour is undefined, so callers must not do
      that. Every other kind handles any record. */
  predicate LoadDefined(k: Kind, j: JSON)
  {
    k == CommentKind && j.JObj? ==> "comment" in j.fields
  }

  /** The node after a `load` call, and whether the call completed or threw.
      The node is reported in both cases: a throwing `load` keeps whatever
      assignments it made before the throw. */
  datatype Loaded = Loaded(node: Node, status: Outcome<JsonError>)

  /** `NodeBuffer::load`: the size is assigned before the data is looked up. */
  function LoadBuffer(n: Node, j: JSON): Loaded
    requires n.state.Buffer?
  {
    match At(j, "size")
    case Err(e) => Loaded(n, Fail(e))
    case Ok(sizeJson) =>
      match GetU32(sizeJson)
      case Err(e) => Loaded(n, Fail(e))
      case Ok(size) =>
        var sized := n.(state := Buffer(size, n.state.buffer));
        match At(j, "data")
        case Err(e) => Loaded(sized, Fail(e))
        case Ok(dataJson) =>
          match GetBytes(dataJson)
          case Err(e) => Loaded(sized, Fail(e))
          case Ok(b) => Loaded(n.(state := Buffer(size, b)), Pass)
  }

  /** `load(j)`. It succeeds exactly on the accepted records, never changes
      the node's kind or attributes, and on failure leaves the state as it
      was, except that a buffer node may already hold its new size. */
  function Load(n: Node, j: JSON): (r: Loaded)
    requires Valid(n)
    requires LoadDefined(KindOf(n.state), j)
    ensures Valid(r.node)
    ensures r.node.attributes == n.attributes && r.node.header == n.header
    ensures KindOf(r.node.state) == KindOf(n.state)
    ensures r.status.Pass? <==> Accepted(KindOf(n.state), j)
    ensures r.status.Fail? && !n.state.Buffer? ==> r.node == n
    ensures r.status.Fail? && n.state.Buffer? ==> r.node.state.buffer == n.state.buffer
    ensures r.status.Fail? && n.state.Buffer? ==>
      r.node.state.size == (if Has(j, "size") && j.fields["size"].JNum?
                            then ToU32(j.fields["size"].n) else n.state.size)
    ensures r.status.Pass? && n.state.Nullptr? ==> r.node == n
    ensures r.status.Pass? && n.state.Buffer? ==>
      var items := j.fields["data"].items;
      && r.node.state.Buffer?
      && r.node.state.size == ToU32(j.fields["size"].n)
      && |r.node.state.buffer| == |items|
      && forall i | 0 <= i < |items| :: r.node.state.buffer[i] == ToU8(items[i].n)
    ensures r.status.Pass? && n.state.String? ==> r.node.state == String(j.fields["data"].s)
    ensures r.status.Pass? && n.state.Integer? ==> r.node.state == Integer(j.fields["data"].n)
    ensures r.status.Pass? && n.state.Comment? ==> r.node.state == Comment(j.fields["comment"].s)
  {
    match n.state
    case Nullptr => Loaded(n, Pass)
    case Buffer(_, _) => LoadBuffer(n, j)
    case String(_) =>
      (match At(j, "data")
       case Err(e) => Loaded(n, Fail(e))
       case Ok(d) =>
         match GetString(d)
         case Err(e) => Loaded(n, Fail(e))
         case Ok(s) => Loaded(n.(state := String(s)), Pass))
    case Integer(_) =>
      (match At(j, "data")
       case Err(e) => Loaded(n, Fail(e))
       case Ok(d) =>
         match GetU64(d)
         case Err(e) => Loaded(n, Fail(e))
         case Ok(v) => Loaded(n.(state := Integer(v)), Pass))
    case Comment(_) =>
      if !j.JObj? then Loaded(n, Fail(TypeError(Object)))
      else
        match GetString(j.fields["comment"])
        case Err(e) => Loaded(n, Fail(e))
        case Ok(c) => Loaded(n.(state := Comment(c)), Pass)
  }

  /** Whatever state a buffer node holds, loading another buffer node's
      record restores that node's size and bytes exactly, so the next
      `process` writes the same output. */
  lemma BufferRoundTrip(m: Node, n: Node, decode: string -> seq<u8>)
    requires Valid(m) && Valid(n) && m.state.Buffer? && n.state.Buffer?
    ensures Load(m, Store(n)) == Loaded(n, Pass)
    ensures Process(Load(m, Store(n)).node, decode) == Process(n, decode)
  {
  }

  /** Loading an integer node's record restores its value exactly. */
  lemma IntegerRoundTrip(m: Node, n: Node, decode: string -> seq<u8>)
    requires Valid(m) && Valid(n) && m.state.Integer? && n.state.Integer?
    ensures Load(m, Store(n)) == Loaded(n, Pass)
    ensures Process(Load(m, Store(n)).node, decode) == Process(n, decode)
  {
  }

  /** Loading a string node's record restores its text exactly. */
  lemma StringRoundTrip(m: Node, n: Node, decode: string -> seq<u8>)
    requires Valid(m) && Valid(n) && m.state.String? && n.state.String?
    ensures Load(m, Store(n)) == Loaded(n, Pass)
    ensures Process(Load(m, Store(n)).node, decode) == Process(n, decode)
  {
  }

  /** Loading a comment node's record restores its text exactly. */
  lemma CommentRoundTrip(m: Node, n: Node)
    requires Valid(m) && Valid(n) && m.state.Comment? && n.state.Comment?
    ensures LoadDefined(CommentKind, Store(n))
    ensures Load(m, Store(n)) == Loaded(n, Pass)
  {
  }

  /** The round-trip law for every kind: a node of the same kind that loads
      what `store` wrote becomes the stored node, and processes identically. */
  lemma StoreLoadRoundTrip(m: Node, n: Node, decode: string -> seq<u8>)
    requires Valid(m) && Valid(n) && KindOf(m.state) == KindOf(n.state)
    ensures LoadDefined(KindOf(m.state), Store(n))
    ensures Load(m, Store(n)) == Loaded(n, Pass)
    ensures Process(Load(m, Store(n)).node, decode) == Process(n, decode)
  {
  }

  /** A buffer record with a usable size and no data fails on the missing
      key after the size has been assigned: the node holds the new size and
      its old bytes. */
  lemma BufferLoadMissingData(n: Node, j: JSON)
    requires Valid(n) && n.state.Buffer?
    requires Has(j, "size") && j.fields["size"].JNum? && !Has(j, "data")
    ensures Load(n, j).status == Fail(OutOfRange("data"))
    ensures Load(n, j).node.state == Buffer(ToU32(j.fields["size"].n), n.state.buffer)
  {
  }

  /** A buffer record without a size fails before anything is assigned. */
  lemma BufferLoadMissingSize(n: Node, j: JSON)
    requires Valid(n) && n.state.Buffer?
    requires j.JObj? && !Has(j, "size")
    ensures Load(n, j) == Loaded(n, Fail(OutOfRange("size")))
  {
  }

  /** An integer record without data fails and leaves the value as it was. */
  lemma IntegerLoadMissingData(n: Node, j: JSON)
    requires Valid(n) && n.state.Integer?
    requires j.JObj? && !Has(j, "data")
    ensures Load(n, j) == Loaded(n, Fail(OutOfRange("data")))
  {
  }

  /** A string record without data fails and leaves the text as it was. */
  lemma StringLoadMissingData(n: Node, j: JSON)
    requires Valid(n) && n.state.String?
    requires j.JObj? && !Has(j, "data")
    ensures Load(n, j) == Loaded(n, Fail(OutOfRange("data")))
  {
  }

  // ------------------------------------------------------ the shape invariant

  /** A call the graph engine or the project loader makes on a node. */
  datatype Call = ProcessCall | LoadCall(record: JSON)

  /** The node after a sequence of calls, each applied to the result of the
      previous one. */
  function Run(n: Node, decode: string -> seq<u8>, calls: seq<Call>): Node
    requires Valid(n)
    requires forall i | 0 <= i < |calls| :: calls[i].LoadCall? ==> LoadDefined(KindOf(n.state), calls[i].record)
    decreases |calls|
  {
    if |calls| == 0 then n
    else
      var next := match calls[0]
        case ProcessCall => Process(n, decode).node
        case LoadCall(j) => Load(n, j).node;
      Run(next, decode, calls[1..])
  }

  /** No sequence of `process` and `load` calls changes a node's header,
      kind or attribute list. */
  lemma {:induction false} ShapeNeverChanges(n: Node, decode: string -> seq<u8>, calls: seq<Call>)
    requires Valid(n)
    requires forall i | 0 <= i < |calls| :: calls[i].LoadCall? ==> LoadDefined(KindOf(n.state), calls[i].record)
    ensures Valid(Run(n, decode, calls))
    ensures Run(n, decode, calls).attributes == n.attributes
    ensures Run(n, decode, calls).header == n.header
    ensures KindOf(Run(n, decode, calls).state) == KindOf(n.state)
    decreases |calls|
  {
    if |calls| > 0 {
      var next := match calls[0]
        case ProcessCall => Process(n, decode).node
        case LoadCall(j) => Load(n, j).node;
      assert forall i | 0 <= i < |calls[1..]| :: calls[1..][i] == calls[i + 1];
      ShapeNeverChanges(next, decode, calls[1..]);
    }
  }
}
