/** A JSON-like record, the persistence format of the nodes, together with the
    accessors the node loaders use: `at(key)` and the typed `get<T>()`
    conversions. Only unsigned numbers are represented; a number is stored as
    the 64-bit unsigned value the JSON library keeps for it. */
module Json {
  import opened Ints
  import opened Results

  datatype JSON =
    | JNum(n: u64)
    | JStr(s: string)
    | JArr(items: seq<JSON>)
    | JObj(fields: map<string, JSON>)

  /** The shape a conversion expected and did not find. */
  datatype JsonKind = Number | Text | Array | Object

  /** The two exceptions the loaders can meet: a key absent from an object
      (`out_of_range`) and a value of the wrong shape (`type_error`). */
  datatype JsonError =
    | OutOfRange(key: string)
    | TypeError(expected: JsonKind)

  /** `j.at(key)`: the value under `key`; a non-object is a type error and an
      object without the key is out of range. */
  function At(j: JSON, key: string): (r: Result<JSON, JsonError>)
    ensures r.Ok? <==> j.JObj? && key in j.fields
    ensures r.Ok? ==> r.value == j.fields[key]
    ensures j.JObj? && key !in j.fields ==> r == Err(OutOfRange(key))
  {
    match j
    case JObj(fields) =>
      if key in fields then Ok(fields[key]) else Err(OutOfRange(key))
    case _ => Err(TypeError(Object))
  }

  /** `get<std::string>()`. */
  function GetString(j: JSON): (r: Result<string, JsonError>)
    ensures r.Ok? <==> j.JStr?
  {
    if j.JStr? then Ok(j.s) else Err(TypeError(Text))
  }

  /** `get<u64>()`. */
  function GetU64(j: JSON): (r: Result<u64, JsonError>)
    ensures r.Ok? <==> j.JNum?
  {
    if j.JNum? then Ok(j.n) else Err(TypeError(Number))
  }

  /** `get<u32>()`: the stored number truncated to 32 bits. */
  function GetU32(j: JSON): (r: Result<u32, JsonError>)
    ensures r.Ok? <==> j.JNum?
    ensures r.Ok? && j.n < 0x1_0000_0000 ==> r.value == j.n
  {
    if j.JNum? then Ok(ToU32(j.n)) else Err(TypeError(Number))
  }

  /** True when every element of `items` is a number. */
  predicate AllNumbers(items: seq<JSON>)
  {
    forall i | 0 <= i < |items| :: items[i].JNum?
  }

  /** Converts the elements of an array, in order, to bytes; the first
      element that is not a number makes the whole conversion fail. */
  function GetBytesOf(items: seq<JSON>): (r: Result<seq<u8>, JsonError>)
    ensures r.Ok? <==> AllNumbers(items)
    ensures r.Ok? ==> |r.value| == |items|
    ensures r.Ok? ==> forall i | 0 <= i < |items| :: r.value[i] == ToU8(items[i].n)
    ensures r.Err? ==> r.error == TypeError(Number)
  {
    if |items| == 0 then Ok([])
    else if !items[0].JNum? then Err(TypeError(Number))
    else
      match GetBytesOf(items[1..])
      case Err(e) => Err(e)
      case Ok(rest) => Ok([ToU8(items[0].n)] + rest)
  }

  /** `get<std::vector<u8>>()`: an array of numbers, each truncated to a byte. */
  function GetBytes(j: JSON): (r: Result<seq<u8>, JsonError>)
    ensures r.Ok? <==> j.JArr? && AllNumbers(j.items)
    ensures r.Ok? ==> |r.value| == |j.items|
  {
    if j.JArr? then GetBytesOf(j.items) else Err(TypeError(Array))
  }

  /** `json = std::vector<u8>`: one number per byte, in order. */
  function FromBytes(b: seq<u8>): (j: JSON)
    ensures j.JArr? && |j.items| == |b|
    ensures AllNumbers(j.items)
  {
    JArr(seq(|b|, i requires 0 <= i < |b| => JNum(b[i])))
  }

  /** Reading back a stored byte vector yields exactly the bytes stored. */
  lemma BytesRoundTrip(b: seq<u8>)
    ensures GetBytes(FromBytes(b)) == Ok(b)
  {
    var r := GetBytes(FromBytes(b));
    assert r.Ok?;
    var items := FromBytes(b).items;
    forall i | 0 <= i < |b|
      ensures r.value[i] == b[i]
    {
      assert items[i] == JNum(b[i]);
    }
    assert r.value == b;
  }
}
