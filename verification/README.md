# Constant-source data-processor nodes, modelled in Dafny

ImHex's data processor is a graph of nodes. Each node has typed input and output
sockets ("attributes") and is evaluated by a host engine that calls `process()`. A node is
saved with `store()` into a JSON record and restored with `load()`. This project models the
constant-source nodes of `plugins/builtin/source/content/dpn/basic_nodes.cpp`:

- `NodeNullptr`: always outputs an empty buffer.
- `NodeBuffer`: a configured size plus a byte buffer. `process()` resizes the buffer to the
  size and zero-fills any growth.
- `NodeString`: a text. `process()` outputs its escape-decoded bytes.
- `NodeInteger`: a 64-bit unsigned value.
- `NodeComment`: a text, with no sockets at all.

Each node is an immutable value `Node(header, attributes, state)`. `process`, `store` and
`load` are pure functions:

- `Process` returns the new node plus the outputs it wrote, one slot per attribute.
- `Store` returns a `JSON` record.
- `Load` returns the node after the call together with `Pass` or `Fail(error)`.

Returning the node even on failure matters because `NodeBuffer::load` assigns the new size
before it looks up the data, which may throw.

Files:

- `ints.dfy`: the `u8`/`u32`/`u64` widths and the truncating conversions between them.
- `results.dfy`: `Result` and `Outcome`.
- `json.dfy`: the JSON value and the accessors the loaders use:
  - `at(key)`, which throws `out_of_range` on a missing key and `type_error` on a non-object;
  - `get<std::string>`, `get<u32>`, `get<u64>` and `get<std::vector<u8>>`.
- `dp_node.dfy`: attributes, output values, and writing an output socket.
- `basic_nodes.dfy`: the five node kinds, their constructors, and `process`, `store` and `load`.
  It also holds the lemmas: the resize rule, idempotence, the round-trips, load failures and
  the shape invariant.

`NodeBuffer::load` assigns `m_size` before it looks up `data`. A failed load can therefore
leave the node with the new size and its old bytes (`BasicNodes.BufferLoadMissingData`).

## Model

| member | source | states |
|---|---|---|
| BasicNodes.Construct | plugins/builtin/source/content/dpn/basic_nodes.cpp:15-209 | a freshly constructed node of any kind is of that kind and carries exactly the header and attribute list its constructor declares; that is the invariant `Valid`, which every later operation preserves. It holds the declared defaults: `m_size = 1` with an empty buffer, `m_value = 0`, and empty strings for the string and comment nodes |
| BasicNodes.AttributeShape | plugins/builtin/source/content/dpn/basic_nodes.cpp:17-186 | every modelled constant node's sockets are outputs, there is at most one, and only the comment node has none |
| BasicNodes.Resize | plugins/builtin/source/content/dpn/basic_nodes.cpp:37-38 | `vector::resize(size, 0x00)` yields exactly `size` bytes, keeps every old byte that fits and is zero past the old end |
| BasicNodes.ResizeUnique | plugins/builtin/source/content/dpn/basic_nodes.cpp:37-38 | those three properties determine the resized buffer uniquely |
| BasicNodes.Process | plugins/builtin/source/content/dpn/basic_nodes.cpp:19-195 | `process` keeps the node valid and its attributes, header and kind unchanged; it writes every output socket with a value of the socket's type; only the buffer node changes its own state |
| BasicNodes.NullptrOutputsEmpty | plugins/builtin/source/content/dpn/basic_nodes.cpp:17-21 | the nullptr node has exactly one Out/Buffer attribute and `process` writes an empty buffer to it, changing nothing else |
| BasicNodes.NullptrAlwaysEmpty | plugins/builtin/source/content/dpn/basic_nodes.cpp:19-21 | however many times the nullptr node is processed, the output is an empty buffer |
| BasicNodes.BufferProcessResizes | plugins/builtin/source/content/dpn/basic_nodes.cpp:36-41 | after `process` the buffer and output 0 are the same bytes, of length exactly `m_size`; the first `min(old length, m_size)` bytes are unchanged and every added byte is 0x00 |
| BasicNodes.FreshBufferOutputsZero | plugins/builtin/source/content/dpn/basic_nodes.cpp:36-57 | a freshly constructed buffer node (size 1, empty buffer) outputs the single byte 0x00 |
| BasicNodes.ShrinkThenRegrow | plugins/builtin/source/content/dpn/basic_nodes.cpp:36-41 | processing, shrinking the size, processing and growing it back gives a buffer whose regrown region is all zeros; only the surviving prefix keeps its old bytes |
| BasicNodes.ProcessIdempotent | plugins/builtin/source/content/dpn/basic_nodes.cpp:36-41 | a second `process` with no state change leaves the node as the first left it and writes the same outputs (for every kind) |
| BasicNodes.RepeatedProcessStable | plugins/builtin/source/content/dpn/basic_nodes.cpp:36-41 | any number of consecutive `process` calls ends with the same node and outputs as a single call |
| BasicNodes.StringProcessDecodes | plugins/builtin/source/content/dpn/basic_nodes.cpp:70-72 | the string node outputs the decoding of its text on output 0 and keeps its state |
| BasicNodes.IntegerProcessEmits | plugins/builtin/source/content/dpn/basic_nodes.cpp:88-100 | the integer node has one Out/Integer attribute and outputs `m_value` on it |
| BasicNodes.CommentProcessNoop | plugins/builtin/source/content/dpn/basic_nodes.cpp:186-195 | the comment node has zero attributes and `process` changes nothing and writes nothing |
| BasicNodes.Store | plugins/builtin/source/content/dpn/basic_nodes.cpp:43-201 | `store` writes an object with exactly the kind's keys: `size` and `data` for the buffer, `data` for string and integer, `comment` for the comment |
| BasicNodes.Load | plugins/builtin/source/content/dpn/basic_nodes.cpp:50-205 | `load` succeeds if and only if the record has every required key with a value of the right shape, and it never changes the node's kind, header or attributes. On success the state is read from the record: the buffer's size is `size` truncated to 32 bits and each byte is the matching `data` element truncated to 8 bits; the integer, string and comment nodes take the value under their key, and other keys are ignored. On failure the other nodes are unchanged and the buffer keeps its bytes. Its size is the truncated `size` exactly when `size` was present and numeric, otherwise the old size |
| BasicNodes.BufferRoundTrip | plugins/builtin/source/content/dpn/basic_nodes.cpp:43-53 | loading a buffer node's stored record into any buffer node restores `m_size` and `m_buffer` exactly, so the next `process` output is identical |
| BasicNodes.IntegerRoundTrip | plugins/builtin/source/content/dpn/basic_nodes.cpp:102-110 | loading an integer node's stored record restores `m_value` exactly and the next output is identical |
| BasicNodes.StringRoundTrip | plugins/builtin/source/content/dpn/basic_nodes.cpp:74-82 | loading a string node's stored record restores `m_value` exactly and the next output is identical |
| BasicNodes.CommentRoundTrip | plugins/builtin/source/content/dpn/basic_nodes.cpp:197-205 | the comment node's stored record contains its key, and loading it restores `m_comment` exactly |
| BasicNodes.StoreLoadRoundTrip | plugins/builtin/source/content/dpn/basic_nodes.cpp:43-205 | for every kind, a node that loads another node's stored record becomes that node and processes identically |
| BasicNodes.BufferLoadMissingData | plugins/builtin/source/content/dpn/basic_nodes.cpp:50-53 | with `size` present and `data` missing, `load` fails with out-of-range on `data`; `m_size` already holds the new size and `m_buffer` keeps its old bytes |
| BasicNodes.BufferLoadMissingSize | plugins/builtin/source/content/dpn/basic_nodes.cpp:50-51 | with `size` missing, `load` fails with out-of-range on `size` and the node is unchanged |
| BasicNodes.IntegerLoadMissingData | plugins/builtin/source/content/dpn/basic_nodes.cpp:108-110 | a record without `data` makes the integer node's `load` fail with out-of-range and leaves `m_value` unchanged |
| BasicNodes.StringLoadMissingData | plugins/builtin/source/content/dpn/basic_nodes.cpp:80-82 | a record without `data` makes the string node's `load` fail with out-of-range and leaves `m_value` unchanged |
| BasicNodes.ShapeNeverChanges | plugins/builtin/source/content/dpn/basic_nodes.cpp:15-209 | no sequence of `process` and `load` calls changes a node's header, kind or attribute list |
| Json.GetBytesOf | plugins/builtin/source/content/dpn/basic_nodes.cpp:52 | converting a JSON array to `std::vector<u8>` succeeds exactly when every element is a number; it then yields one byte per element, each the number truncated to 8 bits, and otherwise a number type error |
| Json.BytesRoundTrip | plugins/builtin/source/content/dpn/basic_nodes.cpp:47-52 | a byte vector written as a JSON array reads back as exactly the same bytes |

## Left out

- `NodeFloat` and `NodeRGBA8` (lines 116-182) are not modelled. Their state is floating point, and RGBA8's `u8(x * 0xFF)` is a float-to-integer truncation.
- `drawNode` and all ImGui code are not modelled because they are UI. The one edit the buffer node's size widget makes is `BasicNodes.WithSize`, which changes the size and nothing else.
- `hex::decodeByteString` (line 71) is defined in `hex/helpers/utils`, which is not part of this model. `BasicNodes.Process` takes it as a function parameter `decode`, so nothing is assumed about escape decoding.
- The `dp::Node` base class is not part of this model:
  - `setBufferOnOutput` and `setIntegerOnOutput` are modelled as `DataProcessor.SetOnOutput`. Its precondition is that the socket exists, is an output and has the value's type.
  - `NodeNullptr` does not override `store`/`load`. The model takes the base defaults to be an empty record and a `load` that accepts anything and changes nothing.
- `registerBasicDataProcessorNodes` (lines 211-219) is not modelled. It only registers the nodes with a foreign registry.
- JSON is an abstract datatype:
  - It has unsigned 64-bit numbers, strings, arrays and objects.
  - Signed and floating-point numbers, booleans and null are not represented.
  - Numbers wider than 64 bits are not represented.
  - `get<u32>` and `get<u8>` truncate like `static_cast`.
- `NodeComment::load` reads its key with `operator[]` on a const object. A missing key is undefined behaviour, not an error. `BasicNodes.Load` therefore requires that a comment record which is an object contains `comment`. A non-object is modelled as the library's type error.
- Texts are Dafny `string`s, sequences of characters, whereas `std::string` is a sequence of bytes. No proved property depends on the difference, because `decode` is a parameter and `store`/`load` only copy texts.
- No node's `process` can fail, and the model has no failure signal for it.
