# Piece table: buffers, pieces and the edit facade

This project models the parts of the Bditor piece table that have bodies in
`src/piece_table/piece_table.cpp`. The piece table keeps a document as a
red-black tree of pieces. Each piece refers to a span of one immutable
buffer in an append-only pool. The model covers:

- **Buffer construction** (`Buffers.NewBuffer`). One pass over the text
  pushes offset 0 and then the offset of every `'\n'` onto the back of a
  queue. A second loop pops the queue from the front into a freshly
  allocated table. The queue is a `seq<nat>` used first-in first-out. The
  table is a local `array<nat>`, frozen into the buffer value once it is
  filled. The specification of the table is `Lines.LineStarts`: offset 0
  followed by `Lines.NewlinePositions`. The lemmas in `Lines` prove what the
  table holds: its first entry, its size, which entries it has, and its
  order.
- **The buffer pool** (`PieceTables.PieceTable.InsertBuffer`). This is a
  `seq<Buffer>` field that is only ever appended to. The index returned is
  the pool's old size.
- **Value types and node construction** (`Pieces`). `BufferPosition` and
  `EditPiece` are datatypes. The `BufferPosition(index, offset)` constructor
  is the datatype's own constructor, which stores exactly its two arguments.
  A new `EditNode` is red, holds a copy of the piece it was given, and is
  linked to nothing.
- **The facade** (`PieceTables.PieceTable`). `Insert`, `Remove` and
  `Replace` each make one call to `Change` with fixed arguments and return
  the same table. The body of `change` is not part of this model. `Change`
  records each request in the ghost log `requests`. It also assumes the
  append-only pool design: existing buffers are kept, in place. This is an
  assumption about a body that is only declared, not a fact proved about
  the source, and the wrappers inherit it. The tree's nodes are the ghost
  set `Repr`: `Change` and the wrappers may change any of them and add new
  ones, and `InsertBuffer` leaves them alone. The three wrappers'
  contracts therefore say exactly which request each one makes.

## Model

| member | source | states |
|---|---|---|
| `Lines.NewlinePositions` | src/piece_table/piece_table.cpp:21-28 | every position it lists is the offset of a `'\n'` in the text, and the positions are strictly ascending (scan order) |
| `Lines.NewlinePositionsComplete` | src/piece_table/piece_table.cpp:21-28 | every offset holding a `'\n'` is listed |
| `Lines.NewlinePositionsCount` | src/piece_table/piece_table.cpp:21-28 | there are exactly as many positions as `'\n'` characters in the text |
| `Lines.LineStartsCount` | src/piece_table/piece_table.cpp:18-36 | the table's first entry is 0 for every text, including the empty one, and the table has one entry more than the text has newlines |
| `Lines.LineStartsAreNewlines` | src/piece_table/piece_table.cpp:21-36 | every entry after the first is an offset below the text length that holds a `'\n'`, and every such offset appears among those entries |
| `Lines.LineStartsSorted` | src/piece_table/piece_table.cpp:19-36 | the table is non-decreasing, and strictly increasing from its second entry on, because the queue is drained in push order |
| `Lines.LeadingNewlineRepeatsZero` | src/piece_table/piece_table.cpp:19-26 | a text that begins with `'\n'` gets 0 as both its first and second entries, so the table is not strictly increasing |
| `Lines.IntendedLineStartsAreLineStarts` | src/piece_table/piece_table.cpp:26 | the table of real line beginnings has the same size and also starts at 0. Each later entry is the recorded entry plus one, lies right after a `'\n'`, and the table is strictly increasing |
| `Lines.IntendedLineStartsComplete` | src/piece_table/piece_table.cpp:26 | every offset that follows a `'\n'` is a line beginning in the intended table |
| `Buffers.NewBuffer` | src/piece_table/piece_table.cpp:15-37 | the buffer keeps the text, and its table equals `LineStarts` of the text: first entry 0, one entry per newline plus one |
| `Pieces.NewEditPiece` | src/piece_table/piece_table.cpp:11 | the piece stores the given buffer index and start and end positions. The two left-subtree aggregates are left unconstrained |
| `Pieces.EditNode.constructor` | src/piece_table/piece_table.cpp:3 | the node holds the given piece, is red, and its parent, left and right links are null |
| `PieceTables.PieceTable.constructor` | src/piece_table/piece_table.cpp:44-46 | a new table has a null tree root and an empty buffer pool |
| `PieceTables.PieceTable.Change` | src/piece_table/piece_table.hpp:86 | the request `(index, length, data)` is recorded, and every buffer already in the pool stays where it was. Any node of the tree may change, and nodes it adds are new |
| `PieceTables.PieceTable.Insert` | src/piece_table/piece_table.cpp:53-57 | exactly the request `(index, 0, data)` is made, and the same table is returned |
| `PieceTables.PieceTable.Remove` | src/piece_table/piece_table.cpp:59-63 | exactly the request `(index, length, "")` is made, and the same table is returned |
| `PieceTables.PieceTable.Replace` | src/piece_table/piece_table.cpp:65-69 | exactly the request `(index, length, data)` is made, and the same table is returned |
| `PieceTables.PieceTable.InsertBuffer` | src/piece_table/piece_table.cpp:71-75 | the pool grows by exactly one buffer, built from `data` with its line-start table. The returned index is the old pool size, which is the new size minus one. Earlier buffers, the tree root and the request log are unchanged |

## Left out

- `PieceTables.PieceTable.Change`: the body of `change` is only declared
  (src/piece_table/piece_table.hpp:86) and is not part of this model. The
  model records the request and assumes the append-only pool design. Its
  frame lets it change every node of the tree (`Repr`) and allocate new
  ones, but what it does to them and to the document text is not
  modelled.
- The red-black tree operations `nodeAt`, `insertRight`, `insertLeft`,
  `findSmallest`, `findBiggest`, `fixInsert`, `updateMetadata`,
  `rotateLeft`, `rotateRight`, `calculateLength`, `calculateLineCount`,
  `getEditPieceLength`, `getEditPieceLineCount` and `splitNode` are only
  declared (src/piece_table/piece_table.hpp:86-103). Their bodies are not
  part of this model, and the model invents none.
- `createPieces` and chunking by `MAX_CHAR_PER_NODE` (200) are declared
  without a body, so they are not modelled.
- `NodePosition` and `NodeArrayStruct` are declared only. Their constructors
  have no bodies, and only the unmodelled tree code uses them.
- Copy constructors, assignment operators and the `EditNode(const EditPiece &)`
  overload are declared only. `Pieces.EditNode.constructor` assumes that the
  `EditPiece` copy constructor (src/piece_table/piece_table.hpp:36), which
  `data(data)` invokes at src/piece_table/piece_table.cpp:3, copies all five
  fields, including both left-subtree totals. `Pieces.NewEditPiece`
  likewise assumes that the `BufferPosition` copy constructor
  (src/piece_table/piece_table.hpp:22), which `start(start), end(end)`
  invokes at src/piece_table/piece_table.cpp:11, copies both fields.
- Text encoding: each character of the model's `string` stands for one
  byte of the C++ `std::string`. Every offset in a line-start table is
  therefore a byte offset, and no UTF-8 or other decoding is modelled. For
  multi-byte text, apply the model to the byte sequence, not to the decoded
  characters.
- Destructors (`~EditNode`, `~Buffer`, `~PieceTable`) only free memory
  through raw pointers. Dafny's memory is managed, so they have no
  counterpart.
- `Buffer::lineCount` is never assigned: the constructor's local
  `lineCount` shadows it. The model has no such field and claims nothing
  about it.
- Integer widths: the source mixes `int`, `unsigned int` and `size_t`
  between header and implementation, and the pool holds `unique_ptr`s in a
  vector declared to hold `Buffer` values. The model uses `nat` and
  sequences, so it does not model overflow or these compile-level
  mismatches.
- `Pieces.NewEditPiece`: the C++ constructor leaves `leftSubTreeLength` and
  `leftSubTreeLineCount` uninitialised. The model assigns them arbitrary
  values, so its contract says nothing about them.

## Findings

| source | as written | input that shows it | evidently intended | confidence | as-written member | corrected member |
|---|---|---|---|---|---|---|
| src/piece_table/piece_table.cpp:26 | The table records `i`, which is the offset of the newline character itself | The text `"\nA"` gives the table `[0, 0]`, so line 1 (`"A"`) appears to start at offset 0 instead of 1 | Record `i + 1`, where the next line begins, which gives `[0, 1]`: entry 0 is where line 0 begins, so entry k should be where line k begins | medium, not executed | `Lines.LeadingNewlineRepeatsZero` | `Lines.IntendedLineStartsAreLineStarts` |

The buffer constructor (`Buffers.NewBuffer`) is modelled as written. No
other part of the modelled core reads the line-start table, so the
corrected definition `Lines.IntendedLineStarts` has no other caller. It
stands beside the written table, and the corrected member proves how the
two relate, entry by entry.
