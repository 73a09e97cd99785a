/**
  Positions, pieces and tree nodes
  (src/piece_table/piece_table.hpp:11-53, src/piece_table/piece_table.cpp:3, 11, 13).
 */
module Pieces {

  datatype Color = Red | Black

  /**
    A (line, column) position inside one buffer; the datatype constructor
    stores its two arguments and nothing else.
   */
  datatype BufferPosition = BufferPosition(index: nat, offset: nat)

  /**
    A reference to the span [start, end) of buffer `bufferIndex`, with the
    total length and line count of the left subtree of the node holding it.
   */
  datatype EditPiece = EditPiece(
    bufferIndex: nat,
    start: BufferPosition,
    end: BufferPosition,
    leftSubTreeLength: nat,
    leftSubTreeLineCount: nat)

  /**
    The three-argument piece constructor: it stores the buffer index and
    both positions and initialises neither subtree aggregate, so those two
    fields hold whatever they happen to hold.
   */
  method NewEditPiece(bufferIndex: nat, start: BufferPosition, end: BufferPosition) returns (p: EditPiece)
    ensures p.bufferIndex == bufferIndex && p.start == start && p.end == end
  {
    var leftSubTreeLength: nat := *;
    var leftSubTreeLineCount: nat := *;
    p := EditPiece(bufferIndex, start, end, leftSubTreeLength, leftSubTreeLineCount);
  }

  /** A node of the red-black tree of pieces. */
  class EditNode {
    var data: EditPiece
    var color: Color
    var parent: EditNode?
    var left: EditNode?
    var right: EditNode?

    /** A new node holds a copy of the piece, is red, and is linked to nothing. */
    constructor (data: EditPiece)
      ensures this.data == data && color == Red
      ensures parent == null && left == null && right == null
    {
      this.data := data;
      color := Red;
      parent := null;
      left := null;
      right := null;
    }
  }
}
