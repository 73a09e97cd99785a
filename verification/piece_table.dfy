/**
  The piece table facade: the tree root, the append-only buffer pool and
  the three edit operations (src/piece_table/piece_table.hpp:7-114,
  src/piece_table/piece_table.cpp:44-75).
 */
module PieceTables {
  import opened Buffers
  import opened Pieces

  /** An edit as `change` receives it: replace `length` characters at `index` by `data`. */
  datatype ChangeRequest = ChangeRequest(index: nat, length: nat, data: string)

  class PieceTable {
    var editTreeRoot: EditNode?
    var buffers: seq<Buffer>
    /** Every call made to `Change`, oldest first. */
    ghost var requests: seq<ChangeRequest>
    /** The nodes of the tree, which an edit may relink, recolour or shrink. */
    ghost var Repr: set<object>

    /**
      The root belongs to the tree's nodes, and every buffer in the pool
      carries the line-start table of its text.
     */
    ghost predicate Valid()
      reads this
    {
      && (editTreeRoot != null ==> editTreeRoot in Repr)
      && forall i :: 0 <= i < |buffers| ==> buffers[i].Valid()
    }

    /** A new table has an empty tree and an empty pool. */
    constructor ()
      ensures Valid()
      ensures editTreeRoot == null && buffers == [] && requests == [] && Repr == {}
    {
      editTreeRoot := null;
      buffers := [];
      requests := [];
      Repr := {};
    }

    /**
      The common edit that every public operation reduces to. What it does
      to the tree is not modelled; it is recorded, and the pool it may add
      to keeps every buffer it had. It may change any node of the tree and
      add new ones.
     */
    method Change(index: nat, length: nat, data: string)
      requires Valid()
      modifies this, Repr
      ensures Valid() && fresh(Repr - old(Repr))
      ensures requests == old(requests) + [ChangeRequest(index, length, data)]
      ensures |buffers| >= |old(buffers)| && buffers[..|old(buffers)|] == old(buffers)
    {
      requests := requests + [ChangeRequest(index, length, data)];
    }

    /** Inserting is a change that removes nothing. */
    method Insert(index: nat, data: string) returns (table: PieceTable)
      requires Valid()
      modifies this, Repr
      ensures table == this && Valid() && fresh(Repr - old(Repr))
      ensures requests == old(requests) + [ChangeRequest(index, 0, data)]
      ensures |buffers| >= |old(buffers)| && buffers[..|old(buffers)|] == old(buffers)
    {
      Change(index, 0, data);
      table := this;
    }

    /** Removing is a change that inserts the empty text. */
    method Remove(index: nat, length: nat) returns (table: PieceTable)
      requires Valid()
      modifies this, Repr
      ensures table == this && Valid() && fresh(Repr - old(Repr))
      ensures requests == old(requests) + [ChangeRequest(index, length, "")]
      ensures |buffers| >= |old(buffers)| && buffers[..|old(buffers)|] == old(buffers)
    {
      Change(index, length, "");
      table := this;
    }

    /** Replacing is a change with both a length and a text. */
    method Replace(index: nat, length: nat, data: string) returns (table: PieceTable)
      requires Valid()
      modifies this, Repr
      ensures table == this && Valid() && fresh(Repr - old(Repr))
      ensures requests == old(requests) + [ChangeRequest(index, length, data)]
      ensures |buffers| >= |old(buffers)| && buffers[..|old(buffers)|] == old(buffers)
    {
      Change(index, length, data);
      table := this;
    }

    /**
      Appends a buffer built from `data` to the pool and returns its index,
      the size the pool had before; the buffers already there are kept.
     */
    method InsertBuffer(data: string) returns (index: nat)
      requires Valid()
      modifies this
      ensures Valid()
      ensures index == |old(buffers)| && |buffers| == index + 1
      ensures buffers[..index] == old(buffers)
      ensures buffers[index].str == data
      ensures editTreeRoot == old(editTreeRoot) && requests == old(requests) && Repr == old(Repr)
    {
      var b := NewBuffer(data);
      buffers := buffers + [b];
      index := |buffers| - 1;
    }
  }
}
