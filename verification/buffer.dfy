/**
  An immutable text chunk and its line-start table
  (src/piece_table/piece_table.hpp:54-65, src/piece_table/piece_table.cpp:15-37).
 */
module Buffers {
  import opened Lines

  /**
    A buffer is never changed after it is built, so it is a value: its
    text and the table its constructor fills in.
   */
  datatype Buffer = Buffer(str: string, lineStarts: seq<nat>)
  {
    /** The table is the one the constructor builds for the text. */
    predicate Valid()
    {
      lineStarts == LineStarts(str)
    }
  }

  /**
    The buffer constructor: one pass over `str` pushes 0 and then the
    offset of every '\n' onto the back of a queue, and a second loop pops
    the queue from the front into a freshly allocated table.
   */
  method NewBuffer(str: string) returns (b: Buffer)
    ensures b.str == str && b.Valid()
    ensures b.lineStarts[0] == 0 && |b.lineStarts| == 1 + multiset(str)['\n']
  {
    var linesList: seq<nat> := [0];
    var i := 0;
    while i < |str|
      invariant 0 <= i <= |str|
      invariant linesList == [0] + NewlinePositions(str[..i])
    {
      assert str[..i + 1][..i] == str[..i];
      if str[i] == '\n' {
        linesList := linesList + [i];
      }
      i := i + 1;
    }
    assert str[..i] == str;

    ghost var pushed := linesList;
    var lineStarts := new nat[|linesList|];
    var lineCount := 0;
    while linesList != []
      invariant 0 <= lineCount <= |pushed|
      invariant linesList == pushed[lineCount..]
      invariant lineStarts[..lineCount] == pushed[..lineCount]
      decreases |linesList|
    {
      lineStarts[lineCount] := linesList[0];
      linesList := linesList[1..];
      lineCount := lineCount + 1;
    }
    assert lineStarts[..] == lineStarts[..lineCount];
    b := Buffer(str, lineStarts[..]);
    LineStartsCount(str);
  }
}
