/**
  The line-start table of a buffer, as a specification.

  A buffer records offset 0 followed by the offset of every '\n' in its
  text, in ascending order (src/piece_table/piece_table.cpp:18-36). The
  offset recorded is that of the newline character itself, not of the
  character after it; `IntendedLineStarts` is the table of offsets where
  lines actually begin, and the lemmas at the end relate the two.
 */
module Lines {

  /** The offsets of every '\n' in `s`, ascending. */
  function NewlinePositions(s: string): (r: seq<nat>)
    ensures forall k :: 0 <= k < |r| ==> r[k] < |s| && s[r[k]] == '\n'
    ensures forall j, k :: 0 <= j < k < |r| ==> r[j] < r[k]
  {
    if s == [] then []
    else NewlinePositions(s[..|s| - 1]) + (if s[|s| - 1] == '\n' then [|s| - 1] else [])
  }

  /** The line-start table the buffer constructor builds for `s`. */
  function LineStarts(s: string): (r: seq<nat>)
  {
    [0] + NewlinePositions(s)
  }

  /** Every newline of `s` is listed. */
  lemma {:induction false} NewlinePositionsComplete(s: string, i: nat)
    requires i < |s| && s[i] == '\n'
    ensures i in NewlinePositions(s)
  {
    if i < |s| - 1 {
      var p := s[..|s| - 1];
      assert p[i] == s[i];
      NewlinePositionsComplete(p, i);
    }
  }

  /** As many positions as there are newlines in `s`. */
  lemma {:induction false} NewlinePositionsCount(s: string)
    ensures |NewlinePositions(s)| == multiset(s)['\n']
  {
    if s != [] {
      var p := s[..|s| - 1];
      assert s == p + [s[|s| - 1]];
      assert multiset(s) == multiset(p) + multiset{s[|s| - 1]};
      NewlinePositionsCount(p);
    }
  }

  /** The table starts with 0 and has one entry more than `s` has newlines. */
  lemma LineStartsCount(s: string)
    ensures |LineStarts(s)| == 1 + multiset(s)['\n']
    ensures LineStarts(s)[0] == 0
  {
    NewlinePositionsCount(s);
  }

  /**
    The entries after the first are exactly the offsets of the newlines of
    `s`: each is the index of a '\n', and each '\n' has an entry.
   */
  lemma LineStartsAreNewlines(s: string)
    ensures forall k :: 1 <= k < |LineStarts(s)| ==> LineStarts(s)[k] < |s| && s[LineStarts(s)[k]] == '\n'
    ensures forall i :: 0 <= i < |s| && s[i] == '\n' ==> exists k :: 1 <= k < |LineStarts(s)| && LineStarts(s)[k] == i
  {
    var r := LineStarts(s);
    forall i | 0 <= i < |s| && s[i] == '\n'
      ensures exists k :: 1 <= k < |r| && r[k] == i
    {
      NewlinePositionsComplete(s, i);
      var k :| 0 <= k < |NewlinePositions(s)| && NewlinePositions(s)[k] == i;
      assert r[k + 1] == i;
    }
  }

  /**
    The table is non-decreasing, and strictly increasing from its second
    entry on (the newline offsets are pushed in scan order).
   */
  lemma LineStartsSorted(s: string)
    ensures forall j, k :: 0 <= j < k < |LineStarts(s)| ==> LineStarts(s)[j] <= LineStarts(s)[k]
    ensures forall j, k :: 1 <= j < k < |LineStarts(s)| ==> LineStarts(s)[j] < LineStarts(s)[k]
  {
  }

  /**
    The table is not always strictly increasing: a text that begins with
    a newline gets the entry 0 twice.
   */
  lemma LeadingNewlineRepeatsZero(s: string)
    requires s != [] && s[0] == '\n'
    ensures |LineStarts(s)| >= 2 && LineStarts(s)[0] == LineStarts(s)[1] == 0
  {
    NewlinePositionsComplete(s, 0);
    LineStartsSorted(s);
    var r := LineStarts(s);
    var k :| 0 <= k < |NewlinePositions(s)| && NewlinePositions(s)[k] == 0;
    assert r[k + 1] == 0;
  }

  /** The offsets where lines begin: 0, then the offset after every '\n'. */
  function IntendedLineStarts(s: string): (r: seq<nat>)
  {
    if s == [] then [0]
    else IntendedLineStarts(s[..|s| - 1]) + (if s[|s| - 1] == '\n' then [|s|] else [])
  }

  /**
    The intended table begins at 0, is strictly increasing, lists exactly
    the offsets that follow a newline, and is the written table with every
    entry after the first moved one position on.
   */
  lemma {:induction false} IntendedLineStartsAreLineStarts(s: string)
    ensures |IntendedLineStarts(s)| == |LineStarts(s)| && IntendedLineStarts(s)[0] == 0
    ensures forall k :: 1 <= k < |IntendedLineStarts(s)| ==> IntendedLineStarts(s)[k] == LineStarts(s)[k] + 1
    ensures forall k :: 1 <= k < |IntendedLineStarts(s)| ==>
      0 < IntendedLineStarts(s)[k] <= |s| && s[IntendedLineStarts(s)[k] - 1] == '\n'
    ensures forall j, k :: 0 <= j < k < |IntendedLineStarts(s)| ==> IntendedLineStarts(s)[j] < IntendedLineStarts(s)[k]
  {
    if s != [] {
      var p := s[..|s| - 1];
      IntendedLineStartsAreLineStarts(p);
      var q := IntendedLineStarts(p);
      var r := IntendedLineStarts(s);
      assert LineStarts(s) == LineStarts(p) + (if s[|s| - 1] == '\n' then [|s| - 1] else []);
      assert forall k :: 0 <= k < |q| ==> r[k] == q[k] && q[k] <= |p|;
      forall k | 1 <= k < |q|
        ensures s[r[k] - 1] == '\n'
      {
        assert p[q[k] - 1] == s[q[k] - 1];
      }
    }
  }

  /** Every offset that follows a newline of `s` is in the intended table. */
  lemma IntendedLineStartsComplete(s: string)
    ensures forall i :: 0 <= i < |s| && s[i] == '\n' ==>
      exists k :: 1 <= k < |IntendedLineStarts(s)| && IntendedLineStarts(s)[k] == i + 1
  {
    IntendedLineStartsAreLineStarts(s);
    LineStartsAreNewlines(s);
  }
}
