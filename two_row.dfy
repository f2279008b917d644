/** The two-row Levenshtein computation of src/bash_command_finder.py, repeated verbatim in
    tests/benchmark_levenshtein.py: only the previous row of the table is kept, and each new row is
    built by appending one cell at a time. */
module TwoRowLevenshtein {
  import opened Levenshtein

  /** Row `i` of the table: the distances from the first `i` characters of `s1` to every prefix
      of `s2`. */
  ghost predicate IsRow(s1: string, s2: string, i: nat, row: seq<nat>)
    requires i <= |s1|
  {
    |row| == |s2| + 1 && forall j :: 0 <= j <= |s2| ==> row[j] == EditDistance(s1[..i], s2[..j])
  }

  lemma CellFromNeighbours(s1: string, s2: string, i: nat, j: nat, above: nat, left: nat, diagonal: nat)
    requires i < |s1| && j < |s2|
    requires above == EditDistance(s1[..i], s2[..j + 1])
    requires left == EditDistance(s1[..i + 1], s2[..j])
    requires diagonal == EditDistance(s1[..i], s2[..j])
    ensures Min(Min(above + 1, left + 1), diagonal + Cost(s1[i], s2[j]))
         == EditDistance(s1[..i + 1], s2[..j + 1])
  {
    Step(s1, s2, i, j);
  }

  /** The cells of a partial row `i + 1` are the distances from the first `i + 1` characters of
      `s1` to the prefixes of `s2`. */
  ghost predicate RowPrefix(s1: string, s2: string, i: nat, current: seq<nat>)
    requires i < |s1| && |current| <= |s2| + 1
  {
    forall k :: 0 <= k < |current| ==> current[k] == EditDistance(s1[..i + 1], s2[..k])
  }

  /** Every cell after the first is computed from the previous row and the cell before it. */
  predicate Recurrence(c1: char, s2: string, previous: seq<nat>, current: seq<nat>)
    requires |current| <= |s2| + 1 && |previous| == |s2| + 1
  {
    forall k :: 0 <= k < |current| - 1 ==>
      current[k + 1] == Min(Min(previous[k + 1] + 1, current[k] + 1), previous[k] + Cost(c1, s2[k]))
  }

  /** The first `j + 1` cells of row `i + 1`. */
  ghost predicate PartialRow(s1: string, s2: string, i: nat, j: nat, previous: seq<nat>, current: seq<nat>)
    requires i < |s1| && j <= |s2| && |previous| == |s2| + 1
  {
    |current| == j + 1 && current[0] == i + 1
    && RowPrefix(s1, s2, i, current) && Recurrence(s1[i], s2, previous, current)
  }

  /** Appending a cell keeps the recurrence when the cell is computed from its neighbours. */
  lemma ExtendRecurrence(c1: char, s2: string, previous: seq<nat>, current: seq<nat>, cell: nat)
    requires 0 < |current| <= |s2| && |previous| == |s2| + 1
    requires Recurrence(c1, s2, previous, current)
    requires cell == Min(Min(previous[|current|] + 1, current[|current| - 1] + 1),
                         previous[|current| - 1] + Cost(c1, s2[|current| - 1]))
    ensures Recurrence(c1, s2, previous, current + [cell])
  {
    var next := current + [cell];
    forall k | 0 <= k < |next| - 1
      ensures next[k + 1] == Min(Min(previous[k + 1] + 1, next[k] + 1), previous[k] + Cost(c1, s2[k]))
    {
      if k < |current| - 1 {
        assert next[k + 1] == current[k + 1] && next[k] == current[k];
      } else {
        assert next[k + 1] == cell && next[k] == current[k];
      }
    }
  }

  /** Appending the cell computed from its neighbours extends the distances by one. */
  lemma ExtendPrefix(s1: string, s2: string, i: nat, previous: seq<nat>, current: seq<nat>, cell: nat)
    requires i < |s1| && 0 < |current| <= |s2|
    requires IsRow(s1, s2, i, previous)
    requires RowPrefix(s1, s2, i, current)
    requires cell == Min(Min(previous[|current|] + 1, current[|current| - 1] + 1),
                         previous[|current| - 1] + Cost(s1[i], s2[|current| - 1]))
    ensures RowPrefix(s1, s2, i, current + [cell])
  {
    var j := |current| - 1;
    var above, left, diagonal := previous[j + 1], current[j], previous[j];
    assert above == EditDistance(s1[..i], s2[..j + 1]);
    assert left == EditDistance(s1[..i + 1], s2[..j]);
    assert diagonal == EditDistance(s1[..i], s2[..j]);
    CellFromNeighbours(s1, s2, i, j, above, left, diagonal);
    AppendPrefix(s1, s2, i, current, cell);
  }

  /** A partial row extended by the distance for the next prefix of `s2` is still a partial row. */
  lemma AppendPrefix(s1: string, s2: string, i: nat, current: seq<nat>, cell: nat)
    requires i < |s1| && |current| <= |s2|
    requires RowPrefix(s1, s2, i, current)
    requires cell == EditDistance(s1[..i + 1], s2[..|current|])
    ensures RowPrefix(s1, s2, i, current + [cell])
  {
    var next := current + [cell];
    assert forall k :: 0 <= k < |current| ==> next[k] == current[k];
  }

  /** One pass of the inner loop: `current_row` starts at `i + 1` and each further cell is the
      minimum of an insertion, a deletion and a substitution taken from the previous row and the
      cell just appended. */
  method NextRow(s1: string, s2: string, i: nat, previous: seq<nat>) returns (current: seq<nat>)
    requires i < |s1|
    requires IsRow(s1, s2, i, previous)
    ensures |current| == |s2| + 1 && current[0] == i + 1
    ensures forall j :: 0 <= j < |s2| ==>
      current[j + 1] == Min(Min(previous[j + 1] + 1, current[j] + 1), previous[j] + Cost(s1[i], s2[j]))
    ensures IsRow(s1, s2, i + 1, current)
  {
    current := [i + 1];
    var j := 0;
    while j < |s2|
      invariant 0 <= j <= |s2|
      invariant PartialRow(s1, s2, i, j, previous, current)
    {
      var insertions := previous[j + 1] + 1;
      var deletions := current[j] + 1;
      var substitutions := previous[j] + Cost(s1[i], s2[j]);
      var cell := Min(Min(insertions, deletions), substitutions);
      ExtendRecurrence(s1[i], s2, previous, current, cell);
      ExtendPrefix(s1, s2, i, previous, current, cell);
      current := current + [cell];
      j := j + 1;
    }
  }

  /** `levenshtein_distance(s1, s2)`: swaps the arguments so that the first is the longer, returns
      the length of the first when the second is empty, and otherwise the last cell of the last
      row. */
  method LevenshteinTwoRow(s1: string, s2: string) returns (d: nat)
    ensures d == EditDistance(s1, s2)
    decreases if |s1| < |s2| then 1 else 0
  {
    if |s1| < |s2| {
      d := LevenshteinTwoRow(s2, s1);
      Symmetric(s2, s1);
      return;
    }
    if |s2| == 0 {
      return |s1|;
    }
    var previous: seq<nat> := seq(|s2| + 1, j requires 0 <= j <= |s2| => j);
    assert IsRow(s1, s2, 0, previous) by {
      forall j | 0 <= j <= |s2| ensures previous[j] == EditDistance(s1[..0], s2[..j]) {
      }
    }
    var i := 0;
    while i < |s1|
      invariant 0 <= i <= |s1|
      invariant IsRow(s1, s2, i, previous)
    {
      previous := NextRow(s1, s2, i, previous);
      i := i + 1;
    }
    d := previous[|previous| - 1];
    assert s1[..|s1|] == s1 && s2[..|s2|] == s2;
  }
}
