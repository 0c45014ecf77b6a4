/**
  The body of `process()` in app.py (lines 54-75) step by step: each
  statement of the source reassigns a local, and the loop over the value
  columns reassigns the accumulator by one left merge per column.
*/
module App {
  import opened Wrappers
  import opened Frame
  import opened Seqs
  import opened Pivot

  /**
    Runs the aggregation on the parsed header and the lines after it; the
    result is the one `Pivot.Run` specifies, so `Pivot.RunCorrect` says
    what it holds.
  */
  method Process(header: seq<string>, lines: seq<seq<Cell>>, coerce: Cell -> Option<real>)
    returns (res: Result<Summary, Error>)
    ensures res == Run(header, lines, coerce)
  {
    // Line 54: the line after the header is skipped.
    var rows := DataRows(lines);

    // Lines 57-62: pick the identifier column, relabel it and read every
    // row's identifier from it.
    var resolved := ResolveId(header);
    if resolved.Failure? {
      return Failure(resolved.error);
    }
    var names, id := resolved.value.names, resolved.value.id;
    var keys := IdKeys(rows, id);

    // Line 65: the value columns.
    var vcs := ValueCols(names);
    assert forall c :: c in vcs ==> c < |names|;

    // Lines 68-73: start from the distinct identifiers and merge each value
    // column's counts onto them.
    var merged := MergeColumns(names, rows, keys, coerce, vcs);
    if merged.Failure? {
      return Failure(merged.error);
    }

    // Line 75: the NaNs the merges left become 0.
    res := Success(Fill(merged.value));
  }

  /**
    Lines 68-73: the accumulator starts as the distinct identifiers and each
    value column, in order, is coerced, counted and left-merged onto it; the
    result is the one `Pivot.Accumulate` specifies.
  */
  method MergeColumns(names: seq<string>, rows: seq<seq<Cell>>, keys: seq<string>,
                      coerce: Cell -> Option<real>, vcs: seq<nat>)
    returns (res: Result<Summary, Error>)
    requires |keys| == |rows|
    requires forall c :: c in vcs ==> c < |names|
    ensures res == Accumulate(names, rows, keys, coerce, vcs)
  {
    var result := Base(keys);
    var i := 0;
    while i < |vcs|
      invariant i <= |vcs|
      invariant forall c :: c in vcs[..i] ==> c in vcs
      invariant Accumulate(names, rows, keys, coerce, vcs[..i]) == Success(result)
    {
      AccumulateNext(names, rows, keys, coerce, vcs, i, result);
      var c := vcs[i];
      if Occurrences(names, names[c]) != 1 {
        // Line 70: `pd.to_numeric` is handed a frame and raises.
        FailureSticks(names, rows, keys, coerce, vcs, i + 1);
        return Failure(NonUniqueLabel(names[c]));
      }
      var obs := ColumnObs(rows, keys, c, coerce);
      result := MergeCounts(result, names[c], obs);
      i := i + 1;
    }
    assert vcs[..i] == vcs;
    res := Success(result);
  }
}
