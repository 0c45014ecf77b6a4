/**
  The long-to-wide count pivot of `process()` in app.py: resolve the
  identifier column, select the value columns, count every value per
  identifier, left-merge each column's counts onto the distinct identifiers
  and fill what the merges left missing with 0.
*/
module Pivot {
  import opened Wrappers
  import opened Text
  import opened Seqs
  import opened Frame
  import opened Counting

  /** The label the identifier column is given. */
  const UserCol: string := "annotator_id"

  /** The label the CSV reader gives an empty header cell in position 2. */
  const IdPlaceholder: string := "Unnamed: 2"

  /** The mark of every label the CSV reader makes up for an empty header cell. */
  const PlaceholderMark: string := "Unnamed:"

  /** Why a run fails; the web layer answers every failure with status 500 and no table. */
  datatype Error =
    | IdColumnOutOfRange          // `df.columns[2]` on a table of fewer than three columns
    | NonUniqueLabel(name: string)   // a label the engine selects by names several columns

  /** The output column `<source>_<value>`. */
  datatype OutCol = OutCol(source: string, value: real)

  /**
    The wide table: its identifier rows, its count columns and its cells keyed
    by (identifier, column). Before the final fill an absent key is a NaN
    left by a merge; after it every (row, column) pair has a count.
  */
  datatype Summary = Summary(ids: seq<string>, cols: seq<OutCol>, cells: map<(string, OutCol), nat>)

  /** The labels after the identifier column is renamed, and that column's position. */
  datatype Resolved = Resolved(names: seq<string>, id: nat)

  // ---------------------------------------------------------------------------
  // Identifier column (app.py:57-59)
  // ---------------------------------------------------------------------------

  /** The label to rename: "Unnamed: 2" when present, else the label in position 2. */
  function IdTarget(header: seq<string>): (r: Result<string, Error>)
    ensures r.Success? <==> IdPlaceholder in header || |header| > 2
    ensures r.Success? ==> r.value in header
    ensures IdPlaceholder in header ==> r == Success(IdPlaceholder)
  {
    if IdPlaceholder in header then Success(IdPlaceholder)
    else if |header| > 2 then Success(header[2])
    else Failure(IdColumnOutOfRange)
  }

  /** `df.rename(columns={target: UserCol})`: every column labelled `target` is relabelled. */
  function Rename(header: seq<string>, target: string): (names: seq<string>)
    ensures |names| == |header|
    ensures forall j :: 0 <= j < |header| ==> names[j] == if header[j] == target then UserCol else header[j]
  {
    seq(|header|, j requires 0 <= j < |header| => if header[j] == target then UserCol else header[j])
  }

  /** Column `j` ends up labelled `UserCol`: it had that label, or it is renamed to it. */
  ghost predicate EndsAsId(header: seq<string>, j: int)
    requires 0 <= j < |header|
  {
    || header[j] == UserCol
    || (IdPlaceholder in header && header[j] == IdPlaceholder)
    || (IdPlaceholder !in header && |header| > 2 && header[j] == header[2])
  }

  /** The identifier column is found, and exactly one column ends up labelled `UserCol`. */
  ghost predicate Resolvable(header: seq<string>) {
    && (IdPlaceholder in header || |header| > 2)
    && forall i, j :: 0 <= i < j < |header| && EndsAsId(header, i) ==> !EndsAsId(header, j)
  }

  /** `r` picks the column the source picks, relabels it and leaves every other label alone. */
  ghost predicate PicksId(header: seq<string>, r: Resolved) {
    && |r.names| == |header| && r.id < |header|
    && (IdPlaceholder in header ==> header[r.id] == IdPlaceholder)
    && (IdPlaceholder !in header ==> r.id == 2)
    && r.names[r.id] == UserCol
    && forall j :: 0 <= j < |header| && j != r.id ==> r.names[j] == header[j] != UserCol
  }

  /** After the rename, a column is labelled `UserCol` exactly when it ends as the identifier. */
  lemma RenameMarksId(header: seq<string>, target: string)
    requires IdTarget(header) == Success(target)
    ensures target in header
    ensures forall j :: 0 <= j < |header| ==> (Rename(header, target)[j] == UserCol <==> EndsAsId(header, j))
  {
  }

  /** With one `UserCol` left after the rename, the header resolves and only `id` holds that label. */
  lemma SingleIdResolves(header: seq<string>, names: seq<string>, id: nat)
    requires |names| == |header| && id < |names| && names[id] == UserCol
    requires forall j :: 0 <= j < |header| ==> (names[j] == UserCol <==> EndsAsId(header, j))
    requires Occurrences(names, UserCol) == 1
    ensures forall i, j :: 0 <= i < j < |header| && EndsAsId(header, i) ==> !EndsAsId(header, j)
    ensures forall j :: 0 <= j < |header| && j != id ==> names[j] != UserCol
  {
    forall i, j | 0 <= i < j < |header| && EndsAsId(header, i) ensures !EndsAsId(header, j) {
      if EndsAsId(header, j) {
        OnlyOccurrence(names, i, j);
      }
    }
    forall j | 0 <= j < |header| && j != id ensures names[j] != UserCol {
      if names[j] == UserCol {
        OnlyOccurrence(names, id, j);
      }
    }
  }

  /**
    Lines 58-62: the identifier column is the one labelled "Unnamed: 2", else
    the one in position 2; it is relabelled `UserCol`, and a second column
    with that label makes `df[user_col]` a frame, which fails.
  */
  function ResolveId(header: seq<string>): (r: Result<Resolved, Error>)
    ensures r.Success? <==> Resolvable(header)
    ensures r.Success? ==> PicksId(header, r.value)
    ensures IdPlaceholder !in header && |header| < 3 ==> r == Failure(IdColumnOutOfRange)
  {
    var target :- IdTarget(header);
    var names := Rename(header, target);
    RenameMarksId(header, target);
    if Occurrences(names, UserCol) != 1 then
      assert !Resolvable(header) by {
        assert names[IndexOf(header, target)] == UserCol;
        TwoPositions(names, UserCol);
      }
      Failure(NonUniqueLabel(UserCol))
    else
      var id := IndexOf(names, UserCol);
      SingleIdResolves(header, names, id);
      Success(Resolved(names, id))
  }

  // ---------------------------------------------------------------------------
  // Value columns (app.py:65)
  // ---------------------------------------------------------------------------

  /** A label that is aggregated: not the identifier, not a placeholder. */
  predicate IsValueLabel(name: string) {
    name != UserCol && !Contains(name, PlaceholderMark)
  }

  /** The positions of the value columns, in column order. */
  function ValueCols(names: seq<string>): (cols: seq<nat>)
    ensures forall j :: j in cols ==> j < |names|
    ensures forall j :: 0 <= j < |names| ==> (j in cols <==> IsValueLabel(names[j]))
    ensures forall a, b :: 0 <= a < b < |cols| ==> cols[a] < cols[b]
  {
    if names == [] then []
    else
      var n := |names| - 1;
      var p := ValueCols(names[..n]);
      assert forall j :: j in p ==> j < n && names[j] == names[..n][j];
      assert forall a :: 0 <= a < |p| ==> p[a] in p;
      if IsValueLabel(names[n]) then p + [n] else p
  }

  // ---------------------------------------------------------------------------
  // Identifiers and coerced cells (app.py:62, 70)
  // ---------------------------------------------------------------------------

  /** `df[user_col].astype(str).str.strip()`: every row's identifier, NaN included. */
  function IdKeys(rows: seq<seq<Cell>>, id: nat): (keys: seq<string>)
    ensures |keys| == |rows|
    ensures forall i :: 0 <= i < |rows| ==> keys[i] == Strip(StrForm(CellAt(rows[i], id)))
  {
    seq(|rows|, i requires 0 <= i < |rows| => Strip(StrForm(CellAt(rows[i], id))))
  }

  /** `pd.to_numeric(df[col], errors='coerce')`, each cell beside its row's identifier. */
  function ColumnObs(rows: seq<seq<Cell>>, keys: seq<string>, c: nat, coerce: Cell -> Option<real>): (obs: seq<Obs>)
    requires |keys| == |rows|
    ensures |obs| == |rows|
    ensures forall i :: 0 <= i < |rows| ==> obs[i] == Obs(keys[i], coerce(CellAt(rows[i], c)))
  {
    seq(|rows|, i requires 0 <= i < |rows| => Obs(keys[i], coerce(CellAt(rows[i], c))))
  }

  // ---------------------------------------------------------------------------
  // Merging and filling (app.py:68-75)
  // ---------------------------------------------------------------------------

  /** Line 68: one row per distinct identifier, in order of first appearance, no columns yet. */
  function Base(keys: seq<string>): (b: Summary)
    ensures NoDup(b.ids) && forall k :: k in b.ids <==> k in keys
    ensures b.cols == [] && b.cells == map[]
  {
    Summary(Unique(keys), [], map[])
  }

  /** `add_prefix(f'{col}_')`: the output columns of one value column, one per value. */
  function Block(name: string, vs: seq<real>): (b: seq<OutCol>)
    ensures |b| == |vs|
    ensures forall oc :: oc in b <==> oc.source == name && oc.value in vs
    ensures NoDup(vs) ==> NoDup(b)
  {
    if vs == [] then [] else [OutCol(name, vs[0])] + Block(name, vs[1..])
  }

  /** Every (row, column) position of a table. */
  function Cross(ids: seq<string>, cols: seq<OutCol>): (s: set<(string, OutCol)>)
    ensures forall p :: p in s <==> p.0 in ids && p.1 in cols
  {
    set k, oc | k in ids && oc in cols :: (k, oc)
  }

  /**
    Lines 71-73: `result.merge(counts, on=user_col, how='left')`. The rows
    stay as they are; the column's block is appended; a row gets the counts
    of its identifier where the counts table has that identifier and stays
    NaN (no key) where it does not.
  */
  function MergeCounts(t: Summary, name: string, obs: seq<Obs>): (r: Summary)
    ensures r.ids == t.ids && r.cols == t.cols + Block(name, Values(obs))
    ensures forall k, v :: k in t.ids && v in Present(obs) && NonMissing(obs, k) > 0 ==>
              (k, OutCol(name, v)) in r.cells && r.cells[(k, OutCol(name, v))] == Count(obs, k, v)
    ensures forall p :: p in r.cells ==>
              || p in t.cells
              || (p.0 in t.ids && p.1.source == name && p.1.value in Present(obs) && NonMissing(obs, p.0) > 0)
    ensures forall p :: p in t.cells && p.1.source != name ==> p in r.cells && r.cells[p] == t.cells[p]
  {
    var added := Joined(t.ids, name, obs);
    Summary(t.ids, t.cols + Block(name, Values(obs)), t.cells + added)
  }

  /**
    The cells a left merge of one column's counts table brings to the rows
    `ids`: a row whose identifier the counts table has gets one cell per
    value, the others get none.
  */
  function Joined(ids: seq<string>, name: string, obs: seq<Obs>): (m: map<(string, OutCol), nat>)
    ensures forall p :: p in m <==>
              p.0 in ids && p.1.source == name && p.1.value in Present(obs) && NonMissing(obs, p.0) > 0
    ensures forall p :: p in m ==> m[p] == Count(obs, p.0, p.1.value)
  {
    var f := CountsFrame(obs);
    var block := Block(name, Values(obs));
    map p | p in Cross(ids, block) && p.0 in f :: f[p.0][p.1.value]
  }

  /**
    The accumulator after the loop of lines 69-73 has gone through the value
    columns `vcs` in order; a column whose label names several columns makes
    `pd.to_numeric(df[col])` fail.
  */
  function Accumulate(names: seq<string>, rows: seq<seq<Cell>>, keys: seq<string>,
                      coerce: Cell -> Option<real>, vcs: seq<nat>): (r: Result<Summary, Error>)
    requires |keys| == |rows|
    requires forall c :: c in vcs ==> c < |names|
    ensures r.Success? ==> r.value.ids == Unique(keys)
    decreases |vcs|
  {
    if vcs == [] then Success(Base(keys))
    else
      var n := |vcs| - 1;
      assert forall c :: c in vcs[..n] ==> c in vcs;
      var t :- Accumulate(names, rows, keys, coerce, vcs[..n]);
      var c := vcs[n];
      assert c in vcs;
      if Occurrences(names, names[c]) != 1 then Failure(NonUniqueLabel(names[c]))
      else Success(MergeCounts(t, names[c], ColumnObs(rows, keys, c, coerce)))
  }

  /** One more column of the loop of lines 69-73 is one more merge, or the failure that ends it. */
  lemma AccumulateNext(names: seq<string>, rows: seq<seq<Cell>>, keys: seq<string>,
                       coerce: Cell -> Option<real>, vcs: seq<nat>, i: nat, t: Summary)
    requires |keys| == |rows| && i < |vcs|
    requires forall c :: c in vcs ==> c < |names|
    requires (assert forall c :: c in vcs[..i] ==> c in vcs;
              Accumulate(names, rows, keys, coerce, vcs[..i]) == Success(t))
    ensures vcs[i] < |names|
    ensures (assert forall c {:trigger c in vcs[..i + 1]} :: c in vcs[..i + 1] ==> c in vcs;
             Accumulate(names, rows, keys, coerce, vcs[..i + 1]) ==
             if Occurrences(names, names[vcs[i]]) != 1 then Failure(NonUniqueLabel(names[vcs[i]]))
             else Success(MergeCounts(t, names[vcs[i]], ColumnObs(rows, keys, vcs[i], coerce))))
  {
    assert vcs[i] in vcs;
    assert forall c :: c in vcs[..i + 1] ==> c in vcs;
    assert vcs[..i + 1][..i] == vcs[..i];
  }

  /** Line 75, `result.fillna(0)`: every NaN a merge left becomes 0. */
  function Fill(t: Summary): (s: Summary)
    ensures s.ids == t.ids && s.cols == t.cols
    ensures s.cells.Keys == Cross(t.ids, t.cols)
    ensures forall p :: p in t.cells && p in s.cells ==> s.cells[p] == t.cells[p]
    ensures forall p :: p !in t.cells && p in s.cells ==> s.cells[p] == 0
  {
    Summary(t.ids, t.cols, map p | p in Cross(t.ids, t.cols) :: if p in t.cells then t.cells[p] else 0)
  }

  /**
    Lines 54-75 as one function of the parsed header, the lines after it and
    the numeric coercion: the wide table, or the failure that ends the run.
  */
  function Run(header: seq<string>, lines: seq<seq<Cell>>, coerce: Cell -> Option<real>): Result<Summary, Error> {
    var rows := DataRows(lines);
    var r :- ResolveId(header);
    var keys := IdKeys(rows, r.id);
    var t :- Accumulate(r.names, rows, keys, coerce, ValueCols(r.names));
    Success(Fill(t))
  }

  // ---------------------------------------------------------------------------
  // What the run computes
  // ---------------------------------------------------------------------------

  /** No value column shares its label with another column. */
  ghost predicate ValueLabelsUnique(names: seq<string>) {
    forall c :: 0 <= c < |names| && IsValueLabel(names[c]) ==> Occurrences(names, names[c]) == 1
  }

  /** The accumulator's columns after merging the value columns `done`: one per (column, value seen in it). */
  ghost predicate PartialCols(names: seq<string>, rows: seq<seq<Cell>>, keys: seq<string>,
                              coerce: Cell -> Option<real>, done: seq<nat>, cols: seq<OutCol>)
    requires |keys| == |rows|
    requires forall c :: c in done ==> c < |names|
  {
    && NoDup(cols)
    && (forall oc :: oc in cols ==>
          exists c :: c in done && oc.source == names[c] && oc.value in Present(ColumnObs(rows, keys, c, coerce)))
    && (forall c, v :: c in done && v in Present(ColumnObs(rows, keys, c, coerce)) ==> OutCol(names[c], v) in cols)
  }

  /**
    The accumulator's cells after merging the value columns `done`: a count
    exactly where the identifier has a non-missing cell in the column, NaN
    elsewhere.
  */
  ghost predicate PartialCells(names: seq<string>, rows: seq<seq<Cell>>, keys: seq<string>,
                               coerce: Cell -> Option<real>, done: seq<nat>, t: Summary)
    requires |keys| == |rows|
    requires forall c :: c in done ==> c < |names|
  {
    && (forall p :: p in t.cells ==> p.0 in t.ids && p.1 in t.cols)
    && (forall c, k, v :: c in done && k in t.ids && v in Present(ColumnObs(rows, keys, c, coerce)) ==>
          ((k, OutCol(names[c], v)) in t.cells <==> NonMissing(ColumnObs(rows, keys, c, coerce), k) > 0))
    && (forall c, k, v :: c in done && (k, OutCol(names[c], v)) in t.cells ==>
          t.cells[(k, OutCol(names[c], v))] == Count(ColumnObs(rows, keys, c, coerce), k, v))
  }

  /** The accumulator after merging the value columns `done`, rows being the distinct identifiers. */
  ghost predicate Partial(names: seq<string>, rows: seq<seq<Cell>>, keys: seq<string>,
                          coerce: Cell -> Option<real>, done: seq<nat>, t: Summary)
    requires |keys| == |rows|
    requires forall c :: c in done ==> c < |names|
  {
    && t.ids == Unique(keys)
    && PartialCols(names, rows, keys, coerce, done, t.cols)
    && PartialCells(names, rows, keys, coerce, done, t)
  }

  /** Labels of merged columns differ from the label of a column not yet merged. */
  lemma OtherLabels(names: seq<string>, done: seq<nat>, c: nat)
    requires c < |names| && c !in done
    requires forall d :: d in done ==> d < |names|
    requires Occurrences(names, names[c]) == 1
    ensures forall d :: d in done ==> names[d] != names[c]
  {
    forall d | d in done ensures names[d] != names[c] {
      if names[d] == names[c] {
        OnlyOccurrence(names, c, d);
      }
    }
  }

  /** Appending a unique column's block keeps `PartialCols`. */
  lemma MergeStepCols(names: seq<string>, rows: seq<seq<Cell>>, keys: seq<string>,
                      coerce: Cell -> Option<real>, done: seq<nat>, cols: seq<OutCol>, c: nat)
    requires |keys| == |rows| && c < |names|
    requires forall d :: d in done ==> d < |names| && names[d] != names[c]
    requires PartialCols(names, rows, keys, coerce, done, cols)
    ensures PartialCols(names, rows, keys, coerce, done + [c],
                        cols + Block(names[c], Values(ColumnObs(rows, keys, c, coerce))))
  {
    var obs := ColumnObs(rows, keys, c, coerce);
    var block := Block(names[c], Values(obs));
    var cols' := cols + block;
    var done' := done + [c];
    forall oc | oc in cols ensures oc.source != names[c] {
      var d :| d in done && oc.source == names[d] && oc.value in Present(ColumnObs(rows, keys, d, coerce));
    }
    forall i, j | 0 <= i < j < |cols'| ensures cols'[i] != cols'[j] {
      if j < |cols| {
      } else if i >= |cols| {
        assert cols'[i] == block[i - |cols|] && cols'[j] == block[j - |cols|];
      } else {
        assert cols'[i] in cols && cols'[j] in block;
      }
    }
    forall oc | oc in cols'
      ensures exists d :: d in done' && oc.source == names[d] && oc.value in Present(ColumnObs(rows, keys, d, coerce))
    {
      if oc in block {
        assert c in done';
      } else {
        var d :| d in done && oc.source == names[d] && oc.value in Present(ColumnObs(rows, keys, d, coerce));
        assert d in done';
      }
    }
    forall d, v | d in done' && v in Present(ColumnObs(rows, keys, d, coerce)) ensures OutCol(names[d], v) in cols' {
      if d != c {
        assert d in done;
      }
    }
  }

  /** Merging a unique column's counts keeps `PartialCells`. */
  lemma MergeStepCells(names: seq<string>, rows: seq<seq<Cell>>, keys: seq<string>,
                       coerce: Cell -> Option<real>, done: seq<nat>, t: Summary, c: nat)
    requires |keys| == |rows| && c < |names|
    requires forall d :: d in done ==> d < |names| && names[d] != names[c]
    requires forall oc :: oc in t.cols ==> oc.source != names[c]
    requires PartialCells(names, rows, keys, coerce, done, t)
    ensures PartialCells(names, rows, keys, coerce, done + [c], MergeCounts(t, names[c], ColumnObs(rows, keys, c, coerce)))
  {
    var name, obs := names[c], ColumnObs(rows, keys, c, coerce);
    var t' := MergeCounts(t, name, obs);
    var done' := done + [c];
    forall d, k, v | d in done' && k in t'.ids && v in Present(ColumnObs(rows, keys, d, coerce))
      ensures ((k, OutCol(names[d], v)) in t'.cells <==> NonMissing(ColumnObs(rows, keys, d, coerce), k) > 0)
    {
      if d != c {
        assert d in done;
      } else {
        assert (k, OutCol(name, v)) !in t.cells;
      }
    }
    forall d, k, v | d in done' && (k, OutCol(names[d], v)) in t'.cells
      ensures t'.cells[(k, OutCol(names[d], v))] == Count(ColumnObs(rows, keys, d, coerce), k, v)
    {
      if d != c {
        assert d in done;
      } else {
        assert (k, OutCol(name, v)) !in t.cells;
      }
    }
  }

  /** Merging one more column with a unique label keeps `Partial`. */
  lemma MergeStep(names: seq<string>, rows: seq<seq<Cell>>, keys: seq<string>,
                  coerce: Cell -> Option<real>, done: seq<nat>, t: Summary, c: nat)
    requires |keys| == |rows| && c < |names| && c !in done
    requires forall d :: d in done ==> d < |names|
    requires Occurrences(names, names[c]) == 1
    requires Partial(names, rows, keys, coerce, done, t)
    ensures Partial(names, rows, keys, coerce, done + [c], MergeCounts(t, names[c], ColumnObs(rows, keys, c, coerce)))
  {
    OtherLabels(names, done, c);
    forall oc | oc in t.cols ensures oc.source != names[c] {
      var d :| d in done && oc.source == names[d] && oc.value in Present(ColumnObs(rows, keys, d, coerce));
    }
    MergeStepCols(names, rows, keys, coerce, done, t.cols, c);
    MergeStepCells(names, rows, keys, coerce, done, t, c);
  }

  /** Going through the value columns `vcs` succeeds exactly when each has a unique label. */
  lemma {:induction false} AccumulateSucceeds(names: seq<string>, rows: seq<seq<Cell>>, keys: seq<string>,
                                              coerce: Cell -> Option<real>, vcs: seq<nat>)
    requires |keys| == |rows|
    requires forall c :: c in vcs ==> c < |names|
    ensures Accumulate(names, rows, keys, coerce, vcs).Success?
        <==> forall c :: c in vcs ==> Occurrences(names, names[c]) == 1
    decreases |vcs|
  {
    if vcs != [] {
      var n := |vcs| - 1;
      var prefix, c := vcs[..n], vcs[n];
      assert vcs == prefix + [c];
      assert c in vcs && forall d :: d in prefix ==> d in vcs;
      AccumulateSucceeds(names, rows, keys, coerce, prefix);
    }
  }

  /** Once a prefix of the value columns fails, the whole loop fails the same way. */
  lemma {:induction false} FailureSticks(names: seq<string>, rows: seq<seq<Cell>>, keys: seq<string>,
                                         coerce: Cell -> Option<real>, vcs: seq<nat>, j: nat)
    requires |keys| == |rows| && j <= |vcs|
    requires forall c :: c in vcs ==> c < |names|
    requires (assert forall c :: c in vcs[..j] ==> c in vcs;
              Accumulate(names, rows, keys, coerce, vcs[..j]).Failure?)
    ensures Accumulate(names, rows, keys, coerce, vcs) == Accumulate(names, rows, keys, coerce, vcs[..j])
    decreases |vcs|
  {
    if j < |vcs| {
      var n := |vcs| - 1;
      assert vcs[..n][..j] == vcs[..j];
      assert forall c :: c in vcs[..n] ==> c in vcs;
      FailureSticks(names, rows, keys, coerce, vcs[..n], j);
    } else {
      assert vcs[..j] == vcs;
    }
  }

  /** After going through distinct value columns `vcs` successfully, the accumulator is `Partial` for them. */
  lemma {:induction false} AccumulateSpec(names: seq<string>, rows: seq<seq<Cell>>, keys: seq<string>,
                                          coerce: Cell -> Option<real>, vcs: seq<nat>)
    requires |keys| == |rows| && NoDup(vcs)
    requires forall c :: c in vcs ==> c < |names|
    requires Accumulate(names, rows, keys, coerce, vcs).Success?
    ensures Partial(names, rows, keys, coerce, vcs, Accumulate(names, rows, keys, coerce, vcs).value)
    decreases |vcs|
  {
    if vcs != [] {
      var n := |vcs| - 1;
      var prefix, c := vcs[..n], vcs[n];
      assert vcs == prefix + [c];
      assert c in vcs && forall d :: d in prefix ==> d in vcs;
      assert c !in prefix;
      assert NoDup(prefix) by {
        forall i, j | 0 <= i < j < n ensures prefix[i] != prefix[j] {
          assert prefix[i] == vcs[i] && prefix[j] == vcs[j];
        }
      }
      var acc := Accumulate(names, rows, keys, coerce, prefix);
      assert acc.Success?;
      AccumulateSpec(names, rows, keys, coerce, prefix);
      MergeStep(names, rows, keys, coerce, prefix, acc.value, c);
    }
  }

  /**
    What a successful run returns for the resolved labels `r` and data rows
    `rows`: one row per distinct identifier in order of first appearance;
    one column per (value column, value seen anywhere in it), no column
    twice; a count in every cell, equal to the number of that identifier's
    rows whose cell in that column coerces to that value.
  */
  ghost predicate Summarises(r: Resolved, rows: seq<seq<Cell>>, coerce: Cell -> Option<real>, s: Summary) {
    var keys := IdKeys(rows, r.id);
    && s.ids == Unique(keys)
    && NoDup(s.cols)
    && (forall oc :: oc in s.cols <==>
          exists c :: 0 <= c < |r.names| && IsValueLabel(r.names[c]) && oc.source == r.names[c]
                   && oc.value in Present(ColumnObs(rows, keys, c, coerce)))
    && s.cells.Keys == Cross(s.ids, s.cols)
    && CellsCount(r, rows, coerce, s)
  }

  /**
    Every cell of a value column's block holds the number of that
    identifier's rows whose cell in the column coerces to that value: the
    multiplicity of the observation (identifier, value) in the column.
  */
  ghost predicate CellsCount(r: Resolved, rows: seq<seq<Cell>>, coerce: Cell -> Option<real>, s: Summary) {
    forall c, k, v ::
      (0 <= c < |r.names| && IsValueLabel(r.names[c]) && k in s.ids && v in Present(ColumnObs(rows, IdKeys(rows, r.id), c, coerce))) ==>
      && (k, OutCol(r.names[c], v)) in s.cells
      && s.cells[(k, OutCol(r.names[c], v))] == multiset(ColumnObs(rows, IdKeys(rows, r.id), c, coerce))[Obs(k, Some(v))]
  }

  /** One cell of a filled accumulator: the count, or the 0 a missing combination gets. */
  lemma FilledCell(t: Summary, name: string, obs: seq<Obs>, k: string, v: real)
    requires k in t.ids && OutCol(name, v) in t.cols
    requires (k, OutCol(name, v)) in t.cells <==> NonMissing(obs, k) > 0
    requires (k, OutCol(name, v)) in t.cells ==> t.cells[(k, OutCol(name, v))] == Count(obs, k, v)
    ensures (k, OutCol(name, v)) in Fill(t).cells
    ensures Fill(t).cells[(k, OutCol(name, v))] == multiset(obs)[Obs(k, Some(v))]
  {
    CountIsMultiplicity(obs, k, v);
    if (k, OutCol(name, v)) !in t.cells {
      CountAtMostNonMissing(obs, k, v);
    }
  }

  /** Filling a finished accumulator gives a count in every cell of every value column's block. */
  lemma FilledCellsCount(r: Resolved, rows: seq<seq<Cell>>, coerce: Cell -> Option<real>, t: Summary)
    requires r.id < |r.names|
    requires Partial(r.names, rows, IdKeys(rows, r.id), coerce, ValueCols(r.names), t)
    ensures CellsCount(r, rows, coerce, Fill(t))
  {
    var keys, vcs := IdKeys(rows, r.id), ValueCols(r.names);
    forall c, k, v | 0 <= c < |r.names| && IsValueLabel(r.names[c]) && k in Fill(t).ids
                     && v in Present(ColumnObs(rows, keys, c, coerce))
      ensures (k, OutCol(r.names[c], v)) in Fill(t).cells
      ensures Fill(t).cells[(k, OutCol(r.names[c], v))] == multiset(ColumnObs(rows, keys, c, coerce))[Obs(k, Some(v))]
    {
      assert c in vcs;
      FilledCell(t, r.names[c], ColumnObs(rows, keys, c, coerce), k, v);
    }
  }

  /** Filling a finished accumulator gives the table `Summarises` describes. */
  lemma FilledSummarises(r: Resolved, rows: seq<seq<Cell>>, coerce: Cell -> Option<real>, t: Summary)
    requires r.id < |r.names|
    requires Partial(r.names, rows, IdKeys(rows, r.id), coerce, ValueCols(r.names), t)
    ensures Summarises(r, rows, coerce, Fill(t))
  {
    var keys, vcs, s := IdKeys(rows, r.id), ValueCols(r.names), Fill(t);
    FilledCellsCount(r, rows, coerce, t);
    forall oc: OutCol | exists c :: 0 <= c < |r.names| && IsValueLabel(r.names[c]) && oc.source == r.names[c]
                          && oc.value in Present(ColumnObs(rows, keys, c, coerce))
      ensures oc in s.cols
    {
      var c :| 0 <= c < |r.names| && IsValueLabel(r.names[c]) && oc.source == r.names[c]
               && oc.value in Present(ColumnObs(rows, keys, c, coerce));
      assert c in vcs;
    }
  }

  /**
    A run fails exactly when the identifier column cannot be resolved or a
    value column's label is not unique; otherwise it returns the table
    `Summarises` describes.
  */
  lemma RunCorrect(header: seq<string>, lines: seq<seq<Cell>>, coerce: Cell -> Option<real>)
    ensures Run(header, lines, coerce).Success?
        <==> Resolvable(header) && ValueLabelsUnique(ResolveId(header).value.names)
    ensures Run(header, lines, coerce).Success? ==>
              Summarises(ResolveId(header).value, DataRows(lines), coerce, Run(header, lines, coerce).value)
  {
    var rows := DataRows(lines);
    if ResolveId(header).Success? {
      var r := ResolveId(header).value;
      var keys := IdKeys(rows, r.id);
      var vcs := ValueCols(r.names);
      AccumulateSucceeds(r.names, rows, keys, coerce, vcs);
      var acc := Accumulate(r.names, rows, keys, coerce, vcs);
      if acc.Success? {
        AccumulateSpec(r.names, rows, keys, coerce, vcs);
        FilledSummarises(r, rows, coerce, acc.value);
      }
    }
  }

  /**
    The result has one row per distinct identifier: each is the stripped
    `str()` form of some data row's identifier cell, every data row's
    identifier has its row, and rows follow the order of first appearance.
  */
  lemma OneRowPerIdentifier(header: seq<string>, lines: seq<seq<Cell>>, coerce: Cell -> Option<real>)
    requires Run(header, lines, coerce).Success?
    ensures ResolveId(header).Success?
    ensures var ids, rows, id := Run(header, lines, coerce).value.ids, DataRows(lines), ResolveId(header).value.id;
      && NoDup(ids)
      && (forall k :: k in ids <==> exists i :: 0 <= i < |rows| && k == Strip(StrForm(CellAt(rows[i], id))))
      && ids == Unique(IdKeys(rows, id))
      && forall a, b :: 0 <= a < b < |ids| ==> IndexOf(IdKeys(rows, id), ids[a]) < IndexOf(IdKeys(rows, id), ids[b])
  {
    RunCorrect(header, lines, coerce);
    var rows, id := DataRows(lines), ResolveId(header).value.id;
    var keys := IdKeys(rows, id);
    forall k | k in keys ensures exists i :: 0 <= i < |rows| && k == Strip(StrForm(CellAt(rows[i], id))) {
      var i :| 0 <= i < |keys| && keys[i] == k;
    }
    forall a, b | 0 <= a < b < |Unique(keys)| ensures IndexOf(keys, Unique(keys)[a]) < IndexOf(keys, Unique(keys)[b]) {
      UniqueFirstAppearance(keys, a, b);
    }
  }

  /** The sum of row `k`'s cells in the columns of label `name` for the values `vs`. */
  function RowTotal(s: Summary, k: string, name: string, vs: seq<real>): nat {
    if vs == [] then 0
    else (if (k, OutCol(name, vs[0])) in s.cells then s.cells[(k, OutCol(name, vs[0]))] else 0)
         + RowTotal(s, k, name, vs[1..])
  }

  /** Where every cell is the count, the row total is the sum of the counts. */
  lemma {:induction false} RowTotalIsSumCounts(s: Summary, k: string, name: string, obs: seq<Obs>, vs: seq<real>)
    requires forall v :: v in vs ==> (k, OutCol(name, v)) in s.cells && s.cells[(k, OutCol(name, v))] == Count(obs, k, v)
    ensures RowTotal(s, k, name, vs) == SumCounts(obs, k, vs)
  {
    if vs != [] {
      RowTotalIsSumCounts(s, k, name, obs, vs[1..]);
    }
  }

  /**
    Conservation in the output: in the row of identifier `k`, the cells of
    value column `c` add up to the number of `k`'s rows whose cell in `c`
    coerced to a number.
  */
  lemma SummaryConservation(r: Resolved, rows: seq<seq<Cell>>, coerce: Cell -> Option<real>, s: Summary, c: nat, k: string)
    requires CellsCount(r, rows, coerce, s)
    requires c < |r.names| && IsValueLabel(r.names[c]) && k in s.ids
    ensures RowTotal(s, k, r.names[c], Values(ColumnObs(rows, IdKeys(rows, r.id), c, coerce)))
         == NonMissing(ColumnObs(rows, IdKeys(rows, r.id), c, coerce), k)
  {
    var keys := IdKeys(rows, r.id);
    var obs := ColumnObs(rows, keys, c, coerce);
    forall v | v in Values(obs)
      ensures (k, OutCol(r.names[c], v)) in s.cells && s.cells[(k, OutCol(r.names[c], v))] == Count(obs, k, v)
    {
      assert v in Present(ColumnObs(rows, keys, c, coerce));
      CountIsMultiplicity(obs, k, v);
    }
    RowTotalIsSumCounts(s, k, r.names[c], obs, Values(obs));
    Conservation(obs, k);
  }

  /**
    A value column whose every cell the reader left missing adds no output
    columns and no cells, provided the coercion keeps a missing cell missing.
  */
  lemma BlankColumnAddsNothing(t: Summary, name: string, rows: seq<seq<Cell>>, keys: seq<string>,
                               c: nat, coerce: Cell -> Option<real>)
    requires |keys| == |rows| && coerce(NaN) == None
    requires forall i :: 0 <= i < |rows| ==> CellAt(rows[i], c) == NaN
    ensures MergeCounts(t, name, ColumnObs(rows, keys, c, coerce)) == t
  {
    var obs := ColumnObs(rows, keys, c, coerce);
    AllMissing(obs, "");
    var r := MergeCounts(t, name, obs);
    forall p | p in r.cells ensures p in t.cells {
      if p !in t.cells {
        AllMissing(obs, p.0);
      }
    }
    assert r.cells == t.cells;
  }

  /** The line right after the header never reaches the result. */
  lemma MetaRowIgnored(header: seq<string>, meta: seq<Cell>, meta': seq<Cell>, rest: seq<seq<Cell>>, coerce: Cell -> Option<real>)
    ensures Run(header, [meta] + rest, coerce) == Run(header, [meta'] + rest, coerce)
  {
    assert DataRows([meta] + rest) == rest == DataRows([meta'] + rest);
  }
}
