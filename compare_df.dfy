/** src/compare_df_cli/main.py: `raise_df_diff`, the control flow of
    `assert_pl_frame_equal`, and the parameter guard of `main`. */
module CompareDf {
  import opened Wrappers
  import opened Sequences
  import opened Ordering
  import opened Frames
  import opened PandasDiff

  /** The exceptions the core raises. */
  datatype Error =
    | SchemaMismatch(leftOnly: set<string>, rightOnly: set<string>)  // line 61
    | NoSortColumns                                                   // line 67: `sort()` without a column is a TypeError
    | DifferencesFound(diff: Table)                                   // line 76
    | MissingParameters                                               // line 121

  /** `raise_df_diff(left, right)`: it never returns; it raises a schema
      mismatch when the column sets differ, a TypeError from `sort` called
      without a column when both frames have no columns, and otherwise the
      differences. */
  function RaiseDfDiff(left: Frame, right: Frame): (r: Result<Table, Error>)
    ensures r.Err?
    ensures r.error.SchemaMismatch? || r.error.NoSortColumns? || r.error.DifferencesFound?
    ensures r.error.SchemaMismatch? <==> ColumnSet(left) != ColumnSet(right)
    ensures r.error.NoSortColumns? <==> ColumnSet(left) == ColumnSet(right) == {}
    ensures r.error.SchemaMismatch? ==>
      && r.error.leftOnly == ColumnSet(left) - ColumnSet(right)
      && r.error.rightOnly == ColumnSet(right) - ColumnSet(left)
      && r.error.leftOnly !! r.error.rightOnly
      && r.error.leftOnly + r.error.rightOnly != {}
    ensures r.error.DifferencesFound? ==> r.error.diff.columns == SortedNames(left) == SortedNames(right) != []
  {
    var leftCols, rightCols := ColumnSet(left), ColumnSet(right);
    var leftOnly, rightOnly := leftCols - rightCols, rightCols - leftCols;
    if leftOnly != {} || rightOnly != {} then
      Err(SchemaMismatch(leftOnly, rightOnly))
    else if leftCols == {} then
      Err(NoSortColumns)
    else
      assert leftCols == rightCols;
      assert left.columns[0] in SortedNames(left);
      SortedNamesBySet(left, right);
      var l, r := Canonical(left), Canonical(right);
      Err(DifferencesFound(FromPandas(l.columns, CellDiff(l, r))))
  }

  /** The reported rows are the cells of `CellDiff` on the two canonical frames. */
  lemma DifferencesAreCellDiff(left: Frame, right: Frame)
    requires ColumnSet(left) == ColumnSet(right) != {}
    ensures SortedNames(left) == SortedNames(right)
    ensures RaiseDfDiff(left, right) ==
      Err(DifferencesFound(FromPandas(SortedNames(left), CellDiff(Canonical(left), Canonical(right)))))
  {
    SortedNamesBySet(left, right);
  }

  // ----- Properties of raise_df_diff -----

  /** The reported frame is well formed, every value in it is a non-zero
      difference, and every row in it has at least one value. */
  lemma ReportedCellsDiffer(left: Frame, right: Frame)
    ensures var r := RaiseDfDiff(left, right);
      r.error.DifferencesFound? ==>
      var diff := r.error.diff;
      && diff.Valid()
      && (forall j :: 0 <= j < |diff.rows| ==> !AllMissing(diff.rows[j]))
      && (forall j, k :: 0 <= j < |diff.rows| && 0 <= k < |diff.rows[j]| && diff.rows[j][k].Some? ==>
            diff.rows[j][k].value != 0)
  {
    if ColumnSet(left) == ColumnSet(right) != {} {
      DifferencesAreCellDiff(left, right);
      ReportedFrameDiffers(Canonical(left), Canonical(right));
    }
  }

  /** When the column sets differ, the outcome depends on the column sets only:
      no selection, sort or subtraction contributes to it. */
  lemma SchemaPrecedence(left: Frame, right: Frame, left': Frame, right': Frame)
    requires ColumnSet(left) != ColumnSet(right)
    requires ColumnSet(left') == ColumnSet(left) && ColumnSet(right') == ColumnSet(right)
    ensures RaiseDfDiff(left', right') == RaiseDfDiff(left, right)
  {
    var r, r' := RaiseDfDiff(left, right), RaiseDfDiff(left', right');
    assert r.error.SchemaMismatch? && r'.error.SchemaMismatch?;
  }

  /** After alignment both frames have the same columns: the shared names in ascending order. */
  lemma AlignedColumnsAgree(left: Frame, right: Frame)
    requires ColumnSet(left) == ColumnSet(right)
    ensures Canonical(left).columns == Canonical(right).columns
    ensures Sorted(Canonical(left).columns, NameLe) && Distinct(Canonical(left).columns)
    ensures forall n :: n in Canonical(left).columns <==> n in left.columns && n in right.columns
  {
    SortedNamesBySet(left, right);
    assert forall n :: n in left.columns <==> n in ColumnSet(left);
    assert forall n :: n in right.columns <==> n in ColumnSet(right);
  }

  /** The outcome is determined by the two column sets and the two canonical forms. */
  lemma OutcomeByCanonical(left: Frame, right: Frame, left': Frame, right': Frame)
    requires ColumnSet(left') == ColumnSet(left) && ColumnSet(right') == ColumnSet(right)
    requires Canonical(left') == Canonical(left) && Canonical(right') == Canonical(right)
    ensures RaiseDfDiff(left', right') == RaiseDfDiff(left, right)
  {
    if ColumnSet(left) == ColumnSet(right) != {} {
      DifferencesAreCellDiff(left, right);
      DifferencesAreCellDiff(left', right');
    }
  }

  /** Permuting the rows of either input does not change the outcome. */
  lemma RowPermutationInvariant(left: Frame, right: Frame, left': Frame, right': Frame)
    requires left'.columns == left.columns && multiset(left'.rows) == multiset(left.rows)
    requires right'.columns == right.columns && multiset(right'.rows) == multiset(right.rows)
    ensures RaiseDfDiff(left', right') == RaiseDfDiff(left, right)
  {
    CanonicalRowPermutation(left, left');
    CanonicalRowPermutation(right, right');
    OutcomeByCanonical(left, right, left', right');
  }

  /** Reordering the columns of either input does not change the outcome. */
  lemma ColumnPermutationInvariant(left: Frame, right: Frame, leftOrder: seq<string>, rightOrder: seq<string>)
    requires Distinct(leftOrder) && forall n :: n in leftOrder <==> n in left.columns
    requires Distinct(rightOrder) && forall n :: n in rightOrder <==> n in right.columns
    ensures RaiseDfDiff(Select(left, leftOrder), Select(right, rightOrder)) == RaiseDfDiff(left, right)
  {
    var left', right' := Select(left, leftOrder), Select(right, rightOrder);
    assert ColumnSet(left') == ColumnSet(left) && ColumnSet(right') == ColumnSet(right);
    CanonicalColumnPermutation(left, leftOrder);
    CanonicalColumnPermutation(right, rightOrder);
    OutcomeByCanonical(left, right, left', right');
  }

  /** Two frames whose rows, over the sorted shared columns, are the same
      multiset canonicalise to the same frame and so report no difference. */
  lemma SameRowsEmptyDiff(left: Frame, right: Frame)
    requires ColumnSet(left) == ColumnSet(right)
    requires multiset(Select(left, SortedNames(left)).rows) == multiset(Select(right, SortedNames(right)).rows)
    ensures RaiseDfDiff(left, right) ==
      if ColumnSet(left) == {} then Err(NoSortColumns) else Err(DifferencesFound(Table(SortedNames(left), [])))
  {
    if ColumnSet(left) != {} {
      DifferencesAreCellDiff(left, right);
      CanonicalBySelectedRows(left, right);
      CellDiffSelf(Canonical(left));
    }
  }

  /** Comparing a frame that has columns with itself reports no difference. */
  lemma SelfDiffEmpty(t: Frame)
    ensures RaiseDfDiff(t, t) ==
      if ColumnSet(t) == {} then Err(NoSortColumns) else Err(DifferencesFound(Table(SortedNames(t), [])))
  {
    SameRowsEmptyDiff(t, t);
  }

  /** Comparing a frame with a reordering of its rows and columns reports no difference. */
  lemma PermutedSelfDiffEmpty(t: Frame, u: Frame, order: seq<string>)
    requires u.columns == t.columns && multiset(u.rows) == multiset(t.rows)
    requires Distinct(order) && forall n :: n in order <==> n in t.columns
    ensures RaiseDfDiff(t, Select(u, order)) ==
      if ColumnSet(t) == {} then Err(NoSortColumns) else Err(DifferencesFound(Table(SortedNames(t), [])))
  {
    SelectAllColumns(t);
    ColumnPermutationInvariant(t, u, t.columns, order);
    RowPermutationInvariant(t, t, t, u);
    SelfDiffEmpty(t);
  }

  /** Without nulls and with equal row counts, no difference is reported
      exactly when the two frames hold the same multiset of rows. */
  lemma EmptyDiffExactlyWhenSameRows(left: Frame, right: Frame)
    requires ColumnSet(left) == ColumnSet(right)
    requires |left.rows| == |right.rows| && NoNulls(left) && NoNulls(right)
    ensures ColumnSet(left) != {} ==>
      (RaiseDfDiff(left, right).error.diff.rows == [] <==>
        multiset(Select(left, SortedNames(left)).rows) == multiset(Select(right, SortedNames(right)).rows))
  {
    if ColumnSet(left) == {} {
      return;
    }
    DifferencesAreCellDiff(left, right);
    var names := SortedNames(left);
    if multiset(Select(left, names).rows) == multiset(Select(right, names).rows) {
      SameRowsEmptyDiff(left, right);
    }
    var l, r := Canonical(left), Canonical(right);
    if CellDiff(l, r) == [] {
      CanonicalNoNulls(left);
      CanonicalNoNulls(right);
      EmptyCellDiffSameRows(l, r);
    }
  }

  // ----- assert_pl_frame_equal and main -----

  /** `assert_pl_frame_equal(actual, expected)`; `framesEqual` is the verdict of
      polars' `assert_frame_equal` with `check_row_order=False`. On failure
      `raise_df_diff` raises, so the print and the re-raise after it are never reached. */
  function AssertPlFrameEqual(actual: Frame, expected: Frame, framesEqual: bool): (r: Result<(), Error>)
    ensures r.Ok? <==> framesEqual
    ensures r.Err? ==> r.error == RaiseDfDiff(actual, expected).error
    ensures r.Err? ==> r.error.SchemaMismatch? || r.error.NoSortColumns? || r.error.DifferencesFound?
  {
    if framesEqual then Ok(())
    else Err(RaiseDfDiff(actual, expected).error)
  }

  /** Python truthiness of an optional string parameter: given and not empty. */
  predicate Provided(parameter: Option<string>) {
    parameter.Some? && parameter.value != ""
  }

  /** `main`: refuses to run unless the csv path, the query and the database
      are all given, then compares the csv frame with the query result.
      Reading the csv, running the query and polars' equality check are the
      parameters `readCsv`, `queryAthena` and `framesEqual`. */
  function Main(fromCsv: Option<string>, withDelimiter: string, fromQuery: Option<string>, database: Option<string>,
                readCsv: (string, string) -> Frame, queryAthena: (string, string) -> Frame,
                framesEqual: (Frame, Frame) -> bool): (r: Result<(), Error>)
    ensures r == Err(MissingParameters) <==> !(Provided(fromCsv) && Provided(fromQuery) && Provided(database))
    ensures r.Ok? <==>
      && Provided(fromCsv) && Provided(fromQuery) && Provided(database)
      && framesEqual(readCsv(fromCsv.value, withDelimiter), queryAthena(fromQuery.value, database.value))
    ensures r.Err? && r.error != MissingParameters ==>
      var csv, athena := readCsv(fromCsv.value, withDelimiter), queryAthena(fromQuery.value, database.value);
      r.error == RaiseDfDiff(csv, athena).error
  {
    if !(Provided(fromCsv) && Provided(fromQuery) && Provided(database)) then
      Err(MissingParameters)
    else
      var csv := readCsv(fromCsv.value, withDelimiter);
      var athena := queryAthena(fromQuery.value, database.value);
      AssertPlFrameEqual(csv, athena, framesEqual(csv, athena))
  }
}
