# compare-df-cli: a Dafny model of the data-frame diff

compare-df-cli is a small command-line tool. It reads a table from a CSV file and another from an
Athena query, checks with polars that the two are equal regardless of row order, and when they are
not, raises an exception that says what differs. This project models the logic that decides what
the exception says, `raise_df_diff`. It also models the two pieces of control flow around it:
`assert_pl_frame_equal` and the parameter guard of `main`. Properties of that logic are proved.

`raise_df_diff` (src/compare_df_cli/main.py:55-76) works in five steps:

1. **Schema check.** If the two column-name sets differ, it raises with the names found on only
   one side. When both frames have no columns, the row sort in step 2 is called without a column
   and raises a TypeError.
2. **Canonical form.** Otherwise it selects both frames' columns in sorted name order, then sorts
   their rows by all of those columns.
3. **Subtraction.** It converts both frames to pandas and subtracts them cell by cell, aligned on
   the row position.
4. **Filtering.** It blanks every zero difference and drops every row left without a value.
5. **Report.** It converts the result back to polars and raises "Differences found" with it. The
   function never returns.

## Modules

- `wrappers.dfy`, module `Wrappers`: `Option` and `Result`. A function that raises returns `Err`.
- `ordering.dfy`, module `Ordering`: total orders and their lexicographic extension. It also holds
  the insertion sort used as the reference for Python's `sorted` and polars' `DataFrame.sort`, and
  proves that a sorted permutation is unique. Any correct sort therefore gives the same result.
- `sequences.dfy`, module `Sequences`: mapping over sequences, permutations and duplicate-free
  sequences.
- `frames.dfy`, module `Frames`: the polars side.
  - A `Table` has distinct column names and rows of cells.
  - A cell is `Option<int>`, where `None` is a null.
  - A `Frame` is a well-formed `Table`.
  - It also models `select`, the sorted column list, the row sort, and the canonical form that
    step 2 builds.
- `pandas_diff.dfy`, module `PandasDiff`: the pandas side. It models `DataFrame.subtract` aligned
  on a RangeIndex, the `diff != 0` mask, `dropna(how="all")`, and `pl.from_pandas`, which does not
  keep the index.
- `compare_df.dfy`, module `CompareDf`: `raise_df_diff`, `assert_pl_frame_equal` and `main`. It
  also holds the properties proved about them.

Three consequences of the code are worth stating:

- **Null against a value.** Subtraction yields NaN there, so the cell is reported as a null. Its
  row is dropped when none of its other cells differ.
- **Row counts.** Rows that only the longer frame has subtract to NaN and are dropped. Nothing
  flags a row-count mismatch.
- **Numeric tolerance.** There is none: any non-zero difference is reported.

## Model

| member | source | states |
|---|---|---|
| CompareDf.RaiseDfDiff | src/compare_df_cli/main.py:55-76 | never returns normally; raises a schema mismatch exactly when the two column-name sets differ, and the mismatch carries L \ R and R \ L, which are disjoint and not both empty; raises the TypeError of a column-less `sort` exactly when both frames have no columns; otherwise raises the differences, a frame whose columns are the shared names in sorted order |
| CompareDf.DifferencesAreCellDiff | src/compare_df_cli/main.py:65-76 | when the column sets agree and are not empty, the reported frame is the cell diff of the two canonical frames, without its row positions |
| CompareDf.ReportedCellsDiffer | src/compare_df_cli/main.py:71-76 | whenever differences are raised, the reported frame is well formed, every value in it is non-zero, and every row in it holds at least one value |
| CompareDf.SchemaPrecedence | src/compare_df_cli/main.py:56-63 | when the column sets differ, the outcome depends on the two column sets alone; no selection, sort or subtraction affects it |
| CompareDf.AlignedColumnsAgree | src/compare_df_cli/main.py:65-66 | after alignment both frames have the same column sequence: the shared names, sorted and without repeats |
| CompareDf.OutcomeByCanonical | src/compare_df_cli/main.py:56-76 | inputs with the same column sets and the same canonical forms have the same outcome |
| CompareDf.RowPermutationInvariant | src/compare_df_cli/main.py:65-67 | permuting the rows of either input does not change the outcome |
| CompareDf.ColumnPermutationInvariant | src/compare_df_cli/main.py:65-66 | reordering the columns of either input does not change the outcome |
| CompareDf.SameRowsEmptyDiff | src/compare_df_cli/main.py:65-72 | two frames with the same columns and the same multiset of rows report an empty set of differences; with no columns at all, the column-less `sort` raises instead |
| CompareDf.SelfDiffEmpty | src/compare_df_cli/main.py:65-72 | a frame compared with itself reports an empty set of differences; with no columns at all, the column-less `sort` raises instead |
| Frames.SelectAllColumns | src/compare_df_cli/main.py:66 | selecting all of a frame's columns in their own order gives the frame back |
| CompareDf.PermutedSelfDiffEmpty | src/compare_df_cli/main.py:65-72 | a frame compared with a reordering of its rows and its columns reports an empty set of differences; with no columns at all, the column-less `sort` raises instead |
| CompareDf.EmptyDiffExactlyWhenSameRows | src/compare_df_cli/main.py:65-72 | for frames with columns, without nulls and with equal row counts, the difference set is empty if and only if the two frames hold the same multiset of rows |
| CompareDf.AssertPlFrameEqual | src/compare_df_cli/main.py:38-52 | returns normally exactly when the equality check passes; otherwise it raises what `raise_df_diff` raises, so the print and the re-raise are never reached |
| CompareDf.Main | src/compare_df_cli/main.py:119-131 | raises the missing-parameters error exactly when the csv path, the query or the database is absent or empty; otherwise it returns normally exactly when the two frames read are equal, and raises what `raise_df_diff` raises when they are not |
| Frames.NameLeTotalOrder | src/compare_df_cli/main.py:65 | Python's string order, lexicographic by code point, is a total order |
| Frames.RowLeTotalOrder | src/compare_df_cli/main.py:67 | the row order of `sort` over all columns, with nulls first, is a total order |
| Frames.Select | src/compare_df_cli/main.py:66 | the selected frame has exactly the requested columns and the same number of rows, and each of its cells is the input's cell under the same column name |
| Frames.SortedNames | src/compare_df_cli/main.py:65 | the sorted column list is sorted, has no repeats, and holds exactly the frame's column names |
| Frames.SortedNamesBySet | src/compare_df_cli/main.py:56-65 | the sorted column list depends only on the set of column names |
| Frames.SortRows | src/compare_df_cli/main.py:67 | the sorted rows are in ascending row order and are a permutation of the input rows |
| Frames.Canonical | src/compare_df_cli/main.py:65-67 | the canonical frame has the sorted column list, is sorted by rows, and its rows are a permutation of the selected input rows |
| Frames.CanonicalBySelectedRows | src/compare_df_cli/main.py:65-67 | frames whose selected rows form the same multiset have the same canonical form |
| Frames.CanonicalRowPermutation | src/compare_df_cli/main.py:67 | permuting a frame's rows leaves its canonical form unchanged |
| Frames.SelectAfterReorder | src/compare_df_cli/main.py:66 | selecting columns after a reordering of all columns equals selecting them directly |
| Frames.CanonicalColumnPermutation | src/compare_df_cli/main.py:65-66 | reordering a frame's columns leaves its canonical form unchanged |
| Frames.CanonicalNoNulls | src/compare_df_cli/main.py:65-67 | canonicalising a frame without nulls gives a frame without nulls |
| Ordering.LexLeTotalOrder | src/compare_df_cli/main.py:65-67 | the lexicographic extension of a total order is a total order |
| Ordering.Sort | src/compare_df_cli/main.py:65-67 | the reference sort returns a permutation of its input |
| Ordering.SortSorted | src/compare_df_cli/main.py:65-67 | under a total order, the reference sort returns a sorted sequence |
| Ordering.SortedUnique | src/compare_df_cli/main.py:65-67 | under a total order, two sorted permutations of one another are equal, so every correct sort agrees with the reference |
| Ordering.SortDeterminedByMultiset | src/compare_df_cli/main.py:65-67 | the sorted result depends only on the multiset of the input |
| PandasDiff.Subtract | src/compare_df_cli/main.py:71 | one row per position of the longer frame; a cell holds a value exactly when both frames have a value there, and then it holds left minus right |
| PandasDiff.MaskZeros | src/compare_df_cli/main.py:72 | a cell keeps its value exactly when it holds a non-zero value; nothing else changes |
| PandasDiff.DropAllMissing | src/compare_df_cli/main.py:72 | keeps exactly the rows that hold a value, in their original order and with their positions |
| PandasDiff.MaskedDiff | src/compare_df_cli/main.py:71-72 | after the mask, a cell holds a value exactly when both frames hold values there that differ, and then it holds their difference |
| PandasDiff.CellDiff | src/compare_df_cli/main.py:71-72 | every reported row holds a value, and the reported rows keep their ascending positions |
| PandasDiff.CellDiffSound | src/compare_df_cli/main.py:71-72 | a reported row is at a position both frames have; a reported cell holds a value exactly when both frames hold values there that differ, and then it holds their difference |
| PandasDiff.CellDiffComplete | src/compare_df_cli/main.py:71-72 | every position with a differing cell is reported; when no cell differs nothing is reported |
| PandasDiff.CellDiffNonZero | src/compare_df_cli/main.py:72 | every reported value is non-zero |
| PandasDiff.CellDiffSelf | src/compare_df_cli/main.py:71-72 | a frame compared with itself reports nothing |
| PandasDiff.EmptyCellDiffSameRows | src/compare_df_cli/main.py:71-72 | without nulls and with equal row counts, reporting nothing means the rows are equal position by position |
| PandasDiff.MatchingRowsNotReported | src/compare_df_cli/main.py:71-72 | a position where the two rows are equal, or that only the longer frame has, is never reported |
| PandasDiff.FromPandas | src/compare_df_cli/main.py:74 | the converted frame keeps the columns and the rows in order, without the index |
| PandasDiff.ReportedFrameDiffers | src/compare_df_cli/main.py:72-74 | the converted diff is a well-formed frame whose every row holds a value and whose every value is non-zero |

## Left out

- `read_csv_as_df` and `query_athena` (src/compare_df_cli/main.py:28-35) read files and query AWS Athena. They are the parameters `readCsv` and `queryAthena` of `CompareDf.Main`. These are total functions, so their failures are not modelled: a missing file, a parse error, a failed query.
- polars' `assert_frame_equal` (src/compare_df_cli/main.py:42-44) is a foreign library. Its verdict is the boolean `framesEqual`.
- The Typer option definitions, `version_callback` and `app()` are left out: they are command-line plumbing.
- Logging and the printed or formatted exception text are left out: they are output only. The errors carry the column sets and the diff frame instead.
- Floating-point cells and NaN are not modelled: cells are integers or null. Subtraction on string columns, which pandas refuses, is not modelled either.
- setup.py holds packaging metadata only. It is not part of this model.
- CompareDf.RaiseDfDiff: the message does not print the column sets in Python's set syntax or the diff in polars' table layout. It carries them as values. `str(result)` (src/compare_df_cli/main.py:76) shows polars' display form, which leaves out rows and columns past its display limits, so for a large diff the real message does not list every differing cell that the carried frame holds.
- Ordering.Sort: polars' sort algorithm and its stability are not modelled. Insertion sort stands in for it. Rows that compare equal are identical, and a sorted permutation is unique, so the result is the same.
- CompareDf.Main: the keyword arguments `check_column_order=False` and `check_row_order=False` are folded into the opaque verdict `framesEqual`.
- PandasDiff.Subtract: cells are unbounded integers. pandas subtracts int64 columns with 64-bit wrap-around, so (-2^63) - 1 gives 2^63 - 1 there and -2^63 - 1 here.
- PandasDiff.CellDiffComplete: an integer column with a null, or one that alignment pads with NaN when the row counts differ, becomes float64 in `to_pandas` and `subtract`. Above 2^53, two different values can then subtract to 0.0 and be masked, so the program can miss a difference this lemma says is reported.
- Frames.Select: column names are taken literally. polars reads a name given to `select` or `sort` (src/compare_df_cli/main.py:66-67) through `pl.col`, where `*` is a wildcard for all columns and a name that starts with `^` and ends with `$` is a regular expression. Frames with such column names can make polars raise a duplicate-column error or select other columns, which the model does not capture; the same holds for Frames.SortRows.
