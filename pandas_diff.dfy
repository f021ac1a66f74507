/** The pandas side of the comparison (src/compare_df_cli/main.py:69-74):
    `DataFrame.subtract` aligned on the row position, the `diff[diff != 0]`
    mask, `dropna(how="all")`, and the conversion back to polars. */
module PandasDiff {
  import opened Wrappers
  import opened Sequences
  import opened Frames

  /** A row of a pandas frame with its index label, which is its row position. */
  datatype IndexedRow = IndexedRow(index: nat, cells: Row)

  function Max(a: nat, b: nat): nat {
    if a < b then b else a
  }

  /** The cell at row `i`, column `k`, or NaN where `rows` has no such row. */
  function CellAt(rows: seq<Row>, i: nat, k: nat): Cell {
    if i < |rows| && k < |rows[i]| then rows[i][k] else None
  }

  /** Subtraction with NaN propagation. */
  function SubtractCell(a: Cell, b: Cell): Cell {
    if a.Some? && b.Some? then Some(a.value - b.value) else None
  }

  /** `pd.DataFrame.subtract(left, right)` for frames with the same columns:
      the two RangeIndexes are aligned, so the result has one row per position
      of the longer frame, and a position the shorter frame lacks is NaN. */
  function Subtract(left: Frame, right: Frame): (d: seq<Row>)
    requires left.columns == right.columns
    ensures |d| == Max(|left.rows|, |right.rows|)
    ensures forall i :: 0 <= i < |d| ==> |d[i]| == |left.columns|
    ensures forall i, k :: 0 <= i < |d| && 0 <= k < |left.columns| ==>
      (d[i][k].Some? <==> i < |left.rows| && i < |right.rows| && left.rows[i][k].Some? && right.rows[i][k].Some?)
    ensures forall i, k :: 0 <= i < |d| && 0 <= k < |left.columns| && d[i][k].Some? ==>
      d[i][k].value == left.rows[i][k].value - right.rows[i][k].value
  {
    var width := |left.columns|;
    assert forall i :: 0 <= i < |left.rows| ==> left.rows[i] in left.rows;
    assert forall i :: 0 <= i < |right.rows| ==> right.rows[i] in right.rows;
    seq(Max(|left.rows|, |right.rows|), (i: nat) =>
      seq(width, (k: nat) => SubtractCell(CellAt(left.rows, i, k), CellAt(right.rows, i, k))))
  }

  /** `diff[diff != 0]`: a zero difference becomes NaN; NaN stays NaN (NaN != 0 holds). */
  function MaskZeros(d: seq<Row>): (m: seq<Row>)
    ensures |m| == |d|
    ensures forall i :: 0 <= i < |d| ==> |m[i]| == |d[i]|
    ensures forall i, k :: 0 <= i < |d| && 0 <= k < |d[i]| ==>
      (m[i][k].Some? <==> d[i][k].Some? && d[i][k].value != 0) && (m[i][k].Some? ==> m[i][k] == d[i][k])
  {
    seq(|d|, i requires 0 <= i < |d| => seq(|d[i]|, k requires 0 <= k < |d[i]| =>
      if d[i][k] == Some(0) then None else d[i][k]))
  }

  predicate AllMissing(row: Row) {
    forall k :: 0 <= k < |row| ==> row[k].None?
  }

  /** `dropna(how="all")` over the rows at positions `from` and after. */
  function DropAllMissingFrom(m: seq<Row>, from: nat): (out: seq<IndexedRow>)
    requires from <= |m|
    ensures forall j :: 0 <= j < |out| ==>
      from <= out[j].index < |m| && out[j].cells == m[out[j].index] && !AllMissing(out[j].cells)
    ensures forall j1, j2 :: 0 <= j1 < j2 < |out| ==> out[j1].index < out[j2].index
    ensures (forall i :: from <= i < |m| ==> AllMissing(m[i])) ==> out == []
    decreases |m| - from
  {
    if from == |m| then []
    else if AllMissing(m[from]) then DropAllMissingFrom(m, from + 1)
    else [IndexedRow(from, m[from])] + DropAllMissingFrom(m, from + 1)
  }

  /** Every row with at least one value is kept. */
  lemma {:induction false} DropAllMissingFromKeeps(m: seq<Row>, from: nat, i: nat)
    requires from <= i < |m| && !AllMissing(m[i])
    ensures exists j :: 0 <= j < |DropAllMissingFrom(m, from)| && DropAllMissingFrom(m, from)[j].index == i
    decreases |m| - from
  {
    var out := DropAllMissingFrom(m, from);
    if i == from {
      assert out[0].index == i;
    } else {
      DropAllMissingFromKeeps(m, from + 1, i);
      var rest := DropAllMissingFrom(m, from + 1);
      var j :| 0 <= j < |rest| && rest[j].index == i;
      if AllMissing(m[from]) {
        assert out[j].index == i;
      } else {
        assert out[j + 1].index == i;
      }
    }
  }

  /** `dropna(how="all")`: the rows with at least one value, in order, with their positions. */
  function DropAllMissing(m: seq<Row>): (out: seq<IndexedRow>)
    ensures forall j :: 0 <= j < |out| ==>
      out[j].index < |m| && out[j].cells == m[out[j].index] && !AllMissing(out[j].cells)
    ensures forall j1, j2 :: 0 <= j1 < j2 < |out| ==> out[j1].index < out[j2].index
    ensures forall i :: 0 <= i < |m| && !AllMissing(m[i]) ==> exists j :: 0 <= j < |out| && out[j].index == i
    ensures (forall i :: 0 <= i < |m| ==> AllMissing(m[i])) ==> out == []
  {
    forall i | 0 <= i < |m| && !AllMissing(m[i])
      ensures exists j :: 0 <= j < |DropAllMissingFrom(m, 0)| && DropAllMissingFrom(m, 0)[j].index == i
    {
      DropAllMissingFromKeeps(m, 0, i);
    }
    DropAllMissingFrom(m, 0)
  }

  /** Row `i`, column `k` of two aligned frames holds two values that differ. */
  predicate CellsDiffer(l: Frame, r: Frame, i: nat, k: nat) {
    && i < |l.rows| && i < |r.rows| && k < |l.columns| && k < |r.columns|
    && l.rows[i][k].Some? && r.rows[i][k].Some? && l.rows[i][k].value != r.rows[i][k].value
  }

  /** `diff[diff != 0]` after `subtract` (line 71 and the mask of line 72):
      a cell holds a value exactly where both frames hold values that differ,
      and then it holds their difference. */
  function MaskedDiff(l: Frame, r: Frame): (m: seq<Row>)
    requires l.columns == r.columns
    ensures |m| == Max(|l.rows|, |r.rows|)
    ensures forall i :: 0 <= i < |m| ==> |m[i]| == |l.columns|
    ensures forall i: nat, k: nat :: i < |m| && k < |m[i]| ==>
      (m[i][k].Some? <==> CellsDiffer(l, r, i, k)) &&
      (m[i][k].Some? ==> m[i][k] == SubtractCell(CellAt(l.rows, i, k), CellAt(r.rows, i, k)))
  {
    MaskZeros(Subtract(l, r))
  }

  /** Lines 71-72 on two frames with the same columns: subtract, mask the
      zeros, drop the rows left without a value. `CellDiffSound` and
      `CellDiffComplete` say which cells and rows are reported. */
  function CellDiff(l: Frame, r: Frame): (d: seq<IndexedRow>)
    requires l.columns == r.columns
    ensures forall j :: 0 <= j < |d| ==> !AllMissing(d[j].cells)
    ensures forall j1, j2 :: 0 <= j1 < j2 < |d| ==> d[j1].index < d[j2].index
  {
    DropAllMissing(MaskedDiff(l, r))
  }

  /** A reported cell is a position where both frames hold values that differ,
      and it holds their difference; only positions both frames have are reported. */
  lemma CellDiffSound(l: Frame, r: Frame)
    requires l.columns == r.columns
    ensures var d := CellDiff(l, r);
      forall j :: 0 <= j < |d| ==> d[j].index < |l.rows| && d[j].index < |r.rows| && |d[j].cells| == |l.columns|
    ensures var d := CellDiff(l, r);
      forall j, k :: 0 <= j < |d| && 0 <= k < |d[j].cells| ==> (d[j].cells[k].Some? <==> CellsDiffer(l, r, d[j].index, k))
    ensures var d := CellDiff(l, r);
      forall j, k :: 0 <= j < |d| && 0 <= k < |d[j].cells| && d[j].cells[k].Some? ==>
        d[j].cells[k] == SubtractCell(CellAt(l.rows, d[j].index, k), CellAt(r.rows, d[j].index, k))
  {
    var m: seq<Row> := MaskedDiff(l, r);
    var d := CellDiff(l, r);
    forall j | 0 <= j < |d| ensures d[j].index < |l.rows| && d[j].index < |r.rows| && |d[j].cells| == |l.columns| {
      assert d[j].cells == m[d[j].index];
      var k :| 0 <= k < |d[j].cells| && d[j].cells[k].Some?;
      assert CellsDiffer(l, r, d[j].index, k);
    }
    forall j, k | 0 <= j < |d| && 0 <= k < |d[j].cells|
      ensures && (d[j].cells[k].Some? <==> CellsDiffer(l, r, d[j].index, k))
              && (d[j].cells[k].Some? ==> d[j].cells[k] == SubtractCell(CellAt(l.rows, d[j].index, k), CellAt(r.rows, d[j].index, k)))
    {
      assert d[j].cells == m[d[j].index];
    }
  }

  /** Every row position with a differing cell is reported, so when no cell
      differs nothing is reported. */
  lemma CellDiffComplete(l: Frame, r: Frame)
    requires l.columns == r.columns
    ensures var d := CellDiff(l, r);
      && (forall i: nat, k: nat :: CellsDiffer(l, r, i, k) ==> exists j :: 0 <= j < |d| && d[j].index == i)
      && ((forall i: nat, k: nat :: !CellsDiffer(l, r, i, k)) ==> d == [])
  {
    var m: seq<Row> := MaskedDiff(l, r);
    var d := CellDiff(l, r);
    forall i: nat, k: nat | CellsDiffer(l, r, i, k) ensures exists j :: 0 <= j < |d| && d[j].index == i {
      assert i < |m| && k < |m[i]|;
      assert m[i][k].Some?;
      assert !AllMissing(m[i]);
    }
  }

  /** A frame compared with itself reports nothing. */
  lemma CellDiffSelf(t: Frame)
    ensures CellDiff(t, t) == []
  {
    CellDiffComplete(t, t);
  }

  /** Two frames with the same columns, the same number of rows and no nulls
      report nothing only when they hold the same rows in the same order. */
  lemma EmptyCellDiffSameRows(l: Frame, r: Frame)
    requires l.columns == r.columns && |l.rows| == |r.rows|
    requires NoNulls(l) && NoNulls(r)
    requires CellDiff(l, r) == []
    ensures l.rows == r.rows
  {
    CellDiffComplete(l, r);
    forall i | 0 <= i < |l.rows| ensures l.rows[i] == r.rows[i] {
      assert l.rows[i] in l.rows && r.rows[i] in r.rows;
      forall k | 0 <= k < |l.columns| ensures l.rows[i][k] == r.rows[i][k] {
        assert !CellsDiffer(l, r, i, k);
      }
    }
  }

  /** A row position where the two frames agree, or that only the longer frame
      has, is not reported. */
  lemma MatchingRowsNotReported(l: Frame, r: Frame, i: nat)
    requires l.columns == r.columns
    requires i >= |l.rows| || i >= |r.rows| || l.rows[i] == r.rows[i]
    ensures forall j :: 0 <= j < |CellDiff(l, r)| ==> CellDiff(l, r)[j].index != i
  {
    CellDiffSound(l, r);
    var d := CellDiff(l, r);
    forall j | 0 <= j < |d| ensures d[j].index != i {
      var k :| 0 <= k < |d[j].cells| && d[j].cells[k].Some?;
      assert CellsDiffer(l, r, d[j].index, k);
    }
  }

  /** `pl.from_pandas(diff)`: the index is not carried over (`include_index=False`). */
  function FromPandas(columns: seq<string>, out: seq<IndexedRow>): (t: Table)
    ensures t.columns == columns && |t.rows| == |out|
    ensures forall j :: 0 <= j < |out| ==> t.rows[j] == out[j].cells
  {
    Table(columns, Map((r: IndexedRow) => r.cells, out))
  }

  /** Every reported value is a non-zero difference. */
  lemma CellDiffNonZero(l: Frame, r: Frame)
    requires l.columns == r.columns
    ensures var d := CellDiff(l, r);
      forall j, k :: 0 <= j < |d| && 0 <= k < |d[j].cells| && d[j].cells[k].Some? ==> d[j].cells[k].value != 0
  {
    CellDiffSound(l, r);
  }

  /** The frame `pl.from_pandas` builds from the diff is well formed, its every
      value is a non-zero difference and its every row has a value. */
  lemma ReportedFrameDiffers(l: Frame, r: Frame)
    requires l.columns == r.columns
    ensures var t := FromPandas(l.columns, CellDiff(l, r));
      && t.Valid()
      && (forall j :: 0 <= j < |t.rows| ==> !AllMissing(t.rows[j]))
      && (forall j, k :: 0 <= j < |t.rows| && 0 <= k < |t.rows[j]| && t.rows[j][k].Some? ==> t.rows[j][k].value != 0)
  {
    CellDiffSound(l, r);
    CellDiffNonZero(l, r);
    var d := CellDiff(l, r);
    var t := FromPandas(l.columns, d);
    forall row | row in t.rows ensures |row| == |t.columns| {
      var j :| 0 <= j < |t.rows| && t.rows[j] == row;
    }
  }
}
