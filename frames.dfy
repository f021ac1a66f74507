/** The polars side of the comparison: a data frame as named columns over
    rows of cells, column selection (`DataFrame.select`), the sorted column
    list and the row sort (`DataFrame.sort`) that put a frame in canonical
    form (src/compare_df_cli/main.py:65-67). */
module Frames {
  import opened Wrappers
  import opened Ordering
  import opened Sequences

  /** A numeric cell; `None` is a null. */
  type Cell = Option<int>
  type Row = seq<Cell>

  /** A frame in row form: `rows[i][k]` is the cell of row `i` in column `columns[k]`. */
  datatype Table = Table(columns: seq<string>, rows: seq<Row>) {
    /** Column names are unique and every row has one cell per column. */
    predicate Valid() {
      Distinct(columns) && forall row :: row in rows ==> |row| == |columns|
    }
  }

  /** A well-formed polars data frame. */
  type Frame = t: Table | t.Valid() witness Table([], [])

  function ColumnSet(t: Table): set<string> {
    set c | c in t.columns
  }

  function IndexOf(s: seq<string>, x: string): (i: nat)
    requires x in s
    ensures i < |s| && s[i] == x
  {
    if s[0] == x then 0 else 1 + IndexOf(s[1..], x)
  }

  // ----- Orders: Python string comparison and the polars row order -----

  predicate CharLe(a: char, b: char) {
    a <= b
  }

  /** Python's `<=` on `str`: lexicographic by code point. */
  predicate NameLe(a: string, b: string) {
    LexLe(CharLe, a, b)
  }

  /** polars' ascending order on one column with `nulls_last=False`: nulls come first. */
  predicate CellLe(a: Cell, b: Cell) {
    a.None? || (b.Some? && a.value <= b.value)
  }

  /** `DataFrame.sort(*columns)`: lexicographic over the cells, first column first. */
  predicate RowLe(a: Row, b: Row) {
    LexLe(CellLe, a, b)
  }

  lemma NameLeTotalOrder()
    ensures TotalOrder(NameLe)
  {
    LexLeTotalOrder(CharLe, NameLe);
  }

  lemma RowLeTotalOrder()
    ensures TotalOrder(RowLe)
  {
    LexLeTotalOrder(CellLe, RowLe);
  }

  // ----- Column selection -----

  /** The cells of `row` (laid out as `columns`) in the order given by `names`.
      Every name is present wherever this is used; a cell that is not there reads as null. */
  function SelectRow(row: Row, columns: seq<string>, names: seq<string>): (r: Row)
    ensures |r| == |names|
    ensures Distinct(columns) && |row| == |columns| ==>
      forall k, j :: 0 <= k < |names| && 0 <= j < |columns| && columns[j] == names[k] ==> r[k] == row[j]
  {
    seq(|names|, k requires 0 <= k < |names| =>
      if names[k] in columns && IndexOf(columns, names[k]) < |row| then row[IndexOf(columns, names[k])] else None)
  }

  /** `DataFrame.select(*names)`: the frame restricted to, and reordered by, `names`. */
  function Select(t: Frame, names: seq<string>): (s: Frame)
    requires Distinct(names) && forall n :: n in names ==> n in t.columns
    ensures s.columns == names && |s.rows| == |t.rows|
    ensures forall i, k, j :: 0 <= i < |t.rows| && 0 <= k < |names| && 0 <= j < |t.columns| && t.columns[j] == names[k] ==>
      s.rows[i][k] == t.rows[i][j]
  {
    var rows := seq(|t.rows|, i requires 0 <= i < |t.rows| => SelectRow(t.rows[i], t.columns, names));
    assert forall row :: row in rows ==> |row| == |names|;
    Table(names, rows)
  }

  /** Selection maps `SelectRow` over the rows. */
  lemma SelectIsMap(t: Frame, names: seq<string>, f: Row -> Row)
    requires Distinct(names) && forall n :: n in names ==> n in t.columns
    requires forall row :: f(row) == SelectRow(row, t.columns, names)
    ensures Select(t, names).rows == Map(f, t.rows)
  {
  }

  // ----- Canonical form -----

  /** `sorted(set(t.columns))`: the column names in ascending order. */
  function SortedNames(t: Frame): (names: seq<string>)
    ensures Sorted(names, NameLe)
    ensures Distinct(names)
    ensures forall n :: n in names <==> n in t.columns
  {
    var names := Sort(t.columns, NameLe);
    NameLeTotalOrder();
    SortSorted(t.columns, NameLe);
    assert forall n :: n in names <==> n in t.columns by {
      forall n ensures n in names <==> n in t.columns {
        assert n in names <==> n in multiset(names);
      }
    }
    PermutationDistinct(t.columns, names);
    names
  }

  /** The sorted column list depends only on the set of column names. */
  lemma SortedNamesBySet(a: Frame, b: Frame)
    requires ColumnSet(a) == ColumnSet(b)
    ensures SortedNames(a) == SortedNames(b)
  {
    assert forall x :: x in a.columns <==> x in ColumnSet(a);
    assert forall x :: x in b.columns <==> x in ColumnSet(b);
    SameSetSameMultiset(a.columns, b.columns);
    NameLeTotalOrder();
    SortDeterminedByMultiset(a.columns, b.columns, NameLe);
  }

  /** `DataFrame.sort(*t.columns)`: rows in ascending `RowLe` order. */
  function SortRows(t: Frame): (s: Frame)
    ensures s.columns == t.columns
    ensures Sorted(s.rows, RowLe)
    ensures multiset(s.rows) == multiset(t.rows)
  {
    var rows := Sort(t.rows, RowLe);
    RowLeTotalOrder();
    SortSorted(t.rows, RowLe);
    assert forall row :: row in rows ==> |row| == |t.columns| by {
      forall row | row in rows ensures |row| == |t.columns| {
        assert row in multiset(rows);
      }
    }
    Table(t.columns, rows)
  }

  /** Lines 65-67: select the columns in sorted name order, then sort the rows by all of them. */
  function Canonical(t: Frame): (c: Frame)
    ensures c.columns == SortedNames(t)
    ensures |c.rows| == |t.rows|
    ensures Sorted(c.rows, RowLe)
    ensures multiset(c.rows) == multiset(Select(t, SortedNames(t)).rows)
  {
    var names := SortedNames(t);
    var c := SortRows(Select(t, names));
    assert |c.rows| == |multiset(c.rows)|;
    c
  }

  /** Two frames with the same column set whose selected rows are the same
      multiset have the same canonical form. */
  lemma CanonicalBySelectedRows(t: Frame, u: Frame)
    requires SortedNames(t) == SortedNames(u)
    requires multiset(Select(t, SortedNames(t)).rows) == multiset(Select(u, SortedNames(u)).rows)
    ensures Canonical(t) == Canonical(u)
  {
    var names := SortedNames(t);
    RowLeTotalOrder();
    SortDeterminedByMultiset(Select(t, names).rows, Select(u, names).rows, RowLe);
  }

  /** Permuting a frame's rows does not change its canonical form. */
  lemma CanonicalRowPermutation(t: Frame, u: Frame)
    requires u.columns == t.columns
    requires multiset(u.rows) == multiset(t.rows)
    ensures Canonical(u) == Canonical(t)
  {
    var names := SortedNames(t);
    var f := (row: Row) => SelectRow(row, t.columns, names);
    SelectIsMap(t, names, f);
    SelectIsMap(u, names, f);
    MapPermutation(f, t.rows, u.rows);
    RowLeTotalOrder();
    SortDeterminedByMultiset(Select(t, names).rows, Select(u, names).rows, RowLe);
  }

  /** Selecting `names` after reordering the columns by `order` is selecting `names` directly. */
  lemma SelectAfterReorder(t: Frame, order: seq<string>, names: seq<string>)
    requires Distinct(order) && forall n :: n in order <==> n in t.columns
    requires Distinct(names) && forall n :: n in names ==> n in t.columns
    ensures Select(Select(t, order), names) == Select(t, names)
  {
    var u := Select(t, order);
    var viaOrder, direct := Select(u, names), Select(t, names);
    forall i | 0 <= i < |t.rows| ensures viaOrder.rows[i] == direct.rows[i] {
      forall k | 0 <= k < |names| ensures viaOrder.rows[i][k] == direct.rows[i][k] {
        var p := IndexOf(order, names[k]);
        var j := IndexOf(t.columns, names[k]);
        assert viaOrder.rows[i][k] == u.rows[i][p];
        assert u.rows[i][p] == t.rows[i][j];
      }
    }
    assert viaOrder.rows == direct.rows;
  }

  /** Selecting all columns in their own order gives the frame back. */
  lemma SelectAllColumns(t: Frame)
    ensures Select(t, t.columns) == t
  {
    var s := Select(t, t.columns);
    forall i | 0 <= i < |t.rows| ensures s.rows[i] == t.rows[i] {
      assert t.rows[i] in t.rows;
    }
  }

  /** Reordering a frame's columns (selecting all of them in another order)
      does not change its canonical form. */
  lemma CanonicalColumnPermutation(t: Frame, order: seq<string>)
    requires Distinct(order)
    requires forall n :: n in order <==> n in t.columns
    ensures Canonical(Select(t, order)) == Canonical(t)
  {
    var u := Select(t, order);
    assert ColumnSet(u) == ColumnSet(t);
    SortedNamesBySet(u, t);
    SelectAfterReorder(t, order, SortedNames(t));
  }

  /** No cell of `t` is null. */
  predicate NoNulls(t: Table) {
    forall i, k :: 0 <= i < |t.rows| && 0 <= k < |t.rows[i]| ==> t.rows[i][k].Some?
  }

  /** Canonicalising introduces no null. */
  lemma CanonicalNoNulls(t: Frame)
    requires NoNulls(t)
    ensures NoNulls(Canonical(t))
  {
    var names := SortedNames(t);
    var s := Select(t, names);
    forall i, k | 0 <= i < |s.rows| && 0 <= k < |s.rows[i]| ensures s.rows[i][k].Some? {
      var j := IndexOf(t.columns, names[k]);
      assert t.rows[i] in t.rows;
      assert s.rows[i][k] == t.rows[i][j];
    }
    var c := Canonical(t);
    forall i, k | 0 <= i < |c.rows| && 0 <= k < |c.rows[i]| ensures c.rows[i][k].Some? {
      assert c.rows[i] in multiset(s.rows);
      var i' :| 0 <= i' < |s.rows| && s.rows[i'] == c.rows[i];
    }
  }
}
