/**
 * Missing-value detection: the table of missing counts and percentages per
 * column (restricted to the columns that have a missing cell), and the
 * preview of the first rows in which a chosen column is missing.
 */
module Missingness {
  import opened Table

  /** One line of the missing-value table. */
  datatype Entry = Entry(name: string, missing: nat, percent: real)

  /** `count / rows * 100`, unrounded; an empty table has no missing cells to report. */
  function Percent(count: nat, rows: nat): real
  {
    if rows == 0 then 0.0 else (count as real) * 100.0 / (rows as real)
  }

  /** A missing count of 1..rows is a percentage in (0, 100], and it scales back to the count. */
  lemma PercentBounds(count: nat, rows: nat)
    requires 0 < count <= rows
    ensures 0.0 < Percent(count, rows) <= 100.0
    ensures Percent(count, rows) * (rows as real) == (count as real) * 100.0
  {
    var p := Percent(count, rows);
    assert p * (rows as real) == (count as real) * 100.0;
    assert (count as real) * 100.0 <= (rows as real) * 100.0;
  }

  function EntryFor(col: Column, rows: nat): Entry
  {
    var n := MissingCount(col.cells);
    Entry(col.name, n, Percent(n, rows))
  }

  /**
   * `isna().sum()`, the percentage, and the filter `> 0`: one entry per
   * column that has a missing cell, in column order.
   */
  function Report(cols: seq<Column>, rows: nat): (r: seq<Entry>)
    ensures |r| <= |cols|
    ensures forall e :: e in r <==>
      exists j :: 0 <= j < |cols| && MissingCount(cols[j].cells) > 0 && e == EntryFor(cols[j], rows)
  {
    if cols == [] then []
    else
      var n := |cols| - 1;
      var init := Report(cols[..n], rows);
      assert forall j :: 0 <= j < n ==> cols[..n][j] == cols[j];
      init + (if MissingCount(cols[n].cells) > 0 then [EntryFor(cols[n], rows)] else [])
  }

  /** Names are unique, so the report entry carrying a column's name is that column's entry. */
  lemma ReportEntryOf(cols: seq<Column>, rows: nat, j: nat, e: Entry)
    requires WellFormed(cols, rows) && j < |cols|
    requires e in Report(cols, rows) && e.name == cols[j].name
    ensures e == EntryFor(cols[j], rows) && e.missing > 0
  {
    var k :| 0 <= k < |cols| && MissingCount(cols[k].cells) > 0 && e == EntryFor(cols[k], rows);
    assert cols[k].name == cols[j].name;
  }

  /**
   * A column is in the report exactly when one of its cells is missing,
   * and its entry carries its own missing count and a percentage in (0, 100].
   */
  lemma ReportByColumn(cols: seq<Column>, rows: nat, j: nat)
    requires WellFormed(cols, rows) && j < |cols|
    ensures (exists e :: e in Report(cols, rows) && e.name == cols[j].name) <==> MissingCount(cols[j].cells) > 0
    ensures forall e :: e in Report(cols, rows) && e.name == cols[j].name ==>
      && e.missing == MissingCount(cols[j].cells)
      && e.percent == Percent(e.missing, rows)
      && 0.0 < e.percent <= 100.0
  {
    var r := Report(cols, rows);
    var n := MissingCount(cols[j].cells);
    if n > 0 {
      assert EntryFor(cols[j], rows) in r;
      PercentBounds(n, rows);
    }
    forall e | e in r && e.name == cols[j].name
      ensures e == EntryFor(cols[j], rows) && n > 0
    {
      ReportEntryOf(cols, rows, j, e);
    }
  }

  /** The sum of the reported missing counts. */
  function TotalMissing(r: seq<Entry>): nat
  {
    if r == [] then 0 else TotalMissing(r[..|r| - 1]) + r[|r| - 1].missing
  }

  lemma CellsOneMore(n: nat, rows: nat)
    ensures (n + 1) * rows == n * rows + rows
  {
  }

  /** The reported missing cells never outnumber the cells of the table. */
  lemma {:induction false} ReportTotalBound(cols: seq<Column>, rows: nat)
    requires WellFormed(cols, rows)
    ensures TotalMissing(Report(cols, rows)) <= |cols| * rows
  {
    if cols != [] {
      var n := |cols| - 1;
      assert WellFormed(cols[..n], rows);
      ReportTotalBound(cols[..n], rows);
      var init := Report(cols[..n], rows);
      var r := Report(cols, rows);
      if MissingCount(cols[n].cells) > 0 {
        assert r[..|r| - 1] == init;
      } else {
        assert r == init;
      }
      CellsOneMore(n, rows);
    }
  }

  /** How many rows the preview shows at most (`head(100)`). */
  const PreviewLimit: nat := 100

  /** A row of the table: its original row number and one cell per column. */
  datatype RowView = RowView(index: nat, cells: seq<Cell>)

  function RowAt(cols: seq<Column>, i: nat): (row: seq<Cell>)
    requires forall j :: 0 <= j < |cols| ==> i < |cols[j].cells|
    ensures |row| == |cols|
  {
    seq(|cols|, j requires 0 <= j < |cols| => cols[j].cells[i])
  }

  /**
   * `df[df[col].isna()].head(limit)`: the first `limit` rows whose cell in
   * column `c` is missing, in their original order.
   */
  function Preview(cols: seq<Column>, rows: nat, c: nat, limit: nat): (r: seq<RowView>)
    requires WellFormed(cols, rows) && c < |cols|
    ensures |r| == if MissingCount(cols[c].cells) < limit then MissingCount(cols[c].cells) else limit
    ensures forall k :: 0 <= k < |r| ==>
      r[k].index < rows && r[k].cells == RowAt(cols, r[k].index) && r[k].cells[c].None?
    ensures forall k, l :: 0 <= k < l < |r| ==> r[k].index < r[l].index
  {
    var ix := Where(cols[c].cells, true);
    var m := if |ix| < limit then |ix| else limit;
    seq(m, k requires 0 <= k < m => RowView(ix[k], RowAt(cols, ix[k])))
  }

  /**
   * The preview holds the FIRST missing rows: below the last row shown no
   * missing row is skipped, and when fewer than `limit` are shown, all are.
   */
  lemma PreviewIsFirst(cols: seq<Column>, rows: nat, c: nat, limit: nat, i: nat)
    requires WellFormed(cols, rows) && c < |cols|
    requires i < rows && cols[c].cells[i].None?
    ensures var r := Preview(cols, rows, c, limit);
      (|r| < limit || (|r| > 0 && i <= r[|r| - 1].index)) ==>
        exists k :: 0 <= k < |r| && r[k].index == i
  {
    var r := Preview(cols, rows, c, limit);
    var ix := Where(cols[c].cells, true);
    assert |r| == if |ix| < limit then |ix| else limit;
    assert forall k :: 0 <= k < |r| ==> r[k].index == ix[k];
    WhereComplete(cols[c].cells, true, i);
    var t :| 0 <= t < |ix| && ix[t] == i;
    if |r| < limit {
      assert r[t].index == i;
    } else if |r| > 0 && i <= r[|r| - 1].index {
      assert ix[t] <= ix[|r| - 1];
      assert t < |r|;
      assert r[t].index == i;
    }
  }

  /** The preview proper, `head(100)`: at most 100 rows, and every missing row when there are no more than 100. */
  lemma PreviewAtMostLimit(cols: seq<Column>, rows: nat, c: nat)
    requires WellFormed(cols, rows) && c < |cols|
    ensures |Preview(cols, rows, c, PreviewLimit)| <= 100
    ensures MissingCount(cols[c].cells) <= 100 ==> |Preview(cols, rows, c, PreviewLimit)| == MissingCount(cols[c].cells)
  {
  }
}
