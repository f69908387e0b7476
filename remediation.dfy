/**
 * Missing-value remediation: the fill value (the median of a numeric
 * column, the first mode of any other), `fillna` and `dropna(subset=[col])`
 * as transformations of column cells, and the dataset object that the
 * chosen action mutates in place.
 */
module Remediation {
  import opened Table
  import opened Order
  import opened Summary

  /** The value handed to `fillna`, or why filling changes nothing. */
  datatype Fill =
    | FillWith(v: Value)  // the median of a numeric column, the first mode of another
    | FillNaN             // a numeric column without numbers: the median is NaN and `fillna(NaN)` fills nothing
    | NoMode              // another column without values: `mode().iloc[0]` raises before `fillna` runs

  /** `median()` for an int64/float64 column, `mode().iloc[0]` otherwise. */
  function FillValue(col: Column): Fill
  {
    if col.kind == Numeric then
      match FiveNumber(col)
      case Some(st) => FillWith(Num(st.median))
      case None => FillNaN
    else
      var modes := Mode(col.cells);
      if modes == [] then NoMode else FillWith(modes[0])
  }

  /**
   * A numeric column is filled with its median, and only when it holds a
   * number; any other column with the least of its most frequent values,
   * and not at all when every cell is missing.
   */
  lemma FillValueSpec(col: Column)
    ensures var f := FillValue(col);
      col.kind == Numeric ==>
        && f != NoMode
        && (f.FillWith? <==> Numbers(Present(col.cells)) != [])
        && (f.FillWith? ==> f.v == Num(FiveNumber(col).value.median))
    ensures var f := FillValue(col);
      col.kind == Categorical ==>
        && f != FillNaN
        && (f == NoMode <==> MissingCount(col.cells) == |col.cells|)
        && (f.FillWith? ==> f.v in Mode(col.cells) && forall w :: w in Mode(col.cells) ==> Le(f.v, w))
  {
  }

  /** The cells after `fillna(v)`: every missing cell holds `v`, every other cell is as it was. */
  function FillMissing(s: seq<Cell>, v: Value): (r: seq<Cell>)
    ensures |r| == |s|
    ensures forall i :: 0 <= i < |s| ==> r[i] == if s[i].None? then Some(v) else s[i]
  {
    if s == [] then []
    else
      var n := |s| - 1;
      var init := FillMissing(s[..n], v);
      assert forall i :: 0 <= i < n ==> s[..n][i] == s[i];
      init + [if s[n].None? then Some(v) else s[n]]
  }

  /** After filling, nothing is missing and the column keeps its type. */
  lemma FillMissingComplete(col: Column, v: Value)
    requires WellTyped(col) && (col.kind == Numeric ==> v.Num?)
    ensures MissingCount(FillMissing(col.cells, v)) == 0
    ensures WellTyped(col.(cells := FillMissing(col.cells, v)))
  {
    MissingCountExtremes(FillMissing(col.cells, v));
  }

  /** Replacing one column's cells by as many well-typed cells keeps the table well formed. */
  lemma ReplaceCells(cols: seq<Column>, rows: nat, c: nat, cells: seq<Cell>)
    requires WellFormed(cols, rows) && c < |cols|
    requires |cells| == rows && WellTyped(cols[c].(cells := cells))
    ensures WellFormed(cols[c := cols[c].(cells := cells)], rows)
  {
  }

  /** The fill value of a well-typed numeric column is a number. */
  lemma FillValueTyped(col: Column)
    requires WellTyped(col)
    ensures FillValue(col).FillWith? && col.kind == Numeric ==> FillValue(col).v.Num?
  {
  }

  /** The cells of `s` in the rows where `mask` is present (`dropna(subset=[...])` for one column). */
  function KeepRows(s: seq<Cell>, mask: seq<Cell>): (r: seq<Cell>)
    requires |s| == |mask|
    ensures |r| == |mask| - MissingCount(mask)
  {
    if s == [] then []
    else
      var n := |s| - 1;
      KeepRows(s[..n], mask[..n]) + (if mask[n].Some? then [s[n]] else [])
  }

  /** The k-th kept cell is the cell of the k-th row where the mask is present. */
  lemma {:induction false} KeepRowsAt(s: seq<Cell>, mask: seq<Cell>, k: nat)
    requires |s| == |mask| && k < |mask| - MissingCount(mask)
    ensures |Where(mask, false)| == |KeepRows(s, mask)|
    ensures KeepRows(s, mask)[k] == s[Where(mask, false)[k]]
  {
    var n := |s| - 1;
    var init := KeepRows(s[..n], mask[..n]);
    var ix := Where(mask[..n], false);
    var kept, keep := KeepRows(s, mask), Where(mask, false);
    var last := mask[n].Some?;
    assert kept == init + (if last then [s[n]] else []);
    assert keep == ix + (if last then [n] else []);
    if k < |init| {
      assert kept[k] == s[keep[k]] by {
        KeepRowsAt(s[..n], mask[..n], k);
        assert kept[k] == init[k] && keep[k] == ix[k];
        assert s[..n][ix[k]] == s[ix[k]];
      }
    } else {
      assert kept[k] == s[n] && keep[k] == n;
    }
  }

  /** The table after `dropna(subset=[col])`: every column keeps the rows where `mask` is present. */
  function DropRows(cols: seq<Column>, mask: seq<Cell>): (d: seq<Column>)
    requires forall j :: 0 <= j < |cols| ==> |cols[j].cells| == |mask|
    ensures |d| == |cols|
  {
    seq(|cols|, j requires 0 <= j < |cols| => cols[j].(cells := KeepRows(cols[j].cells, mask)))
  }

  /** Keeping the rows where a column is present leaves none of its cells missing. */
  lemma KeepRowsNoMissing(mask: seq<Cell>)
    ensures MissingCount(KeepRows(mask, mask)) == 0
  {
    var kept := KeepRows(mask, mask);
    forall k | 0 <= k < |kept|
      ensures kept[k].Some?
    {
      KeepRowsAt(mask, mask, k);
    }
    MissingCountExtremes(kept);
  }

  /**
   * Dropping the rows where column `c` is missing leaves a well-formed table
   * with exactly that many rows fewer, no missing cell in `c`, the same
   * columns, and as its rows the rows where `c` was present, in their
   * original order and with all their cells unchanged.
   */
  lemma DropRowsSpec(cols: seq<Column>, rows: nat, c: nat)
    requires WellFormed(cols, rows) && c < |cols|
    ensures var mask := cols[c].cells;
      var d := DropRows(cols, mask);
      && WellFormed(d, rows - MissingCount(mask))
      && MissingCount(d[c].cells) == 0
      && (forall j :: 0 <= j < |cols| ==> d[j].name == cols[j].name && d[j].kind == cols[j].kind)
      && (forall j, k :: 0 <= j < |cols| && 0 <= k < |d[j].cells| ==>
            d[j].cells[k] == cols[j].cells[Where(mask, false)[k]])
  {
    var mask := cols[c].cells;
    var d := DropRows(cols, mask);
    var keep := Where(mask, false);
    forall j, k | 0 <= j < |cols| && 0 <= k < |d[j].cells|
      ensures d[j].cells[k] == cols[j].cells[keep[k]]
    {
      KeepRowsAt(cols[j].cells, mask, k);
    }
    forall j | 0 <= j < |cols|
      ensures WellTyped(d[j])
    {
      forall k | 0 <= k < |d[j].cells|
        ensures d[j].cells[k] == cols[j].cells[keep[k]]
      {
        KeepRowsAt(cols[j].cells, mask, k);
      }
    }
    KeepRowsNoMissing(mask);
    assert d[c].cells == KeepRows(mask, mask);
  }

  /** `fillna(v)`, cell by cell. */
  method FillCells(s: seq<Cell>, v: Value) returns (r: seq<Cell>)
    ensures r == FillMissing(s, v)
  {
    r := s;
    var i := 0;
    while i < |r|
      invariant 0 <= i <= |r| == |s|
      invariant forall k :: 0 <= k < i ==> r[k] == if s[k].None? then Some(v) else s[k]
      invariant forall k :: i <= k < |r| ==> r[k] == s[k]
    {
      if r[i].None? {
        r := r[i := Some(v)];
      }
      i := i + 1;
    }
  }

  /** One column's share of `dropna`: its cells in the rows where `mask` is present, in row order. */
  method KeepCells(s: seq<Cell>, mask: seq<Cell>) returns (r: seq<Cell>)
    requires |s| == |mask|
    ensures r == KeepRows(s, mask)
  {
    r := [];
    var i := 0;
    while i < |s|
      invariant 0 <= i <= |s|
      invariant r == KeepRows(s[..i], mask[..i])
    {
      assert s[..i + 1][..i] == s[..i] && mask[..i + 1][..i] == mask[..i];
      if mask[i].Some? {
        r := r + [s[i]];
      }
      i := i + 1;
    }
    assert s[..i] == s && mask[..i] == mask;
  }

  /** `dropna(subset=[col])` over the whole table, column by column. */
  method DropCells(cols: seq<Column>, mask: seq<Cell>) returns (kept: seq<Column>)
    requires forall j :: 0 <= j < |cols| ==> |cols[j].cells| == |mask|
    ensures kept == DropRows(cols, mask)
  {
    kept := [];
    var j := 0;
    while j < |cols|
      invariant 0 <= j <= |cols|
      invariant |kept| == j
      invariant forall k :: 0 <= k < j ==> kept[k] == cols[k].(cells := KeepRows(cols[k].cells, mask))
    {
      var cells := KeepCells(cols[j].cells, mask);
      kept := kept + [cols[j].(cells := cells)];
      j := j + 1;
    }
  }

  /** The three choices of the remediation radio button. */
  datatype Action = DoNothing | FillCentral | DropMissing

  /** What applying an action did. */
  datatype Outcome = Untouched | Imputed(fill: Fill) | Dropped(count: nat)

  /** The loaded table, owned by the session and changed in place by the remediation. */
  class Dataset {
    var columns: seq<Column>
    var rows: nat

    ghost predicate Valid()
      reads this
    {
      WellFormed(columns, rows)
    }

    constructor (cols: seq<Column>, n: nat)
      requires WellFormed(cols, n)
      ensures Valid() && columns == cols && rows == n
    {
      columns, rows := cols, n;
    }

    /**
     * `df[col].fillna(fill_val, inplace=True)`: fills the missing cells of
     * column `c` with its fill value; when there is none, nothing changes.
     */
    method Impute(c: nat) returns (f: Fill)
      requires Valid() && c < |columns|
      modifies this
      ensures Valid() && rows == old(rows)
      ensures f == FillValue(old(columns[c]))
      ensures f.FillWith? ==>
        columns == old(columns)[c := old(columns[c]).(cells := FillMissing(old(columns[c].cells), f.v))]
      ensures f.FillWith? ==> MissingCount(columns[c].cells) == 0
      ensures !f.FillWith? ==> columns == old(columns)
    {
      var col := columns[c];
      f := FillValue(col);
      FillValueTyped(col);
      if f.FillWith? {
        FillMissingComplete(col, f.v);
        var filled := FillCells(col.cells, f.v);
        ReplaceCells(columns, rows, c, filled);
        columns := columns[c := col.(cells := filled)];
      }
    }

    /**
     * `df.dropna(subset=[col], inplace=True)`: removes from every column the
     * rows in which column `c` is missing.
     */
    method DropMissingRows(c: nat) returns (dropped: nat)
      requires Valid() && c < |columns|
      modifies this
      ensures Valid()
      ensures dropped == MissingCount(old(columns[c].cells)) && rows == old(rows) - dropped
      ensures columns == DropRows(old(columns), old(columns[c].cells))
      ensures MissingCount(columns[c].cells) == 0
    {
      var mask := columns[c].cells;
      DropRowsSpec(columns, rows, c);
      var kept := DropCells(columns, mask);
      dropped := MissingCount(mask);
      columns, rows := kept, rows - dropped;
    }

    /**
     * The "apply" button for column `c`, taken from the missing-value table
     * (so it has a missing cell): nothing happens unless it is pressed with
     * an action other than "do nothing".
     */
    method Apply(c: nat, action: Action, pressed: bool) returns (outcome: Outcome)
      requires Valid() && c < |columns| && MissingCount(columns[c].cells) > 0
      modifies this
      ensures Valid()
      ensures !pressed || action == DoNothing ==>
        outcome == Untouched && columns == old(columns) && rows == old(rows)
      ensures pressed && action == FillCentral ==>
        && outcome == Imputed(FillValue(old(columns[c])))
        && rows == old(rows)
        && (outcome.fill.FillWith? ==>
              && columns == old(columns)[c := old(columns[c]).(cells := FillMissing(old(columns[c].cells), outcome.fill.v))]
              && MissingCount(columns[c].cells) == 0)
        && (!outcome.fill.FillWith? ==> columns == old(columns))
      ensures pressed && action == DropMissing ==>
        && outcome == Dropped(MissingCount(old(columns[c].cells)))
        && rows == old(rows) - outcome.count
        && columns == DropRows(old(columns), old(columns[c].cells))
        && MissingCount(columns[c].cells) == 0
    {
      if !pressed || action == DoNothing {
        outcome := Untouched;
      } else if action == FillCentral {
        var f := Impute(c);
        outcome := Imputed(f);
      } else {
        var n := DropMissingRows(c);
        outcome := Dropped(n);
      }
    }
  }
}
