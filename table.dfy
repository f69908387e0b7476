/**
 * The loaded table: cell values, the type tag fixed on each column, the
 * columns themselves, and the functions over one column's cells that the
 * summaries, the missing-value report and the remediation all share.
 */
module Table {

  datatype Option<+T> = None | Some(value: T)

  /** A non-missing cell value: a number, or any other (text) value. */
  datatype Value = Num(x: real) | Text(s: string)

  /** The type tag of a column: int64/float64 columns are Numeric, all others Categorical. */
  datatype Kind = Numeric | Categorical

  /** A cell; None is a missing cell (NaN). */
  type Cell = Option<Value>

  datatype Column = Column(name: string, kind: Kind, cells: seq<Cell>)

  /** A numeric column holds numbers only (besides missing cells). */
  predicate WellTyped(col: Column)
  {
    col.kind == Numeric ==>
      forall i :: 0 <= i < |col.cells| ==> col.cells[i].None? || col.cells[i].value.Num?
  }

  /** The table invariant: every column has `rows` cells, is well typed, and names are unique. */
  predicate WellFormed(cols: seq<Column>, rows: nat)
  {
    && (forall j :: 0 <= j < |cols| ==> |cols[j].cells| == rows && WellTyped(cols[j]))
    && (forall j, k :: 0 <= j < k < |cols| ==> cols[j].name != cols[k].name)
  }

  /** Number of missing cells (`isna().sum()` of one column). */
  function MissingCount(s: seq<Cell>): (n: nat)
    ensures n <= |s|
  {
    if s == [] then 0
    else MissingCount(s[..|s| - 1]) + (if s[|s| - 1].None? then 1 else 0)
  }

  /** No cell is missing exactly when the count is 0, and every cell is missing exactly when it is the length. */
  lemma {:induction false} MissingCountExtremes(s: seq<Cell>)
    ensures MissingCount(s) == 0 <==> forall i :: 0 <= i < |s| ==> s[i].Some?
    ensures MissingCount(s) == |s| <==> forall i :: 0 <= i < |s| ==> s[i].None?
  {
    if s != [] {
      var n := |s| - 1;
      MissingCountExtremes(s[..n]);
      assert forall i :: 0 <= i < n ==> s[..n][i] == s[i];
    }
  }

  /** The non-missing values of a column, in row order. */
  function Present(s: seq<Cell>): (p: seq<Value>)
    ensures |p| == |s| - MissingCount(s)
    ensures forall v :: v in p <==> Some(v) in s
  {
    if s == [] then []
    else
      var init := s[..|s| - 1];
      assert s == init + [s[|s| - 1]];
      Present(init) + (if s[|s| - 1].Some? then [s[|s| - 1].value] else [])
  }

  /**
   * The row numbers, in ascending order, whose cell is missing (`missing`)
   * or present (`!missing`): the boolean mask `isna()` resp. `notna()`.
   */
  function Where(s: seq<Cell>, missing: bool): (ix: seq<nat>)
    ensures |ix| == if missing then MissingCount(s) else |s| - MissingCount(s)
    ensures forall k :: 0 <= k < |ix| ==> ix[k] < |s| && s[ix[k]].None? == missing
    ensures forall k, l :: 0 <= k < l < |ix| ==> ix[k] < ix[l]
  {
    if s == [] then []
    else
      var n := |s| - 1;
      var init := Where(s[..n], missing);
      var last := if s[n].None? == missing then [n] else [];
      assert forall k :: 0 <= k < |init| ==> s[init[k]] == s[..n][init[k]];
      init + last
  }

  /** Every row with the wanted missingness is listed by `Where`. */
  lemma {:induction false} WhereComplete(s: seq<Cell>, missing: bool, i: nat)
    requires i < |s| && s[i].None? == missing
    ensures i in Where(s, missing)
  {
    var n := |s| - 1;
    var init := Where(s[..n], missing);
    assert s[n].None? == missing ==> Where(s, missing) == init + [n];
    assert s[n].None? != missing ==> Where(s, missing) == init;
    if i < n {
      assert s[..n][i] == s[i];
      WhereComplete(s[..n], missing, i);
      assert i in init;
    }
  }

  /** The k-th non-missing value is the value of the k-th row whose cell is present: order and repetitions are kept. */
  lemma {:induction false} PresentAt(s: seq<Cell>, k: nat)
    requires k < |s| - MissingCount(s)
    ensures |Where(s, false)| == |Present(s)|
    ensures Present(s)[k] == s[Where(s, false)[k]].value
  {
    var n := |s| - 1;
    var init := Present(s[..n]);
    var ix := Where(s[..n], false);
    var present, keep := Present(s), Where(s, false);
    var last := s[n].Some?;
    assert present == init + (if last then [s[n].value] else []);
    assert keep == ix + (if last then [n] else []);
    if k < |init| {
      assert present[k] == s[keep[k]].value by {
        PresentAt(s[..n], k);
        assert present[k] == init[k] && keep[k] == ix[k];
        assert s[..n][ix[k]] == s[ix[k]];
      }
    } else {
      assert present[k] == s[n].value && keep[k] == n;
    }
  }
}
