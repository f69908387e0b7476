/**
 * Per-column summaries: the distinct-value count (`nunique`), the mode
 * (`mode`) and the five-number summary (`min`, `quantile(0.25)`, `median`,
 * `quantile(0.75)`, `max`). All of them skip missing cells.
 */
module Summary {
  import opened Table
  import opened Order

  /** The distinct non-missing values of a column, each once, ascending (the set of `unique()` values without NaN). */
  function DistinctValues(cells: seq<Cell>): (d: seq<Value>)
    ensures StrictlySorted(d)
    ensures forall v :: v in d <==> Some(v) in cells
  {
    var s := Sort(Present(cells));
    SortSameValues(Present(cells));
    DedupStrictlySorted(s);
    Dedup(s)
  }

  /** The values of the distinct-value sequence are the values found row by row. */
  lemma DistinctValuesByRow(cells: seq<Cell>)
    ensures (set v | v in DistinctValues(cells)) == set i | 0 <= i < |cells| && cells[i].Some? :: cells[i].value
  {
    var d := DistinctValues(cells);
    var byRow := set i | 0 <= i < |cells| && cells[i].Some? :: cells[i].value;
    forall v
      ensures v in d <==> v in byRow
    {
      if v in d {
        var i :| 0 <= i < |cells| && cells[i] == Some(v);
        assert cells[i].value in byRow;
      }
    }
  }

  /** The distinct values, each once, are exactly the values of the non-missing cells. */
  lemma DistinctValuesCard(cells: seq<Cell>)
    ensures |DistinctValues(cells)| == |set i | 0 <= i < |cells| && cells[i].Some? :: cells[i].value|
    ensures |DistinctValues(cells)| <= |cells| - MissingCount(cells)
  {
    StrictlySortedCard(DistinctValues(cells));
    DistinctValuesByRow(cells);
    SortSameValues(Present(cells));
  }

  /** `nunique()`: the number of distinct non-missing values (missing cells are not counted). */
  function DistinctCount(cells: seq<Cell>): (n: nat)
    ensures n == |set i | 0 <= i < |cells| && cells[i].Some? :: cells[i].value|
    ensures n <= |cells| - MissingCount(cells)
    ensures n == 0 <==> MissingCount(cells) == |cells|
  {
    DistinctValuesCard(cells);
    MissingCountExtremes(cells);
    var d := DistinctValues(cells);
    assert forall i :: 0 <= i < |cells| && cells[i].Some? ==> cells[i].value in d;
    assert d != [] ==> Some(d[0]) in cells;
    |d|
  }

  /** How often `v` occurs among the non-missing cells (`value_counts()[v]`). */
  function Freq(cells: seq<Cell>, v: Value): nat
  {
    multiset(Present(cells))[v]
  }

  /** The largest frequency of any value in `d`. */
  function MaxFreq(cells: seq<Cell>, d: seq<Value>): (m: nat)
    ensures forall v :: v in d ==> Freq(cells, v) <= m
    ensures d != [] ==> exists v :: v in d && Freq(cells, v) == m
  {
    if d == [] then 0
    else
      var m := MaxFreq(cells, d[1..]);
      assert d == [d[0]] + d[1..];
      if Freq(cells, d[0]) >= m then Freq(cells, d[0]) else m
  }

  /** The values of `d` whose frequency is `m`, in the order of `d`. */
  function WithFreq(cells: seq<Cell>, d: seq<Value>, m: nat): (r: seq<Value>)
    ensures forall v :: v in r <==> v in d && Freq(cells, v) == m
    ensures StrictlySorted(d) ==> StrictlySorted(r)
  {
    if d == [] then []
    else
      var t := WithFreq(cells, d[1..], m);
      assert d == [d[0]] + d[1..];
      if Freq(cells, d[0]) == m then
        var r := [d[0]] + t;
        assert StrictlySorted(d) ==> forall k :: 0 <= k < |t| ==> Less(d[0], t[k]) by {
          if StrictlySorted(d) {
            forall k | 0 <= k < |t|
              ensures Less(d[0], t[k])
            {
              assert t[k] in d[1..];
            }
          }
        }
        assert forall i :: 0 < i < |r| ==> r[i] == t[i - 1];
        r
      else t
  }

  /**
   * `mode()`: all the values of maximal frequency among the non-missing
   * cells, ascending (pandas sorts the modes), so `Mode(cells)[0]` is what
   * `mode().iloc[0]` picks.
   */
  function Mode(cells: seq<Cell>): (r: seq<Value>)
    ensures StrictlySorted(r)
    ensures forall v :: v in r <==>
      Some(v) in cells && forall w :: Some(w) in cells ==> Freq(cells, w) <= Freq(cells, v)
    ensures r == [] <==> MissingCount(cells) == |cells|
  {
    MissingCountExtremes(cells);
    var d := DistinctValues(cells);
    var r := WithFreq(cells, d, MaxFreq(cells, d));
    assert forall i :: 0 <= i < |cells| && cells[i].Some? ==> cells[i].value in d;
    assert d != [] ==> r != [] by {
      if d != [] {
        var v :| v in d && Freq(cells, v) == MaxFreq(cells, d);
        assert v in r;
      }
    }
    assert r != [] ==> Some(r[0]) in cells;
    r
  }

  /** The numbers among `vs`, in order. */
  function Numbers(vs: seq<Value>): (xs: seq<real>)
    ensures forall x :: x in xs <==> Num(x) in vs
  {
    if vs == [] then []
    else
      assert vs == [vs[0]] + vs[1..];
      (if vs[0].Num? then [vs[0].x] else []) + Numbers(vs[1..])
  }

  lemma {:induction false} NumbersCount(vs: seq<Value>, x: real)
    ensures multiset(Numbers(vs))[x] == multiset(vs)[Num(x)]
  {
    if vs != [] {
      var head, tail := vs[0], vs[1..];
      NumbersCount(tail, x);
      assert vs == [head] + tail;
      assert multiset(vs) == multiset{head} + multiset(tail);
      if head.Num? {
        assert Numbers(vs) == [head.x] + Numbers(tail);
        assert multiset(Numbers(vs)) == multiset{head.x} + multiset(Numbers(tail));
      } else {
        assert Numbers(vs) == Numbers(tail);
      }
    }
  }

  /** When every value is a number, no value is skipped. */
  lemma {:induction false} NumbersAllNum(vs: seq<Value>)
    requires forall k :: 0 <= k < |vs| ==> vs[k].Num?
    ensures |Numbers(vs)| == |vs|
  {
    if vs != [] {
      NumbersAllNum(vs[1..]);
    }
  }

  predicate Ascending(xs: seq<real>)
  {
    forall i, j :: 0 <= i < j < |xs| ==> xs[i] <= xs[j]
  }

  lemma {:induction false} NumbersAscending(vs: seq<Value>)
    requires Sorted(vs)
    ensures Ascending(Numbers(vs))
  {
    if vs != [] {
      NumbersAscending(vs[1..]);
      var t := Numbers(vs[1..]);
      if vs[0].Num? {
        forall k | 0 <= k < |t|
          ensures vs[0].x <= t[k]
        {
          assert Num(t[k]) in vs[1..];
        }
        var r := [vs[0].x] + t;
        assert forall i :: 0 < i < |r| ==> r[i] == t[i - 1];
      }
    }
  }

  /** Reordering values reorders their numbers. */
  lemma NumbersPermutation(a: seq<Value>, b: seq<Value>)
    requires multiset(a) == multiset(b)
    ensures multiset(Numbers(a)) == multiset(Numbers(b))
  {
    forall x
      ensures multiset(Numbers(a))[x] == multiset(Numbers(b))[x]
    {
      NumbersCount(a, x);
      NumbersCount(b, x);
    }
  }

  /** Sequences that are permutations of each other have the same length and the same values. */
  lemma PermutationSameValues(a: seq<real>, b: seq<real>)
    requires multiset(a) == multiset(b)
    ensures |a| == |b|
    ensures forall x :: x in a <==> x in b
  {
    assert |a| == |multiset(a)| == |multiset(b)| == |b|;
    forall x
      ensures x in a <==> x in b
    {
      assert x in a <==> x in multiset(a);
      assert x in b <==> x in multiset(b);
    }
  }

  /** The non-missing numbers of a column, sorted ascending: what `quantile` and `median` work on. */
  function SortedNumbers(cells: seq<Cell>): (xs: seq<real>)
    ensures Ascending(xs)
    ensures multiset(xs) == multiset(Numbers(Present(cells)))
  {
    var s := Sort(Present(cells));
    NumbersAscending(s);
    NumbersPermutation(s, Present(cells));
    Numbers(s)
  }

  /** Scaling a non-negative amount by a fraction in [0, 1] stays within [0, that amount]. */
  lemma ScaleWithin(q: real, a: real)
    requires 0.0 <= q <= 1.0 && 0.0 <= a
    ensures 0.0 <= q * a <= a
  {
    assert a - q * a == (1.0 - q) * a;
  }

  lemma ScaleMonotone(p: real, q: real, a: real)
    requires p <= q && 0.0 <= a
    ensures p * a <= q * a
  {
    assert q * a - p * a == (q - p) * a;
  }

  /**
   * Linear interpolation at the fractional position `pos`: between the
   * neighbours `xs[lo]` and `xs[lo + 1]`, `lo` the floor of `pos`
   * (numpy's default "linear" method, which pandas' `quantile` uses).
   */
  function Interpolate(xs: seq<real>, pos: real): (v: real)
    requires 0.0 <= pos <= (|xs| - 1) as real
  {
    var lo := pos.Floor;
    var frac := pos - lo as real;
    if lo + 1 < |xs| then xs[lo] + frac * (xs[lo + 1] - xs[lo]) else xs[lo]
  }

  lemma InterpolateBetween(xs: seq<real>, pos: real)
    requires 0.0 <= pos <= (|xs| - 1) as real && Ascending(xs)
    ensures xs[pos.Floor] <= Interpolate(xs, pos)
    ensures pos.Floor + 1 < |xs| ==> Interpolate(xs, pos) <= xs[pos.Floor + 1]
    ensures pos.Floor + 1 >= |xs| ==> Interpolate(xs, pos) == xs[pos.Floor]
  {
    var lo := pos.Floor;
    var frac := pos - lo as real;
    if lo + 1 < |xs| {
      var gap := xs[lo + 1] - xs[lo];
      ScaleWithin(frac, gap);
      assert Interpolate(xs, pos) == xs[lo] + frac * gap;
    }
  }

  /** Moving further along a non-negative gap reaches a larger value. */
  lemma LerpMonotone(a: real, b: real, s: real, t: real)
    requires a <= b && s <= t
    ensures a + s * (b - a) <= a + t * (b - a)
  {
    ScaleMonotone(s, t, b - a);
  }

  /** Between the same two neighbours, the interpolated value grows with the position. */
  lemma InterpolateSameGap(xs: seq<real>, p: real, q: real)
    requires 0.0 <= p <= q <= (|xs| - 1) as real
    requires p.Floor == q.Floor && p.Floor + 1 < |xs| && xs[p.Floor] <= xs[p.Floor + 1]
    ensures Interpolate(xs, p) <= Interpolate(xs, q)
  {
    var lo := p.Floor;
    var a, b := xs[lo], xs[lo + 1];
    var s, t := p - lo as real, q - lo as real;
    LerpMonotone(a, b, s, t);
    assert Interpolate(xs, p) == a + s * (b - a);
    assert Interpolate(xs, q) == a + t * (b - a);
  }

  lemma InterpolateMonotone(xs: seq<real>, p: real, q: real)
    requires 0.0 <= p <= q <= (|xs| - 1) as real && Ascending(xs)
    ensures Interpolate(xs, p) <= Interpolate(xs, q)
  {
    var lp, lq := p.Floor, q.Floor;
    if lp == lq && lp + 1 < |xs| {
      InterpolateSameGap(xs, p, q);
    } else {
      InterpolateBetween(xs, p);
      InterpolateBetween(xs, q);
      if lp < lq {
        assert xs[lp + 1] <= xs[lq];
      }
    }
  }

  /** The fractional position q·(n−1) of the q-quantile among n ascending values. */
  function Position(q: real, n: nat): (pos: real)
    requires 0.0 <= q <= 1.0 && n > 0
    ensures 0.0 <= pos <= (n - 1) as real
  {
    ScaleWithin(q, (n - 1) as real);
    q * (n - 1) as real
  }

  lemma PositionMonotone(p: real, q: real, n: nat)
    requires 0.0 <= p <= q <= 1.0 && n > 0
    ensures Position(p, n) <= Position(q, n)
  {
    ScaleMonotone(p, q, (n - 1) as real);
  }

  /** `quantile(q)`: the value at position q·(n−1) of the ascending values, interpolated. */
  function Quantile(xs: seq<real>, q: real): real
    requires |xs| > 0 && 0.0 <= q <= 1.0
  {
    Interpolate(xs, Position(q, |xs|))
  }

  /** Quantiles grow with q. */
  lemma QuantileMonotone(xs: seq<real>, p: real, q: real)
    requires |xs| > 0 && Ascending(xs) && 0.0 <= p <= q <= 1.0
    ensures Quantile(xs, p) <= Quantile(xs, q)
  {
    PositionMonotone(p, q, |xs|);
    var pp, qq := Position(p, |xs|), Position(q, |xs|);
    InterpolateMonotone(xs, pp, qq);
  }

  /** The 0- and 1-quantiles are the smallest and the largest value. */
  lemma QuantileEnds(xs: seq<real>)
    requires |xs| > 0
    ensures Quantile(xs, 0.0) == xs[0]
    ensures Quantile(xs, 1.0) == xs[|xs| - 1]
  {
    assert Position(0.0, |xs|) == 0.0;
    assert Position(1.0, |xs|) == (|xs| - 1) as real;
  }

  /** `median()`: the middle value, or the mean of the two middle values when their number is even. */
  function Median(xs: seq<real>): real
    requires |xs| > 0
  {
    var n := |xs|;
    if n % 2 == 1 then xs[n / 2] else (xs[n / 2 - 1] + xs[n / 2]) / 2.0
  }

  /** The median is the 0.5-quantile. */
  lemma MedianIsHalfQuantile(xs: seq<real>)
    requires |xs| > 0
    ensures Median(xs) == Quantile(xs, 0.5)
  {
    var n := |xs|;
    var k := n / 2;
    var pos := Position(0.5, n);
    assert pos == 0.5 * (n - 1) as real;
    if n % 2 == 1 {
      assert n == 2 * k + 1;
      assert pos == k as real;
      assert pos.Floor == k;
    } else {
      assert n == 2 * k && k >= 1;
      assert pos == (k - 1) as real + 0.5;
      assert pos.Floor == k - 1;
    }
  }

  datatype Stats = Stats(min: real, q1: real, median: real, q3: real, max: real)

  /** The five numbers of ascending values: the ends, the quartiles and the median. */
  function StatsOf(xs: seq<real>): (st: Stats)
    requires |xs| > 0 && Ascending(xs)
    ensures st.min == xs[0] && st.max == xs[|xs| - 1]
    ensures st.min <= st.q1 <= st.median <= st.q3 <= st.max
    ensures st.q1 == Quantile(xs, 0.25) && st.median == Quantile(xs, 0.5) && st.q3 == Quantile(xs, 0.75)
  {
    QuantileEnds(xs);
    QuantileMonotone(xs, 0.0, 0.25);
    QuantileMonotone(xs, 0.25, 0.5);
    QuantileMonotone(xs, 0.5, 0.75);
    QuantileMonotone(xs, 0.75, 1.0);
    MedianIsHalfQuantile(xs);
    Stats(xs[0], Quantile(xs, 0.25), Median(xs), Quantile(xs, 0.75), xs[|xs| - 1])
  }

  /** The ends of an ascending arrangement of some values are the least and the greatest of them. */
  lemma AscendingEnds(xs: seq<real>, values: seq<real>)
    requires Ascending(xs) && multiset(xs) == multiset(values) && values != []
    ensures |xs| == |values|
    ensures xs[0] in values && xs[|xs| - 1] in values
    ensures forall x :: x in values ==> xs[0] <= x <= xs[|xs| - 1]
  {
    PermutationSameValues(xs, values);
    assert xs[0] in xs && xs[|xs| - 1] in xs;
    forall x | x in values
      ensures xs[0] <= x <= xs[|xs| - 1]
    {
      var i :| 0 <= i < |xs| && xs[i] == x;
    }
  }

  /** The ends of the sorted numbers are the least and the greatest of the numbers. */
  lemma SortedNumbersEnds(cells: seq<Cell>)
    requires Numbers(Present(cells)) != []
    ensures |SortedNumbers(cells)| == |Numbers(Present(cells))|
    ensures var xs, values := SortedNumbers(cells), Numbers(Present(cells));
      xs[0] in values && xs[|xs| - 1] in values &&
      forall x :: x in values ==> xs[0] <= x <= xs[|xs| - 1]
  {
    AscendingEnds(SortedNumbers(cells), Numbers(Present(cells)));
  }

  /**
   * The five-number summary of a numeric column, over its non-missing values;
   * None (not applicable) for a categorical column or one without numbers.
   */
  function FiveNumber(col: Column): (r: Option<Stats>)
    ensures r.Some? <==> col.kind == Numeric && Numbers(Present(col.cells)) != []
    ensures r.Some? ==>
      var st := r.value;
      st.min <= st.q1 <= st.median <= st.q3 <= st.max
    ensures r.Some? ==>
      var values := Numbers(Present(col.cells));
      r.value.min in values && r.value.max in values &&
      forall x :: x in values ==> r.value.min <= x <= r.value.max
    ensures r.Some? ==>
      var xs := SortedNumbers(col.cells);
      r.value.q1 == Quantile(xs, 0.25) && r.value.median == Quantile(xs, 0.5) && r.value.q3 == Quantile(xs, 0.75)
  {
    if col.kind == Numeric && Numbers(Present(col.cells)) != [] then
      SortedNumbersEnds(col.cells);
      Some(StatsOf(SortedNumbers(col.cells)))
    else
      None
  }

  /** In a well-typed numeric column every non-missing value is a number. */
  lemma NumericPresent(col: Column)
    requires WellTyped(col) && col.kind == Numeric
    ensures |Numbers(Present(col.cells))| == |col.cells| - MissingCount(col.cells)
  {
    var p := Present(col.cells);
    forall k | 0 <= k < |p|
      ensures p[k].Num?
    {
      assert Some(p[k]) in col.cells;
    }
    NumbersAllNum(p);
  }
}
