/**
 * The order in which pandas sorts the values of a column: numbers by value,
 * strings lexicographically by character code (Python's `str` comparison),
 * and, as pandas does when it sorts a column mixing the two, every number
 * before every string.
 * `Sort` and `Dedup` give the distinct values, ascending, on which the
 * models of `nunique` and `mode` are built.
 */
module Order {
  import opened Table

  /** Python's `a < b` on strings: the first differing character decides; a proper prefix is smaller. */
  predicate StrLess(a: string, b: string)
  {
    if |a| == 0 then |b| > 0
    else if |b| == 0 then false
    else a[0] < b[0] || (a[0] == b[0] && StrLess(a[1..], b[1..]))
  }

  lemma {:induction false} StrLessIrreflexive(a: string)
    ensures !StrLess(a, a)
  {
    if |a| > 0 {
      StrLessIrreflexive(a[1..]);
    }
  }

  lemma {:induction false} StrLessTransitive(a: string, b: string, c: string)
    requires StrLess(a, b) && StrLess(b, c)
    ensures StrLess(a, c)
  {
    if |a| > 0 && a[0] == b[0] && b[0] == c[0] {
      StrLessTransitive(a[1..], b[1..], c[1..]);
    }
  }

  lemma {:induction false} StrLessTotal(a: string, b: string)
    requires a != b
    ensures StrLess(a, b) || StrLess(b, a)
  {
    if |a| > 0 && |b| > 0 && a[0] == b[0] {
      assert a == [a[0]] + a[1..] && b == [b[0]] + b[1..];
      StrLessTotal(a[1..], b[1..]);
    }
  }

  /** The strict order on cell values. */
  predicate Less(a: Value, b: Value)
  {
    match a
    case Num(x) => (match b case Num(y) => x < y case Text(_) => true)
    case Text(s) => (match b case Num(_) => false case Text(t) => StrLess(s, t))
  }

  predicate Le(a: Value, b: Value)
  {
    a == b || Less(a, b)
  }

  lemma LessIrreflexive(a: Value)
    ensures !Less(a, a)
  {
    if a.Text? {
      StrLessIrreflexive(a.s);
    }
  }

  lemma LessTransitive(a: Value, b: Value, c: Value)
    requires Less(a, b) && Less(b, c)
    ensures Less(a, c)
  {
    if a.Text? {
      StrLessTransitive(a.s, b.s, c.s);
    }
  }

  lemma LessTotal(a: Value, b: Value)
    requires a != b
    ensures Less(a, b) || Less(b, a)
  {
    if a.Text? && b.Text? {
      StrLessTotal(a.s, b.s);
    }
  }

  lemma LeTransitive(a: Value, b: Value, c: Value)
    requires Le(a, b) && Le(b, c)
    ensures Le(a, c)
  {
    if a != b && b != c {
      LessTransitive(a, b, c);
    }
  }

  lemma LessLeTransitive(a: Value, b: Value, c: Value)
    requires Less(a, b) && Le(b, c)
    ensures Less(a, c)
  {
    if b != c {
      LessTransitive(a, b, c);
    }
  }

  predicate Sorted(s: seq<Value>)
  {
    forall i, j :: 0 <= i < j < |s| ==> Le(s[i], s[j])
  }

  predicate StrictlySorted(s: seq<Value>)
  {
    forall i, j :: 0 <= i < j < |s| ==> Less(s[i], s[j])
  }

  /** Inserts `x` before the first element it does not exceed. */
  function Insert(x: Value, s: seq<Value>): (r: seq<Value>)
    ensures multiset(r) == multiset(s) + multiset{x}
  {
    if s == [] then [x]
    else if Le(x, s[0]) then [x] + s
    else
      assert s == [s[0]] + s[1..];
      [s[0]] + Insert(x, s[1..])
  }

  /** A value below every element of a sorted sequence keeps it sorted when put in front. */
  lemma ConsSorted(h: Value, t: seq<Value>)
    requires Sorted(t) && forall k :: 0 <= k < |t| ==> Le(h, t[k])
    ensures Sorted([h] + t)
  {
    var r := [h] + t;
    forall i, j | 0 <= i < j < |r|
      ensures Le(r[i], r[j])
    {
      if i > 0 {
        assert r[i] == t[i - 1] && r[j] == t[j - 1];
      }
    }
  }

  /** A lower bound of `x` and of every element of `s` bounds every element of `Insert(x, s)`. */
  lemma InsertLowerBound(x: Value, s: seq<Value>, h: Value)
    requires Le(h, x) && forall k :: 0 <= k < |s| ==> Le(h, s[k])
    ensures forall k :: 0 <= k < |Insert(x, s)| ==> Le(h, Insert(x, s)[k])
  {
    var t := Insert(x, s);
    forall k | 0 <= k < |t|
      ensures Le(h, t[k])
    {
      assert t[k] in multiset(t);
      if t[k] != x {
        assert t[k] in multiset(s);
        assert t[k] in s;
      }
    }
  }

  lemma {:induction false} InsertSorted(x: Value, s: seq<Value>)
    requires Sorted(s)
    ensures Sorted(Insert(x, s))
  {
    if s == [] {
    } else if Le(x, s[0]) {
      forall j | 0 <= j < |s|
        ensures Le(x, s[j])
      {
        if j > 0 {
          LeTransitive(x, s[0], s[j]);
        }
      }
      ConsSorted(x, s);
    } else {
      LessTotal(x, s[0]);
      var tail := s[1..];
      assert Sorted(tail) by {
        forall i, j | 0 <= i < j < |tail|
          ensures Le(tail[i], tail[j])
        {
          assert tail[i] == s[i + 1] && tail[j] == s[j + 1];
        }
      }
      forall k | 0 <= k < |tail|
        ensures Le(s[0], tail[k])
      {
        assert tail[k] == s[k + 1];
      }
      InsertSorted(x, tail);
      InsertLowerBound(x, tail, s[0]);
      ConsSorted(s[0], Insert(x, tail));
      assert Insert(x, s) == [s[0]] + Insert(x, tail);
    }
  }

  /** Insertion sort into ascending order. */
  function Sort(s: seq<Value>): (r: seq<Value>)
    ensures Sorted(r)
    ensures multiset(r) == multiset(s)
  {
    if s == [] then []
    else
      var t := Sort(s[1..]);
      InsertSorted(s[0], t);
      assert s == [s[0]] + s[1..];
      Insert(s[0], t)
  }

  /** Sorting keeps the length and the set of values. */
  lemma SortSameValues(s: seq<Value>)
    ensures |Sort(s)| == |s|
    ensures forall v :: v in Sort(s) <==> v in s
  {
    var r := Sort(s);
    assert |r| == |multiset(r)| == |multiset(s)| == |s|;
    forall v
      ensures v in r <==> v in s
    {
      assert v in r <==> v in multiset(r);
      assert v in s <==> v in multiset(s);
    }
  }

  /** Drops repeated neighbours: applied to a sorted sequence it leaves each value once. */
  function Dedup(s: seq<Value>): (r: seq<Value>)
    ensures |r| <= |s|
    ensures forall v :: v in r <==> v in s
  {
    if |s| <= 1 then s
    else
      assert s == [s[0]] + s[1..];
      if s[0] == s[1] then Dedup(s[1..]) else [s[0]] + Dedup(s[1..])
  }

  lemma {:induction false} DedupStrictlySorted(s: seq<Value>)
    requires Sorted(s)
    ensures StrictlySorted(Dedup(s))
  {
    if |s| > 1 {
      var t := Dedup(s[1..]);
      DedupStrictlySorted(s[1..]);
      if s[0] != s[1] {
        forall k | 0 <= k < |t|
          ensures Less(s[0], t[k])
        {
          assert t[k] in s[1..];
          var m :| 1 <= m < |s| && s[m] == t[k];
          assert Le(s[1], s[m]);
          LessLeTransitive(s[0], s[1], t[k]);
        }
        var r := [s[0]] + t;
        forall i, j | 0 <= i < j < |r|
          ensures Less(r[i], r[j])
        {
          if i > 0 {
            assert r[i] == t[i - 1] && r[j] == t[j - 1];
          }
        }
      }
    }
  }

  /** The values of a non-empty sequence are its first value and the values of its tail. */
  lemma ValuesCons(s: seq<Value>)
    requires s != []
    ensures (set v | v in s) == (set v | v in s[1..]) + {s[0]}
  {
    forall v
      ensures v in s <==> v in s[1..] || v == s[0]
    {
      assert s == [s[0]] + s[1..];
    }
  }

  /** A strictly ascending sequence repeats no value, so its length is the number of values in it. */
  lemma {:induction false} StrictlySortedCard(s: seq<Value>)
    requires StrictlySorted(s)
    ensures |set v | v in s| == |s|
  {
    if s != [] {
      var tail := s[1..];
      assert StrictlySorted(tail) by {
        forall i, j | 0 <= i < j < |tail|
          ensures Less(tail[i], tail[j])
        {
          assert tail[i] == s[i + 1] && tail[j] == s[j + 1];
        }
      }
      StrictlySortedCard(tail);
      assert s[0] !in tail by {
        forall m | 0 <= m < |tail|
          ensures tail[m] != s[0]
        {
          assert Less(s[0], s[m + 1]);
          LessIrreflexive(s[0]);
        }
      }
      ValuesCons(s);
    }
  }
}
