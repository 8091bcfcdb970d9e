/**
 * Extents in the sense of d3's `extent`, and `calculateMinMaxExtent`, which
 * pools the per-year extents of a column over 2010..MaxYear and takes the
 * extent of the pool.
 */
module Extents {
  import opened Wrappers
  import opened Records

  /** A `[min, max]` pair. */
  datatype Interval = Interval(lo: real, hi: real)

  /**
   * d3's `extent`: a left-to-right scan keeping the least and greatest value
   * seen; no values give no bounds.
   */
  function ExtentOf(xs: seq<real>): (e: Option<Interval>)
    ensures e.None? <==> |xs| == 0
    ensures e.Some? ==> e.value.lo <= e.value.hi
    ensures e.Some? ==> e.value.lo in xs && e.value.hi in xs
    ensures e.Some? ==> forall i :: 0 <= i < |xs| ==> e.value.lo <= xs[i] <= e.value.hi
    decreases |xs|
  {
    if |xs| == 0 then None
    else
      var x := xs[|xs| - 1];
      var prefix := xs[..|xs| - 1];
      assert forall i :: 0 <= i < |prefix| ==> prefix[i] == xs[i];
      match ExtentOf(prefix)
      case None => Some(Interval(x, x))
      case Some(e) =>
        Some(Interval(if e.lo > x then x else e.lo, if e.hi < x then x else e.hi))
  }

  predicate AllWellFormed(data: seq<PopRecord>)
  {
    forall i :: 0 <= i < |data| ==> WellFormed(data[i])
  }

  /** The column `c` of year `y` over all records, in record order. */
  function YearColumn(data: seq<PopRecord>, c: Column, y: Year): (col: seq<real>)
    requires AllWellFormed(data)
  {
    seq(|data|, i requires 0 <= i < |data| => ColumnValue(data[i], c, y))
  }

  /**
   * The values pushed for years `y..MaxYear`: each year's min and max in
   * year order. A year without bounds pushes undefined values, which the
   * final `extent` ignores, so they are left out here.
   */
  function Pool(data: seq<PopRecord>, c: Column, y: int): seq<real>
    requires AllWellFormed(data)
    requires MinYear <= y <= MaxYear + 1
    decreases MaxYear + 1 - y
  {
    if y > MaxYear then [] else Bounds(YearColumn(data, c, y)) + Pool(data, c, y + 1)
  }

  /** What one year pushes: its min and max, or nothing when it has no values. */
  function Bounds(col: seq<real>): seq<real>
  {
    match ExtentOf(col)
    case None => []
    case Some(e) => [e.lo, e.hi]
  }

  /**
   * Every value of column `c` for the years `y..MaxYear`, year by year, each
   * year in record order: the single pool a global extent would scan.
   */
  function AllValues(data: seq<PopRecord>, c: Column, y: int): (vs: seq<real>)
    requires AllWellFormed(data)
    requires MinYear <= y <= MaxYear + 1
    decreases MaxYear + 1 - y
  {
    if y > MaxYear then [] else YearColumn(data, c, y) + AllValues(data, c, y + 1)
  }

  /** Every value of every record for the years `y..MaxYear` is among `AllValues`. */
  lemma {:induction false} AllValuesComplete(data: seq<PopRecord>, c: Column, y: int, i: nat, y': int)
    requires AllWellFormed(data)
    requires MinYear <= y <= y' <= MaxYear && i < |data|
    ensures ColumnValue(data[i], c, y') in AllValues(data, c, y)
    decreases MaxYear + 1 - y
  {
    var col := YearColumn(data, c, y);
    var rest := AllValues(data, c, y + 1);
    if y' == y {
      assert (col + rest)[i] == col[i];
    } else {
      AllValuesComplete(data, c, y + 1, i, y');
      var k :| 0 <= k < |rest| && rest[k] == ColumnValue(data[i], c, y');
      assert (col + rest)[|col| + k] == rest[k];
    }
  }

  /** Every element of `xs` occurs in `ys`. */
  predicate Within(xs: seq<real>, ys: seq<real>)
  {
    forall k :: 0 <= k < |xs| ==> xs[k] in ys
  }

  /** Some element of `xs` is at most `v`, and some element is at least `v`. */
  predicate Brackets(xs: seq<real>, v: real)
  {
    (exists k :: 0 <= k < |xs| && xs[k] <= v) && (exists k :: 0 <= k < |xs| && v <= xs[k])
  }

  /** Every element of `ys` lies between two elements of `xs`. */
  predicate BracketsAll(xs: seq<real>, ys: seq<real>)
  {
    forall k :: 0 <= k < |ys| ==> Brackets(xs, ys[k])
  }

  lemma WithinConcat(a: seq<real>, b: seq<real>, a': seq<real>, b': seq<real>)
    requires Within(a, a') && Within(b, b')
    ensures Within(a + b, a' + b')
  {
    forall k | 0 <= k < |a + b|
      ensures (a + b)[k] in a' + b'
    {
      if k < |a| {
        assert (a + b)[k] == a[k];
      } else {
        assert (a + b)[k] == b[k - |a|];
      }
    }
  }

  lemma BracketsConcat(a: seq<real>, b: seq<real>, a': seq<real>, b': seq<real>)
    requires BracketsAll(a, a') && BracketsAll(b, b')
    ensures BracketsAll(a + b, a' + b')
  {
    forall k | 0 <= k < |a' + b'|
      ensures Brackets(a + b, (a' + b')[k])
    {
      var v := (a' + b')[k];
      if k < |a'| {
        assert v == a'[k] && Brackets(a, v);
        var j :| 0 <= j < |a| && a[j] <= v;
        var j' :| 0 <= j' < |a| && v <= a[j'];
        assert (a + b)[j] == a[j] && (a + b)[j'] == a[j'];
      } else {
        assert v == b'[k - |a'|] && Brackets(b, v);
        var j :| 0 <= j < |b| && b[j] <= v;
        var j' :| 0 <= j' < |b| && v <= b[j'];
        assert (a + b)[|a| + j] == b[j] && (a + b)[|a| + j'] == b[j'];
      }
    }
  }

  /**
   * Two non-empty value lists have the same extent when the first draws its
   * values from the second and brackets every value of the second.
   */
  lemma SameExtent(xs: seq<real>, ys: seq<real>)
    requires |ys| > 0
    requires Within(xs, ys) && BracketsAll(xs, ys)
    ensures ExtentOf(xs) == ExtentOf(ys)
  {
    assert Brackets(xs, ys[0]);
    LowerBoundFromWithin(xs, ys);
    UpperBoundFromWithin(xs, ys);
    LowerBoundFromBrackets(xs, ys);
    UpperBoundFromBrackets(xs, ys);
  }

  lemma LowerBoundFromWithin(xs: seq<real>, ys: seq<real>)
    requires |xs| > 0 && |ys| > 0
    requires Within(xs, ys)
    ensures ExtentOf(ys).value.lo <= ExtentOf(xs).value.lo
  {
    var k :| 0 <= k < |xs| && xs[k] == ExtentOf(xs).value.lo;
    assert xs[k] in ys;
  }

  lemma UpperBoundFromWithin(xs: seq<real>, ys: seq<real>)
    requires |xs| > 0 && |ys| > 0
    requires Within(xs, ys)
    ensures ExtentOf(xs).value.hi <= ExtentOf(ys).value.hi
  {
    var k :| 0 <= k < |xs| && xs[k] == ExtentOf(xs).value.hi;
    assert xs[k] in ys;
  }

  lemma LowerBoundFromBrackets(xs: seq<real>, ys: seq<real>)
    requires |xs| > 0 && |ys| > 0
    requires BracketsAll(xs, ys)
    ensures ExtentOf(xs).value.lo <= ExtentOf(ys).value.lo
  {
    var j :| 0 <= j < |ys| && ys[j] == ExtentOf(ys).value.lo;
    assert Brackets(xs, ys[j]);
    var k :| 0 <= k < |xs| && xs[k] <= ys[j];
  }

  lemma UpperBoundFromBrackets(xs: seq<real>, ys: seq<real>)
    requires |xs| > 0 && |ys| > 0
    requires BracketsAll(xs, ys)
    ensures ExtentOf(ys).value.hi <= ExtentOf(xs).value.hi
  {
    var j :| 0 <= j < |ys| && ys[j] == ExtentOf(ys).value.hi;
    assert Brackets(xs, ys[j]);
    var k :| 0 <= k < |xs| && ys[j] <= xs[k];
  }

  /** The bounds one year pushes are values of that year's column ... */
  lemma BoundsWithin(col: seq<real>)
    ensures Within(Bounds(col), col)
  {
    if ExtentOf(col).Some? {
      var b := Bounds(col);
      assert b[0] in col && b[1] in col;
    }
  }

  /** ... and bracket every value of it. */
  lemma BoundsBracket(col: seq<real>)
    ensures BracketsAll(Bounds(col), col)
  {
    if ExtentOf(col).Some? {
      var b := Bounds(col);
      forall k | 0 <= k < |col|
        ensures Brackets(b, col[k])
      {
        assert b[0] <= col[k] <= b[1];
      }
    }
  }

  /** The pool draws its values from the column values ... */
  lemma {:induction false} PoolWithinValues(data: seq<PopRecord>, c: Column, y: int)
    requires AllWellFormed(data)
    requires MinYear <= y <= MaxYear + 1
    ensures Within(Pool(data, c, y), AllValues(data, c, y))
    decreases MaxYear + 1 - y
  {
    if y <= MaxYear {
      PoolWithinValues(data, c, y + 1);
      var col := YearColumn(data, c, y);
      BoundsWithin(col);
      WithinConcat(Bounds(col), Pool(data, c, y + 1), col, AllValues(data, c, y + 1));
    }
  }

  /** ... and brackets every one of them. */
  lemma {:induction false} PoolBracketsValues(data: seq<PopRecord>, c: Column, y: int)
    requires AllWellFormed(data)
    requires MinYear <= y <= MaxYear + 1
    ensures BracketsAll(Pool(data, c, y), AllValues(data, c, y))
    decreases MaxYear + 1 - y
  {
    if y <= MaxYear {
      PoolBracketsValues(data, c, y + 1);
      var col := YearColumn(data, c, y);
      BoundsBracket(col);
      BracketsConcat(Bounds(col), Pool(data, c, y + 1), col, AllValues(data, c, y + 1));
    }
  }

  /**
   * `calculateMinMaxExtent`: the extent of the pooled per-year extents. It
   * equals the extent of all values of the column over all records and
   * years, so it has no bounds exactly when there are no records, and
   * otherwise `lo <= hi` and every column value of every record in every
   * year lies between them.
   */
  function MinMaxExtent(data: seq<PopRecord>, c: Column): (e: Option<Interval>)
    requires AllWellFormed(data)
    ensures e == ExtentOf(AllValues(data, c, MinYear))
    ensures e.None? <==> |data| == 0
    ensures e.Some? ==> e.value.lo <= e.value.hi
    ensures e.Some? ==> BoundsColumn(data, c, e.value)
    ensures e.Some? ==> Attained(data, c, e.value.lo) && Attained(data, c, e.value.hi)
  {
    if |data| > 0 then
      AllValuesComplete(data, c, MinYear, 0, MinYear);
      ExtentAttained(data, c);
      PoolWithinValues(data, c, MinYear);
      PoolBracketsValues(data, c, MinYear);
      SameExtent(Pool(data, c, MinYear), AllValues(data, c, MinYear));
      GlobalExtentBoundsAll(data, c);
      ExtentOf(Pool(data, c, MinYear))
    else
      NoRecordsNoValues(data, c, MinYear);
      ExtentOf(Pool(data, c, MinYear))
  }

  /** `iv` bounds the values of column `c` of every record in every year. */
  predicate BoundsColumn(data: seq<PopRecord>, c: Column, iv: Interval)
    requires AllWellFormed(data)
  {
    forall i, y :: 0 <= i < |data| && MinYear <= y <= MaxYear ==> iv.lo <= ColumnValue(data[i], c, y) <= iv.hi
  }

  /** The extent of all values bounds every value of every record in every year. */
  lemma GlobalExtentBoundsAll(data: seq<PopRecord>, c: Column)
    requires AllWellFormed(data)
    requires ExtentOf(AllValues(data, c, MinYear)).Some?
    ensures BoundsColumn(data, c, ExtentOf(AllValues(data, c, MinYear)).value)
  {
    var vs := AllValues(data, c, MinYear);
    forall i, y | 0 <= i < |data| && MinYear <= y <= MaxYear
      ensures ExtentOf(vs).value.lo <= ColumnValue(data[i], c, y) <= ExtentOf(vs).value.hi
    {
      AllValuesComplete(data, c, MinYear, i, y);
    }
  }

  /** `v` is the value of column `c` of some record in some year. */
  predicate Attained(data: seq<PopRecord>, c: Column, v: real)
    requires AllWellFormed(data)
  {
    exists i, y :: 0 <= i < |data| && MinYear <= y <= MaxYear && ColumnValue(data[i], c, y) == v
  }

  /** Every pooled value of the years `y..MaxYear` is some record's value in one of those years. */
  lemma {:induction false} AllValuesSound(data: seq<PopRecord>, c: Column, y: int, k: nat)
    requires AllWellFormed(data)
    requires MinYear <= y <= MaxYear + 1
    requires k < |AllValues(data, c, y)|
    ensures exists i, y' :: 0 <= i < |data| && y <= y' <= MaxYear && ColumnValue(data[i], c, y') == AllValues(data, c, y)[k]
    decreases MaxYear + 1 - y
  {
    var col := YearColumn(data, c, y);
    var rest := AllValues(data, c, y + 1);
    assert AllValues(data, c, y) == col + rest;
    if k < |col| {
      assert (col + rest)[k] == ColumnValue(data[k], c, y);
    } else {
      AllValuesSound(data, c, y + 1, k - |col|);
      assert (col + rest)[k] == rest[k - |col|];
    }
  }

  /** The bounds of the global extent are themselves column values. */
  lemma ExtentAttained(data: seq<PopRecord>, c: Column)
    requires AllWellFormed(data)
    requires ExtentOf(AllValues(data, c, MinYear)).Some?
    ensures Attained(data, c, ExtentOf(AllValues(data, c, MinYear)).value.lo)
    ensures Attained(data, c, ExtentOf(AllValues(data, c, MinYear)).value.hi)
  {
    var vs := AllValues(data, c, MinYear);
    var e := ExtentOf(vs).value;
    var a :| 0 <= a < |vs| && vs[a] == e.lo;
    var b :| 0 <= b < |vs| && vs[b] == e.hi;
    AllValuesSound(data, c, MinYear, a);
    AllValuesSound(data, c, MinYear, b);
  }

  /** With no records, no year pushes bounds and there are no values. */
  lemma {:induction false} NoRecordsNoValues(data: seq<PopRecord>, c: Column, y: int)
    requires AllWellFormed(data) && |data| == 0
    requires MinYear <= y <= MaxYear + 1
    ensures Pool(data, c, y) == [] && AllValues(data, c, y) == []
    decreases MaxYear + 1 - y
  {
    if y <= MaxYear {
      NoRecordsNoValues(data, c, y + 1);
    }
  }
}
