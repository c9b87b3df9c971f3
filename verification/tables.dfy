/** The Table Store: date-indexed tables of reals and the inclusive label slicing
    (`table[lo:hi]` on a sorted DatetimeIndex) through which every query reads them. */
module Tables {
  import opened Results

  /** A calendar day, counted from an arbitrary epoch. */
  type Date = int

  /** A column label: an asset's currency, or a settlement currency. */
  type Label = string

  /** The one-day step the queries add to the end of the requested range. */
  const Day: int := 1

  /** The lookback window the source hardcodes, in days; the queries take it as a parameter. */
  const DefaultLookback: nat := 5

  /** A table: one label per column, one date per row, one real per cell. */
  datatype Table = Table(labels: seq<Label>, dates: seq<Date>, rows: seq<seq<real>>)

  predicate Ascending(ds: seq<Date>) {
    forall i, j :: 0 <= i < j < |ds| ==> ds[i] < ds[j]
  }

  predicate Distinct<T(==)>(xs: seq<T>) {
    forall i, j :: 0 <= i < j < |xs| ==> xs[i] != xs[j]
  }

  /** Dates strictly increasing, one row per date, one cell per label. */
  predicate WellFormed(t: Table) {
    && |t.dates| == |t.rows|
    && Ascending(t.dates)
    && forall k :: 0 <= k < |t.rows| ==> |t.rows[k]| == |t.labels|
  }

  /** A matrix of `n` rows of `w` cells each. */
  predicate Shaped(m: seq<seq<real>>, n: nat, w: nat) {
    |m| == n && forall t :: 0 <= t < |m| ==> |m[t]| == w
  }

  /** The position of the first occurrence of `x` in `xs`. */
  function Find<T(==)>(xs: seq<T>, x: T): (r: Option<nat>)
    ensures r.Some? ==> r.value < |xs| && xs[r.value] == x
    ensures r.Some? ==> forall k :: 0 <= k < r.value ==> xs[k] != x
    ensures r.None? <==> x !in xs
  {
    if |xs| == 0 then None
    else if xs[0] == x then Some(0)
    else match Find(xs[1..], x)
      case None => None
      case Some(k) => Some(k + 1)
  }

  /** The first element of `xs` that `ys` lacks. */
  function FirstNotIn<T(==)>(xs: seq<T>, ys: seq<T>): (r: Option<T>)
    ensures r.Some? ==> r.value in xs && r.value !in ys
    ensures r.None? <==> forall k :: 0 <= k < |xs| ==> xs[k] in ys
  {
    if |xs| == 0 then None
    else if xs[0] !in ys then Some(xs[0])
    else FirstNotIn(xs[1..], ys)
  }

  /** The row stored under date `d`. */
  function RowAt(t: Table, d: Date): (row: seq<real>)
    requires WellFormed(t) && d in t.dates
    ensures |row| == |t.labels|
    ensures forall k :: 0 <= k < |t.dates| && t.dates[k] == d ==> row == t.rows[k]
  {
    t.rows[Find(t.dates, d).value]
  }

  /** Scanning from position `i`, the first position whose date is at or after `x` (or the end). */
  function LeftFrom(ds: seq<Date>, x: Date, i: nat): (r: nat)
    requires i <= |ds|
    ensures i <= r <= |ds|
    ensures forall k :: i <= k < r ==> ds[k] < x
    ensures r < |ds| ==> x <= ds[r]
    decreases |ds| - i
  {
    if i == |ds| || x <= ds[i] then i else LeftFrom(ds, x, i + 1)
  }

  /** Scanning from position `i`, the first position whose date is after `x` (or the end). */
  function RightFrom(ds: seq<Date>, x: Date, i: nat): (r: nat)
    requires i <= |ds|
    ensures i <= r <= |ds|
    ensures forall k :: i <= k < r ==> ds[k] <= x
    ensures r < |ds| ==> x < ds[r]
    decreases |ds| - i
  {
    if i == |ds| || x < ds[i] then i else RightFrom(ds, x, i + 1)
  }

  /** The number of leading dates before `x`: pandas' `searchsorted(x, side="left")`. */
  function SearchLeft(ds: seq<Date>, x: Date): (i: nat)
    ensures i <= |ds|
    ensures forall k :: 0 <= k < i ==> ds[k] < x
    ensures i < |ds| ==> x <= ds[i]
    ensures Ascending(ds) ==> forall k :: i <= k < |ds| ==> x <= ds[k]
  {
    LeftFrom(ds, x, 0)
  }

  /** The number of leading dates at or before `x`: pandas' `searchsorted(x, side="right")`. */
  function SearchRight(ds: seq<Date>, x: Date): (j: nat)
    ensures j <= |ds|
    ensures forall k :: 0 <= k < j ==> ds[k] <= x
    ensures j < |ds| ==> x < ds[j]
    ensures Ascending(ds) ==> forall k :: j <= k < |ds| ==> x < ds[k]
  {
    RightFrom(ds, x, 0)
  }

  /** `t[lo:hi]`: label slicing, inclusive at both ends, as one contiguous block of rows. */
  function Slice(t: Table, lo: Date, hi: Date): (r: Table)
    requires |t.dates| == |t.rows|
    ensures r.labels == t.labels && |r.dates| == |r.rows| <= |t.rows|
  {
    var i := SearchLeft(t.dates, lo);
    var j := SearchRight(t.dates, hi);
    if i <= j then Table(t.labels, t.dates[i..j], t.rows[i..j]) else Table(t.labels, [], [])
  }

  /** A contiguous block of a well-formed table is well formed and keeps every row under its date. */
  lemma BlockKeepsRows(t: Table, i: nat, j: nat)
    requires WellFormed(t) && i <= j <= |t.rows|
    ensures var r := Table(t.labels, t.dates[i..j], t.rows[i..j]);
      && WellFormed(r)
      && (forall d :: d in r.dates ==> d in t.dates && RowAt(r, d) == RowAt(t, d))
  {
    var r := Table(t.labels, t.dates[i..j], t.rows[i..j]);
    assert WellFormed(r);
    forall d | d in r.dates
      ensures d in t.dates && RowAt(r, d) == RowAt(t, d)
    {
      var k :| 0 <= k < |r.dates| && r.dates[k] == d;
      assert t.dates[i + k] == d;
      assert RowAt(r, d) == r.rows[k] == t.rows[i + k];
    }
  }

  /** Every date of the slice lies in [lo, hi], and every date of `t` in [lo, hi] is in the slice. */
  lemma SliceDates(t: Table, lo: Date, hi: Date)
    requires WellFormed(t)
    ensures var r := Slice(t, lo, hi);
      forall d :: d in r.dates <==> d in t.dates && lo <= d <= hi
  {
    var r := Slice(t, lo, hi);
    var i := SearchLeft(t.dates, lo);
    var j := SearchRight(t.dates, hi);
    forall d | d in r.dates
      ensures d in t.dates && lo <= d <= hi
    {
      var k :| 0 <= k < |r.dates| && r.dates[k] == d;
      assert i <= j && t.dates[i + k] == d;
    }
    forall d | d in t.dates && lo <= d <= hi
      ensures d in r.dates
    {
      var k :| 0 <= k < |t.dates| && t.dates[k] == d;
      assert i <= k < j;
      assert r.dates[k - i] == d;
    }
  }

  /** A slice holds exactly the rows of `t` dated in [lo, hi], ascending, each unchanged. */
  lemma SliceSelectsRange(t: Table, lo: Date, hi: Date)
    requires WellFormed(t)
    ensures var r := Slice(t, lo, hi);
      && WellFormed(r)
      && (forall d :: d in r.dates <==> d in t.dates && lo <= d <= hi)
      && (forall d :: d in r.dates ==> RowAt(r, d) == RowAt(t, d))
  {
    var i := SearchLeft(t.dates, lo);
    var j := SearchRight(t.dates, hi);
    if i <= j {
      BlockKeepsRows(t, i, j);
    }
    SliceDates(t, lo, hi);
  }

  /** Widening a slice to the left only adds rows in front: the narrow slice is a suffix of the wide one. */
  lemma SliceSuffix(t: Table, lo: Date, start: Date, hi: Date)
    requires |t.dates| == |t.rows| && lo <= start
    ensures var wide := Slice(t, lo, hi); var cur := Slice(t, start, hi);
      && |cur.rows| <= |wide.rows|
      && cur.dates == wide.dates[|wide.dates| - |cur.dates|..]
      && cur.rows == wide.rows[|wide.rows| - |cur.rows|..]
  {
    var i1 := SearchLeft(t.dates, lo);
    var i2 := SearchLeft(t.dates, start);
    assert i1 <= i2;
  }

  /** When every date of `t` is at or before `hi`, the slice from `lo` is a suffix of `t` itself. */
  lemma SliceOfBoundedIsSuffix(t: Table, lo: Date, hi: Date)
    requires |t.dates| == |t.rows|
    requires forall k :: 0 <= k < |t.dates| ==> t.dates[k] <= hi
    ensures var r := Slice(t, lo, hi);
      && r.dates == t.dates[|t.dates| - |r.dates|..]
      && r.rows == t.rows[|t.rows| - |r.rows|..]
  {
    var n := |t.dates|;
    var i := SearchLeft(t.dates, lo);
    assert SearchRight(t.dates, hi) == n;
    assert Slice(t, lo, hi) == Table(t.labels, t.dates[i..n], t.rows[i..n]);
  }

  /** Slicing to a range that holds every date of `t` gives `t` back. */
  lemma SliceWhole(t: Table, lo: Date, hi: Date)
    requires |t.dates| == |t.rows|
    requires forall k :: 0 <= k < |t.dates| ==> lo <= t.dates[k] <= hi
    ensures Slice(t, lo, hi) == t
  {
    assert SearchLeft(t.dates, lo) == 0;
    assert SearchRight(t.dates, hi) == |t.dates|;
    assert t.dates[0..|t.dates|] == t.dates;
    assert t.rows[0..|t.rows|] == t.rows;
  }

  /** A suffix of `s` is its first element followed by the rest. */
  lemma ConsSuffix<T>(s: seq<T>, k: nat, x: T, tail: seq<T>)
    requires k < |s| && s[k] == x && tail == s[k + 1..]
    ensures s[k..] == [x] + tail
  {
  }

  /** Two ascending sequences with the same elements are equal. */
  lemma {:induction false} AscendingUnique(a: seq<Date>, b: seq<Date>)
    requires Ascending(a) && Ascending(b)
    requires forall d :: d in a <==> d in b
    ensures a == b
  {
    if |a| > 0 || |b| > 0 {
      if |a| > 0 { assert a[0] in a; }
      if |b| > 0 { assert b[0] in b; }
      assert |a| > 0 && |b| > 0;
      assert a[0] == b[0] by {
        var k :| 0 <= k < |b| && b[k] == a[0];
        var l :| 0 <= l < |a| && a[l] == b[0];
        assert a[0] <= a[l] && b[0] <= b[k];
      }
      forall d
        ensures d in a[1..] <==> d in b[1..]
      {
        if d in a[1..] {
          var k :| 1 <= k < |a| && a[k] == d;
          assert d != a[0];
          assert d in b;
          var l :| 0 <= l < |b| && b[l] == d;
          assert l != 0;
          assert b[1..][l - 1] == d;
        }
        if d in b[1..] {
          var k :| 1 <= k < |b| && b[k] == d;
          assert d != b[0];
          assert d in a;
          var l :| 0 <= l < |a| && a[l] == d;
          assert l != 0;
          assert a[1..][l - 1] == d;
        }
      }
      AscendingUnique(a[1..], b[1..]);
      assert a == [a[0]] + a[1..];
      assert b == [b[0]] + b[1..];
    }
  }

  /** Well-formed tables with the same labels, the same dates and the same row under every date are equal. */
  lemma TableExtensionality(a: Table, b: Table)
    requires WellFormed(a) && WellFormed(b) && a.labels == b.labels
    requires forall d :: d in a.dates <==> d in b.dates
    requires forall d :: d in a.dates ==> RowAt(a, d) == RowAt(b, d)
    ensures a == b
  {
    AscendingUnique(a.dates, b.dates);
    forall k | 0 <= k < |a.rows|
      ensures a.rows[k] == b.rows[k]
    {
      assert RowAt(a, a.dates[k]) == a.rows[k];
      assert RowAt(b, b.dates[k]) == b.rows[k];
    }
  }

  /** Slicing a slice whose range contains the second one is the second slice of the whole table. */
  lemma SliceOfSlice(t: Table, lo: Date, start: Date, hi: Date)
    requires WellFormed(t) && lo <= start
    ensures Slice(Slice(t, lo, hi), start, hi) == Slice(t, start, hi)
  {
    var wide := Slice(t, lo, hi);
    SliceSelectsRange(t, lo, hi);
    SliceSelectsRange(wide, start, hi);
    SliceSelectsRange(t, start, hi);
    TableExtensionality(Slice(wide, start, hi), Slice(t, start, hi));
  }
}
