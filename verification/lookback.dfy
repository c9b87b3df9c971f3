/** The Lookback Resolver: for every row of the current block, the row it is compared with.
    The source widens the block by the lookback window and takes `wide[len(wide) - len(cur) - 1 : -1]`. */
module Lookback {
  import opened Tables

  /** Python's normalisation of a slice bound `i` against a sequence of length `n`:
      a negative bound counts from the end, and the result is clamped to [0, n]. */
  function PyBound(i: int, n: nat): (b: nat)
    ensures b <= n
  {
    if i < 0 then (if i + n < 0 then 0 else i + n) else if i > n then n else i
  }

  /** A bound within reach counts from the front when non-negative and from the end when negative;
      one out of reach is clamped to the nearer end. */
  lemma PyBoundNormalises(i: int, n: nat)
    ensures -(n as int) <= i < 0 ==> PyBound(i, n) == i + n
    ensures 0 <= i <= n ==> PyBound(i, n) == i
    ensures i < -(n as int) ==> PyBound(i, n) == 0
    ensures n < i ==> PyBound(i, n) == n
  {
  }

  /** `s[start:stop]` with Python's bound rules. */
  function PySlice<T>(s: seq<T>, start: int, stop: int): (r: seq<T>)
    ensures |r| <= |s|
  {
    var a := PyBound(start, |s|);
    var b := PyBound(stop, |s|);
    if a < b then s[a..b] else []
  }

  /** The comparison rows for a current block of `m` rows: `wide[len(wide) - m - 1 : -1]`. */
  function Previous<T>(wide: seq<T>, m: nat): (prev: seq<T>)
    ensures |wide| > m ==> |prev| == m && forall i :: 0 <= i < m ==> prev[i] == wide[|wide| - m - 1 + i]
    ensures |wide| == m ==> prev == []
  {
    PySlice(wide, |wide| - m - 1, -1)
  }

  /** Some date of `ds` lies in the lookback window [lo, start). */
  predicate HasPrior(ds: seq<Date>, lo: Date, start: Date) {
    exists k :: 0 <= k < |ds| && lo <= ds[k] < start
  }

  /** A date at or after `x` is not among the dates a left search skips. */
  lemma LeftSearchUpTo(ds: seq<Date>, x: Date, k: nat)
    requires k < |ds| && x <= ds[k]
    ensures SearchLeft(ds, x) <= k
  {
  }

  /** In ascending dates, a date before `x` is among the dates a left search skips. */
  lemma LeftSearchPast(ds: seq<Date>, x: Date, k: nat)
    requires Ascending(ds) && k < |ds| && ds[k] < x
    ensures k < SearchLeft(ds, x)
  {
  }

  /** A left search for `start` skips at least one date of the lookback window, when it has one. */
  lemma PriorPosition(ds: seq<Date>, lo: Date, start: Date)
    requires Ascending(ds) && HasPrior(ds, lo, start)
    ensures SearchLeft(ds, lo) < SearchLeft(ds, start)
  {
    var k :| 0 <= k < |ds| && lo <= ds[k] < start;
    LeftSearchUpTo(ds, lo, k);
    LeftSearchPast(ds, start, k);
  }

  /** The latest date of `ds` before `start`, which lies in the window [lo, start). */
  function PriorDate(ds: seq<Date>, lo: Date, start: Date): (d: Date)
    requires Ascending(ds) && HasPrior(ds, lo, start)
    ensures d in ds && lo <= d < start
    ensures forall k :: 0 <= k < |ds| && ds[k] < start ==> ds[k] <= d
  {
    PriorPosition(ds, lo, start);
    ds[SearchLeft(ds, start) - 1]
  }

  /** With more rows in the widened block than in the current one, `prev[i]` is the row of the
      widened block immediately before `cur[i]`: no row of the block is dated strictly between them.
      From the second row on, that is simply the previous current row. */
  lemma PreviousIsPrecedingRow(wide: Table, cur: Table)
    requires WellFormed(wide) && |cur.dates| == |cur.rows|
    requires |wide.rows| > |cur.rows|
    requires cur.dates == wide.dates[|wide.dates| - |cur.dates|..]
    requires cur.rows == wide.rows[|wide.rows| - |cur.rows|..]
    ensures var prev := Previous(wide.rows, |cur.rows|);
      && |prev| == |cur.rows|
      && (forall i :: 0 < i < |cur.rows| ==> prev[i] == cur.rows[i - 1])
      && forall i :: 0 <= i < |cur.rows| ==>
          var p := |wide.rows| - |cur.rows| - 1 + i;
          && prev[i] == wide.rows[p]
          && wide.dates[p] < cur.dates[i]
          && forall k :: 0 <= k < |wide.dates| ==> !(wide.dates[p] < wide.dates[k] < cur.dates[i])
  {
    var n := |wide.rows|;
    var m := |cur.rows|;
    forall i | 0 <= i < m
      ensures forall k :: 0 <= k < n ==> !(wide.dates[n - m - 1 + i] < wide.dates[k] < cur.dates[i])
    {
      var p := n - m - 1 + i;
      assert cur.dates[i] == wide.dates[p + 1];
      forall k | 0 <= k < n
        ensures !(wide.dates[p] < wide.dates[k] < wide.dates[p + 1])
      {
        if k <= p {
        } else if k > p + 1 {
        }
      }
    }
  }

  /** With a non-empty current block, the widened block is longer exactly when some row
      lies in the lookback window [lo, start): otherwise no comparison row exists. */
  lemma HistoryIffPrior(t: Table, lo: Date, start: Date, hi: Date)
    requires WellFormed(t) && lo <= start
    ensures var wide := Slice(t, lo, hi); var cur := Slice(t, start, hi);
      |cur.rows| > 0 ==> (|wide.rows| > |cur.rows| <==> HasPrior(t.dates, lo, start))
  {
    var i1 := SearchLeft(t.dates, lo);
    var i2 := SearchLeft(t.dates, start);
    var j := SearchRight(t.dates, hi);
    assert i1 <= i2;
    if |Slice(t, start, hi).rows| > 0 {
      assert i2 < j;
      if i1 < i2 {
        assert lo <= t.dates[i1] < start;
      }
      if HasPrior(t.dates, lo, start) {
        var k :| 0 <= k < |t.dates| && lo <= t.dates[k] < start;
        assert i1 <= k < i2;
      }
    }
  }

  /** The latest prior date is the date just before the first one at or after `start`, and that
      date is not the first of the lookback window. */
  lemma PriorIndex(ds: seq<Date>, lo: Date, start: Date)
    requires Ascending(ds) && HasPrior(ds, lo, start)
    ensures var i1 := SearchLeft(ds, lo); var i2 := SearchLeft(ds, start);
      && i1 < i2
      && PriorDate(ds, lo, start) == ds[i2 - 1]
  {
    PriorPosition(ds, lo, start);
  }

  /** The row of the widened block just before the current block is the row of the latest date
      before `start`. */
  lemma PriorRow(t: Table, lo: Date, start: Date, hi: Date)
    requires WellFormed(t) && lo <= start
    requires |Slice(t, start, hi).rows| > 0 && HasPrior(t.dates, lo, start)
    ensures var wide := Slice(t, lo, hi); var m := |Slice(t, start, hi).rows|;
      && |wide.rows| > m
      && wide.rows[|wide.rows| - m - 1] == RowAt(t, PriorDate(t.dates, lo, start))
  {
    PriorIndex(t.dates, lo, start);
    var i1 := SearchLeft(t.dates, lo);
    var i2 := SearchLeft(t.dates, start);
    var j := SearchRight(t.dates, hi);
    var wide := Slice(t, lo, hi);
    assert i2 < j && |Slice(t, start, hi).rows| == j - i2;
    assert wide.rows == t.rows[i1..j];
    assert wide.rows[i2 - 1 - i1] == t.rows[i2 - 1];
  }

  /** The first comparison row is the row of the latest date before `start`. */
  lemma FirstComparisonIsPriorRow(t: Table, lo: Date, start: Date, hi: Date)
    requires WellFormed(t) && lo <= start
    requires |Slice(t, start, hi).rows| > 0 && HasPrior(t.dates, lo, start)
    ensures var wide := Slice(t, lo, hi); var m := |Slice(t, start, hi).rows|;
      && |wide.rows| > m
      && Previous(wide.rows, m)[0] == RowAt(t, PriorDate(t.dates, lo, start))
  {
    PriorRow(t, lo, start, hi);
  }

  /** The first comparison row is dated at the latest date before `start`. */
  lemma FirstComparisonDate(t: Table, lo: Date, start: Date, hi: Date)
    requires WellFormed(t) && lo <= start
    requires |Slice(t, start, hi).rows| > 0 && HasPrior(t.dates, lo, start)
    ensures var wide := Slice(t, lo, hi); var m := |Slice(t, start, hi).rows|;
      && |wide.dates| > m
      && wide.dates[|wide.dates| - m - 1] == PriorDate(t.dates, lo, start)
  {
    PriorIndex(t.dates, lo, start);
    var i1 := SearchLeft(t.dates, lo);
    var i2 := SearchLeft(t.dates, start);
    var j := SearchRight(t.dates, hi);
    var wide := Slice(t, lo, hi);
    var m := |Slice(t, start, hi).rows|;
    assert i2 < j && m == j - i2;
    assert wide.dates == t.dates[i1..j];
    assert wide.dates[|wide.dates| - m - 1] == t.dates[i2 - 1];
  }

  /** A window that reaches up to `start` or beyond holds a prior row exactly when the whole table does. */
  lemma PriorWithinSlice(t: Table, lo: Date, start: Date, hi: Date)
    requires WellFormed(t) && lo <= start <= hi
    ensures HasPrior(Slice(t, lo, hi).dates, lo, start) <==> HasPrior(t.dates, lo, start)
  {
    var w := Slice(t, lo, hi);
    SliceDates(t, lo, hi);
    if HasPrior(t.dates, lo, start) {
      var k :| 0 <= k < |t.dates| && lo <= t.dates[k] < start;
      assert t.dates[k] in w.dates;
    }
    if HasPrior(w.dates, lo, start) {
      var k :| 0 <= k < |w.dates| && lo <= w.dates[k] < start;
      assert w.dates[k] in t.dates;
    }
  }

  /** ... and the latest prior row of the window is the latest prior row of the table. */
  lemma PriorDateWithinSlice(t: Table, lo: Date, start: Date, hi: Date)
    requires WellFormed(t) && lo <= start <= hi && HasPrior(t.dates, lo, start)
    ensures WellFormed(Slice(t, lo, hi)) && HasPrior(Slice(t, lo, hi).dates, lo, start)
    ensures PriorDate(Slice(t, lo, hi).dates, lo, start) == PriorDate(t.dates, lo, start)
  {
    var w := Slice(t, lo, hi);
    PriorWithinSlice(t, lo, start, hi);
    SliceSelectsRange(t, lo, hi);
    var d := PriorDate(t.dates, lo, start);
    assert d in w.dates;
    var e := PriorDate(w.dates, lo, start);
    assert e in t.dates;
  }
}
