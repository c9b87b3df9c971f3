/** The Weight Aligner: weight rows left-joined onto the dates of the current block, with each
    missing cell filled by the mean of its column over the joined rows; for the currency variant,
    asset weights are first summed per settlement currency. */
module Weights {
  import opened Results
  import opened Tables
  import opened Labels
  import opened Returns

  /** A joined cell: a weight, or nothing when the weight table has no row on that date. */
  type Cell = Option<real>

  /** Left outer join of the weight rows onto `dates`: the weight row of each date, or a row of gaps. */
  function LeftJoin(dates: seq<Date>, ws: Table): (j: seq<seq<Cell>>)
    requires WellFormed(ws)
    ensures |j| == |dates|
    ensures forall t :: 0 <= t < |j| ==> |j[t]| == |ws.labels|
    ensures forall t, c :: 0 <= t < |j| && 0 <= c < |ws.labels| ==>
      j[t][c] == if dates[t] in ws.dates then Some(RowAt(ws, dates[t])[c]) else None
  {
    seq(|dates|, t requires 0 <= t < |dates| =>
      if dates[t] in ws.dates then
        var row := RowAt(ws, dates[t]);
        seq(|ws.labels|, c requires 0 <= c < |ws.labels| => Some(row[c]))
      else
        seq(|ws.labels|, c => None))
  }

  /** Column `c` of a matrix: joined cells or filled weights. */
  function Column<T>(m: seq<seq<T>>, c: nat): (col: seq<T>)
    requires forall t :: 0 <= t < |m| ==> c < |m[t]|
    ensures |col| == |m| && forall t :: 0 <= t < |m| ==> col[t] == m[t][c]
  {
    seq(|m|, t requires 0 <= t < |m| => m[t][c])
  }

  /** The number of cells of `col` that hold a weight. */
  function Present(col: seq<Cell>): (n: nat)
    ensures n <= |col|
  {
    if |col| == 0 then 0 else (if col[0].Some? then 1 else 0) + Present(col[1..])
  }

  /** The sum of the weights `col` holds. */
  function PresentSum(col: seq<Cell>): real {
    if |col| == 0 then 0.0 else (if col[0].Some? then col[0].value else 0.0) + PresentSum(col[1..])
  }

  /** pandas' `mean()` of a column: the average of its present values, gaps skipped. */
  function ColumnMean(col: seq<Cell>): (mean: real)
    requires Present(col) > 0
    ensures 0.0 <= PresentSum(col) <==> 0.0 <= mean
  {
    PresentSum(col) / (Present(col) as real)
  }

  /** Present values of at least `lo` sum to at least `lo` times their count. */
  lemma {:induction false} PresentSumAtLeast(col: seq<Cell>, lo: real)
    requires forall t :: 0 <= t < |col| && col[t].Some? ==> lo <= col[t].value
    ensures lo * (Present(col) as real) <= PresentSum(col)
  {
    if |col| > 0 {
      var rest := col[1..];
      assert forall t :: 0 <= t < |rest| ==> rest[t] == col[t + 1];
      PresentSumAtLeast(rest, lo);
      var p := Present(rest) as real;
      if col[0].Some? {
        assert Present(col) as real == p + 1.0;
        assert lo * (p + 1.0) == lo * p + lo;
      }
    }
  }

  /** Non-negative weights have a non-negative mean. */
  lemma NonNegativeMean(col: seq<Cell>)
    requires Present(col) > 0
    requires forall t :: 0 <= t < |col| && col[t].Some? ==> 0.0 <= col[t].value
    ensures 0.0 <= ColumnMean(col)
  {
    PresentSumAtLeast(col, 0.0);
  }

  /** A column has no weight at all exactly when every cell is a gap. */
  lemma {:induction false} NoneMeansAllGaps(col: seq<Cell>)
    ensures Present(col) == 0 <==> forall t :: 0 <= t < |col| ==> col[t].None?
  {
    if |col| > 0 {
      NoneMeansAllGaps(col[1..]);
      assert forall t :: 1 <= t < |col| ==> col[t] == col[1..][t - 1];
    }
  }

  /** `col` with every gap replaced by `v`. */
  function FillColumn(col: seq<Cell>, v: real): (r: seq<real>)
    ensures |r| == |col|
  {
    seq(|col|, t requires 0 <= t < |col| => if col[t].Some? then col[t].value else v)
  }

  /** `w.fillna(w.mean())`: each gap becomes the mean of its column's present values. A column
      with a gap and no value at all has no mean (pandas leaves NaN there); that is reported. */
  function FillMissing(m: seq<seq<Cell>>, width: nat): (r: Result<seq<seq<real>>>)
    requires forall t :: 0 <= t < |m| ==> |m[t]| == width
    ensures r.Err? <==> |m| > 0 && exists c :: 0 <= c < width && Present(Column(m, c)) == 0
    ensures r.Err? ==> r.error == NoWeightData
    ensures r.Ok? ==> Shaped(r.value, |m|, width)
    ensures r.Ok? ==> forall t, c :: 0 <= t < |m| && 0 <= c < width && m[t][c].Some? ==>
      r.value[t][c] == m[t][c].value
    ensures r.Ok? ==> forall t, c :: 0 <= t < |m| && 0 <= c < width && m[t][c].None? ==>
      Present(Column(m, c)) > 0 && r.value[t][c] == ColumnMean(Column(m, c))
  {
    if |m| > 0 && exists c :: 0 <= c < width && Present(Column(m, c)) == 0 then Err(NoWeightData)
    else
      Ok(seq(|m|, t requires 0 <= t < |m| =>
        seq(width, c requires 0 <= c < width =>
          match m[t][c]
          case Some(v) => v
          case None => ColumnMean(Column(m, c)))))
  }

  /** Filling with `v` adds `v` once per gap to the sum of the present values. */
  lemma {:induction false} FillColumnSum(col: seq<Cell>, v: real)
    ensures Total(FillColumn(col, v)) == PresentSum(col) + (|col| - Present(col)) as real * v
  {
    if |col| > 0 {
      FillColumnSum(col[1..], v);
      assert FillColumn(col, v)[1..] == FillColumn(col[1..], v);
    }
  }

  /** `p` values averaging `mean`, plus `n - p` copies of `mean`, still average `mean`. */
  lemma {:induction false} MeanOfPadded(total: real, sum: real, p: nat, n: nat, mean: real)
    requires 0 < p <= n && mean == sum / (p as real) && total == sum + (n - p) as real * mean
    ensures total / (n as real) == mean
  {
    assert sum == (p as real) * mean;
    assert sum + (n - p) as real * mean == (n as real) * mean;
  }

  /** A column padded with its own mean averages that mean. */
  lemma {:induction false} FillColumnMean(col: seq<Cell>)
    requires Present(col) > 0
    ensures Total(FillColumn(col, ColumnMean(col))) / (|col| as real) == ColumnMean(col)
  {
    var mean := ColumnMean(col);
    FillColumnSum(col, mean);
    MeanOfPadded(Total(FillColumn(col, mean)), PresentSum(col), Present(col), |col|, mean);
  }

  /** Column `c` of the filled matrix is column `c` of the joined matrix padded with its mean. */
  lemma {:induction false} FilledColumn(m: seq<seq<Cell>>, width: nat, c: nat)
    requires forall t :: 0 <= t < |m| ==> |m[t]| == width
    requires FillMissing(m, width).Ok? && c < width && |m| > 0
    ensures Present(Column(m, c)) > 0
    ensures Column(FillMissing(m, width).value, c) == FillColumn(Column(m, c), ColumnMean(Column(m, c)))
  {
    var filled := FillMissing(m, width).value;
    var col := Column(m, c);
    assert Present(col) > 0;
    var mean := ColumnMean(col);
    forall t | 0 <= t < |m|
      ensures Column(filled, c)[t] == FillColumn(col, mean)[t]
    {
      assert col[t] == m[t][c];
    }
  }

  /** Mean imputation keeps the column mean: after filling, the average over all rows is the
      average of the values that were present. */
  lemma {:induction false} FillKeepsMean(m: seq<seq<Cell>>, width: nat, c: nat)
    requires forall t :: 0 <= t < |m| ==> |m[t]| == width
    requires FillMissing(m, width).Ok? && c < width && |m| > 0
    ensures Present(Column(m, c)) > 0
    ensures Total(Column(FillMissing(m, width).value, c)) / (|m| as real) == ColumnMean(Column(m, c))
  {
    FilledColumn(m, width, c);
    FillColumnMean(Column(m, c));
  }

  /** Every cell of `w`, as a present joined cell. */
  function Lift(w: seq<seq<real>>): (m: seq<seq<Cell>>)
    ensures |m| == |w| && forall t :: 0 <= t < |w| ==> |m[t]| == |w[t]|
  {
    seq(|w|, t requires 0 <= t < |w| => seq(|w[t]|, c requires 0 <= c < |w[t]| => Some(w[t][c])))
  }

  /** A column without gaps holds as many values as rows. */
  lemma {:induction false} FullColumnPresent(col: seq<Cell>)
    requires forall t :: 0 <= t < |col| ==> col[t].Some?
    ensures Present(col) == |col|
  {
    if |col| > 0 {
      FullColumnPresent(col[1..]);
    }
  }

  /** Filling a matrix without gaps changes nothing, so imputation is idempotent. */
  lemma FillCompleteIsIdentity(w: seq<seq<real>>, width: nat)
    requires Shaped(w, |w|, width)
    ensures FillMissing(Lift(w), width) == Ok(w)
  {
    var m := Lift(w);
    forall c | 0 <= c < width
      ensures Present(Column(m, c)) == |m|
    {
      FullColumnPresent(Column(m, c));
    }
    var r := FillMissing(m, width);
    assert r.Ok?;
    forall t | 0 <= t < |w|
      ensures r.value[t] == w[t]
    {
      assert forall c :: 0 <= c < width ==> m[t][c] == Some(w[t][c]);
    }
    assert r.value == w;
  }

  /** A joined column has no weight exactly when no date of the block has a weight row. */
  lemma JoinedColumnsEmpty(dates: seq<Date>, ws: Table)
    requires WellFormed(ws)
    ensures forall c :: 0 <= c < |ws.labels| ==>
      (Present(Column(LeftJoin(dates, ws), c)) == 0 <==> forall t :: 0 <= t < |dates| ==> dates[t] !in ws.dates)
  {
    var j := LeftJoin(dates, ws);
    forall c | 0 <= c < |ws.labels|
      ensures Present(Column(j, c)) == 0 <==> forall t :: 0 <= t < |dates| ==> dates[t] !in ws.dates
    {
      var col := Column(j, c);
      NoneMeansAllGaps(col);
      assert forall t :: 0 <= t < |dates| ==> (col[t].None? <==> dates[t] !in ws.dates);
    }
  }

  /** `w` holds one row per date of `dates` and one column per weight label: the weight stored on
      that date where `ws` has a row for it, and otherwise the column's mean over the joined rows. */
  predicate FilledFrom(dates: seq<Date>, ws: Table, w: seq<seq<real>>)
    requires WellFormed(ws)
  {
    && Shaped(w, |dates|, |ws.labels|)
    && (forall t, c :: 0 <= t < |dates| && 0 <= c < |ws.labels| && dates[t] in ws.dates ==>
          w[t][c] == RowAt(ws, dates[t])[c])
    && (forall t, c :: 0 <= t < |dates| && 0 <= c < |ws.labels| && dates[t] !in ws.dates ==>
          var col := Column(LeftJoin(dates, ws), c);
          Present(col) > 0 && w[t][c] == ColumnMean(col))
  }

  /** The weight matrix of the current block: weights joined onto `dates`, gaps filled by column means
      over the joined rows. */
  function AlignWeights(dates: seq<Date>, ws: Table): (r: Result<seq<seq<real>>>)
    requires WellFormed(ws)
    ensures r.Err? ==> r.error == NoWeightData
    ensures r.Ok? ==> Shaped(r.value, |dates|, |ws.labels|)
    ensures r.Err? <==> |dates| > 0 && |ws.labels| > 0 && forall t :: 0 <= t < |dates| ==> dates[t] !in ws.dates
    ensures r.Ok? ==> FilledFrom(dates, ws, r.value)
  {
    JoinedColumnsEmpty(dates, ws);
    var j := LeftJoin(dates, ws);
    assert |ws.labels| > 0 && (forall t :: 0 <= t < |dates| ==> dates[t] !in ws.dates) ==> Present(Column(j, 0)) == 0;
    FillMissing(j, |ws.labels|)
  }

  /** The weights of one row summed over the columns labelled `key`; a label no column carries
      gets weight zero. */
  function GroupSum(row: seq<real>, labels: seq<Label>, key: Label): (g: real)
    requires |row| == |labels|
    ensures key !in labels ==> g == 0.0
  {
    if |row| == 0 then 0.0 else (if labels[0] == key then row[0] else 0.0) + GroupSum(row[1..], labels[1..], key)
  }

  /** `w[keys].groupby(level=0, axis=1).sum()` with the groups taken in the order of `keys`:
      column `k` holds, per date, the sum of the weight columns labelled `keys[k]`. */
  function GroupByCurrency(ws: Table, keys: seq<Label>): (g: Table)
    requires WellFormed(ws)
    ensures WellFormed(g) && g.labels == keys && g.dates == ws.dates
    ensures forall t, k :: 0 <= t < |g.rows| && 0 <= k < |keys| ==>
      g.rows[t][k] == GroupSum(ws.rows[t], ws.labels, keys[k])
  {
    Table(keys, ws.dates,
      seq(|ws.rows|, t requires 0 <= t < |ws.rows| =>
        seq(|keys|, k requires 0 <= k < |keys| => GroupSum(ws.rows[t], ws.labels, keys[k]))))
  }

  /** The grouped row of every date holds, per key, the group sum of that date's weight row. */
  lemma GroupedRows(ws: Table, keys: seq<Label>)
    requires WellFormed(ws)
    ensures var g := GroupByCurrency(ws, keys);
      && (forall d :: d in g.dates <==> d in ws.dates)
      && forall d, k :: d in ws.dates && 0 <= k < |keys| ==>
           RowAt(g, d)[k] == GroupSum(RowAt(ws, d), ws.labels, keys[k])
  {
    var g := GroupByCurrency(ws, keys);
    forall d, k | d in ws.dates && 0 <= k < |keys|
      ensures RowAt(g, d)[k] == GroupSum(RowAt(ws, d), ws.labels, keys[k])
    {
      var i :| 0 <= i < |ws.dates| && ws.dates[i] == d;
      assert g.dates[i] == d;
      assert RowAt(g, d) == g.rows[i] && RowAt(ws, d) == ws.rows[i];
    }
  }

  /** A label that heads exactly one column keeps that column's weight. */
  lemma {:induction false} GroupSumSingle(row: seq<real>, labels: seq<Label>, c: nat)
    requires |row| == |labels| && c < |labels|
    requires forall k :: 0 <= k < |labels| && k != c ==> labels[k] != labels[c]
    ensures GroupSum(row, labels, labels[c]) == row[c]
  {
    if c == 0 {
      assert labels[0] !in labels[1..] by {
        forall k | 0 <= k < |labels| - 1 ensures labels[1..][k] != labels[0] {
          assert labels[1..][k] == labels[k + 1];
        }
      }
    } else {
      GroupSumSingle(row[1..], labels[1..], c - 1);
    }
  }

  /** The weights of one row over the columns whose label is one of `keys`. */
  function WeightAmong(row: seq<real>, labels: seq<Label>, keys: seq<Label>): real
    requires |row| == |labels|
  {
    if |row| == 0 then 0.0 else (if labels[0] in keys then row[0] else 0.0) + WeightAmong(row[1..], labels[1..], keys)
  }

  /** The grouped weights of one row, summed over all groups. */
  function GroupTotal(row: seq<real>, labels: seq<Label>, keys: seq<Label>): real
    requires |row| == |labels|
  {
    if |keys| == 0 then 0.0 else GroupSum(row, labels, keys[0]) + GroupTotal(row, labels, keys[1..])
  }

  /** Splitting off one key splits the weight among the keys into that key's group and the rest. */
  lemma {:induction false} WeightAmongSplit(row: seq<real>, labels: seq<Label>, keys: seq<Label>)
    requires |row| == |labels| && |keys| > 0 && keys[0] !in keys[1..]
    ensures WeightAmong(row, labels, keys) == GroupSum(row, labels, keys[0]) + WeightAmong(row, labels, keys[1..])
  {
    if |row| > 0 {
      WeightAmongSplit(row[1..], labels[1..], keys);
      assert labels[0] in keys <==> labels[0] == keys[0] || labels[0] in keys[1..];
    }
  }

  /** Grouping conserves weight: over distinct keys, the group sums add up to the weight
      of all the columns labelled with one of the keys. */
  lemma {:induction false} GroupConservation(row: seq<real>, labels: seq<Label>, keys: seq<Label>)
    requires |row| == |labels| && Distinct(keys)
    ensures GroupTotal(row, labels, keys) == WeightAmong(row, labels, keys)
    decreases |keys|
  {
    if |keys| == 0 {
      WeightAmongNone(row, labels, keys);
    } else {
      assert keys[0] !in keys[1..];
      assert Distinct(keys[1..]);
      GroupConservation(row, labels, keys[1..]);
      WeightAmongSplit(row, labels, keys);
    }
  }

  /** No keys, no weight. */
  lemma {:induction false} WeightAmongNone(row: seq<real>, labels: seq<Label>, keys: seq<Label>)
    requires |row| == |labels| && |keys| == 0
    ensures WeightAmong(row, labels, keys) == 0.0
  {
    if |row| > 0 {
      WeightAmongNone(row[1..], labels[1..], keys);
    }
  }

  /** The currency weights as the source pairs them: the group-by emits its groups in sorted
      label order, and the source renumbers them and multiplies them with the exchange-rate
      columns by position. Column `k` therefore holds the `k`-th smallest label's group. */
  function GroupByPosition(ws: Table, keys: seq<Label>): (g: Table)
    requires WellFormed(ws) && Distinct(keys)
    ensures WellFormed(g) && g.labels == keys && g.dates == ws.dates
  {
    Table(keys, ws.dates, GroupByCurrency(ws, SortKeys(keys)).rows)
  }

  /** Pairing by position agrees with pairing by label when the exchange-rate columns are in sorted order. */
  lemma PositionalPairingIsByLabel(ws: Table, keys: seq<Label>)
    requires WellFormed(ws) && Distinct(keys) && StrictlySorted(keys)
    ensures GroupByPosition(ws, keys) == GroupByCurrency(ws, keys)
  {
    SortKeysIdentity(keys);
  }

  /** With distinct exchange-rate columns out of sorted order, some column receives another currency's group. */
  lemma PositionalPairingMislabels(keys: seq<Label>)
    requires Distinct(keys) && !StrictlySorted(keys)
    ensures exists k :: 0 <= k < |keys| && SortKeys(keys)[k] != keys[k]
  {
    SortKeysIdentity(keys);
    assert |SortKeys(keys)| == |keys| && SortKeys(keys) != keys;
  }

  /** Rate columns `USD, EUR` with weights EUR 1 and USD 0: by position the USD return gets weight 1. */
  lemma PositionalPairingMisplaces()
    ensures var ws := Table(["EUR", "USD"], [0], [[1.0, 0.0]]);
      && GroupByPosition(ws, ["USD", "EUR"]).rows[0][0] == 1.0
      && GroupByCurrency(ws, ["USD", "EUR"]).rows[0][0] == 0.0
  {
    var ws := Table(["EUR", "USD"], [0], [[1.0, 0.0]]);
    assert Below("EUR", "USD");
    assert Insert("USD", ["EUR"]) == ["EUR", "USD"];
    assert SortKeys(["USD", "EUR"]) == ["EUR", "USD"] by {
      assert ["USD", "EUR"][1..] == ["EUR"];
      assert SortKeys(["EUR"]) == ["EUR"];
    }
    assert GroupSum([1.0, 0.0], ["EUR", "USD"], "EUR") == 1.0;
    assert GroupSum([1.0, 0.0], ["EUR", "USD"], "USD") == 0.0;
  }
}
