/** The three performance queries. Each slices a current block [start, end + 1 day] and a widened
    block that reaches back `lookback` days further, pairs every current row with the row before it,
    blends the per-column simple returns with the aligned weights and compounds the result. */
module Performance {
  import opened Results
  import opened Tables
  import opened Lookback
  import opened Weights
  import opened Returns

  /** The loaded data: asset prices and weights (both with one column per asset, labelled by the
      asset's currency) and exchange rates (one column per settlement currency). */
  datatype Store = Store(prices: Table, exchanges: Table, weights: Table)

  /** What loading guarantees: sorted dates, rectangular tables, weights in the price column order,
      and exchange-rate columns with distinct names. */
  predicate Valid(s: Store) {
    && WellFormed(s.prices)
    && WellFormed(s.exchanges)
    && WellFormed(s.weights)
    && s.weights.labels == s.prices.labels
    && Distinct(s.exchanges.labels)
  }

  /** `cur` is the tail of `wide`, as the current block is of the widened one. */
  predicate Comparable(wide: Table, cur: Table) {
    && WellFormed(wide)
    && WellFormed(cur)
    && wide.labels == cur.labels
    && |cur.rows| <= |wide.rows|
    && cur.dates == wide.dates[|wide.dates| - |cur.dates|..]
    && cur.rows == wide.rows[|wide.rows| - |cur.rows|..]
  }

  /** Aligned weights: one row per current row and one cell per column, or the one failure alignment has. */
  predicate Weighs(weights: Result<seq<seq<real>>>, cur: Table) {
    && (weights.Ok? ==> Shaped(weights.value, |cur.rows|, |cur.labels|))
    && (weights.Err? ==> weights.error == NoWeightData)
  }

  /** The comparison rows, the blend and the compounding shared by the three queries. */
  function Engine(wide: Table, cur: Table, weights: Result<seq<seq<real>>>): (r: Result<seq<real>>)
    requires Comparable(wide, cur) && Weighs(weights, cur)
    ensures r == Err(InsufficientHistory) <==> |cur.rows| >= 2 && |wide.rows| == |cur.rows|
    ensures r.Err? ==> r.error == InsufficientHistory || r.error == ZeroDenominator || r.error == NoWeightData
    ensures r.Err? && r.error == NoWeightData ==> weights.Err?
    ensures r.Ok? <==>
      if |wide.rows| == |cur.rows| then |cur.rows| <= 1
      else weights.Ok? && forall p :: |wide.rows| - |cur.rows| - 1 <= p < |wide.rows| - 1 ==> NonZero(wide.rows[p])
    ensures r.Ok? ==> |r.value| == if |wide.rows| > |cur.rows| then |cur.rows| else 0
  {
    var n := |wide.rows|;
    var m := |cur.rows|;
    var prev := Previous(wide.rows, m);
    if n == m then
      if m <= 1 then Ok([]) else Err(InsufficientHistory)
    else if weights.Err? then
      Err(weights.error)
    else if !(forall p :: n - m - 1 <= p < n - 1 ==> NonZero(wide.rows[p])) then
      Err(ZeroDenominator)
    else
      assert forall t :: 0 <= t < m ==> prev[t] == wide.rows[n - m - 1 + t];
      Ok(Compound(PeriodReturns(cur.rows, prev, weights.value)))
  }

  /** An empty current block compares nothing: the index is empty whenever the weights aligned.
      A single current row with no row before it is broadcast against no comparison rows: the
      index is empty whatever the weights. */
  lemma EmptyBlockIsEmptyIndex(wide: Table, cur: Table, weights: Result<seq<seq<real>>>)
    requires Comparable(wide, cur) && Weighs(weights, cur)
    ensures |cur.rows| == 0 && weights.Ok? ==> Engine(wide, cur, weights) == Ok([])
    ensures |cur.rows| == 1 && |wide.rows| == 1 ==> Engine(wide, cur, weights) == Ok([])
  {
    var r := Engine(wide, cur, weights);
    if |cur.rows| == 0 && weights.Ok? {
      assert r.Ok? && |r.value| == 0;
    }
    if |cur.rows| == 1 && |wide.rows| == 1 {
      assert r.Ok? && |r.value| == 0;
    }
  }

  /** Period `i` of the index: it compares `used[i + 1]` with `used[i]`, and value `i` is the value
      before it grown by that period's blended return. */
  predicate GrowsAt(out: seq<real>, used: seq<seq<real>>, w: seq<seq<real>>, i: nat)
    requires i < |out| && |used| == |out| + 1 && |w| == |out|
  {
    && |used[i + 1]| == |used[i]| == |w[i]|
    && NonZero(used[i])
    && out[i] == Grow(Before(out, i), Blend(used[i + 1], used[i], w[i]))
  }

  /** `out` is the index the source's loop builds over the consecutive rows of `used` (the row before
      the current block, then the block), period by period. */
  predicate Grows(out: seq<real>, used: seq<seq<real>>, w: seq<seq<real>>) {
    && |used| == |out| + 1
    && |w| == |out|
    && forall i :: 0 <= i < |out| ==> GrowsAt(out, used, w, i)
  }

  /** Compounding the blended returns of every pair of consecutive rows grows the index through them. */
  lemma {:induction false} CompoundGrows(used: seq<seq<real>>, w: seq<seq<real>>)
    requires |used| == |w| + 1
    requires forall t :: 0 <= t < |w| ==> |used[t + 1]| == |used[t]| == |w[t]| && NonZero(used[t])
    ensures Grows(Compound(PeriodReturns(used[1..], used[..|w|], w)), used, w)
  {
    var rs := PeriodReturns(used[1..], used[..|w|], w);
    var out := Compound(rs);
    forall i | 0 <= i < |out|
      ensures GrowsAt(out, used, w, i)
    {
      CompoundStep(rs, i);
      assert used[1..][i] == used[i + 1] && used[..|w|][i] == used[i];
    }
  }

  /** With a row before the current block, the engine's result grows through that row and the block. */
  lemma EngineRecurrence(wide: Table, cur: Table, weights: Result<seq<seq<real>>>, used: seq<seq<real>>)
    requires Comparable(wide, cur) && Weighs(weights, cur)
    requires |wide.rows| > |cur.rows| && Engine(wide, cur, weights).Ok?
    requires wide.rows[|wide.rows| - |cur.rows| - 1..] == used
    ensures weights.Ok?
    ensures Grows(Engine(wide, cur, weights).value, used, weights.value)
  {
    var n := |wide.rows|;
    var m := |cur.rows|;
    var prev := Previous(wide.rows, m);
    assert prev == used[..m];
    assert cur.rows == used[1..];
    forall t | 0 <= t < m
      ensures |used[t + 1]| == |used[t]| == |weights.value[t]| && NonZero(used[t])
    {
      assert used[t] == wide.rows[n - m - 1 + t];
    }
    assert Engine(wide, cur, weights) == Ok(Compound(PeriodReturns(used[1..], used[..m], weights.value)));
    CompoundGrows(used, weights.value);
  }

  /** The query's date arithmetic: the current block ends one day after `end`, the widened block
      starts `lookback` days before `start`. */
  function High(end: Date): (hi: Date)
    ensures end < hi && hi - Day == end
  {
    end + Day
  }
  function Low(start: Date, lookback: nat): (lo: Date)
    ensures lo <= start
  {
    start - lookback
  }

  /** The source's five-day window reaches over a weekend: when the latest price before `start` is
      at most three days old (a Friday before a Monday start), the query has an earlier row, and
      the row it compares the first day with is no older than that price. */
  lemma DefaultWindowCoversWeekend(ds: seq<Date>, start: Date, d: Date)
    requires Ascending(ds) && d in ds && start - 3 * Day <= d < start
    ensures HasPrior(ds, Low(start, DefaultLookback), start)
    ensures d <= PriorDate(ds, Low(start, DefaultLookback), start)
  {
    var k :| 0 <= k < |ds| && ds[k] == d;
  }

  /** The widened and current blocks of `t`, proved comparable. */
  lemma Blocks(t: Table, start: Date, end: Date, lookback: nat)
    requires WellFormed(t)
    ensures Comparable(Slice(t, Low(start, lookback), High(end)), Slice(t, start, High(end)))
  {
    SliceSelectsRange(t, Low(start, lookback), High(end));
    SliceSelectsRange(t, start, High(end));
    SliceSuffix(t, Low(start, lookback), start, High(end));
  }

  /** The weights of the current block of `s`: the weight rows dated in the block, left-joined onto
      the block's dates and gap-filled with column means. */
  function AssetWeights(s: Store, cur: Table, start: Date, end: Date): (w: Result<seq<seq<real>>>)
    requires Valid(s) && |cur.dates| == |cur.rows| && cur.labels == s.prices.labels
    ensures Weighs(w, cur)
    ensures w.Err? <==>
      && |cur.dates| > 0
      && |cur.labels| > 0
      && forall t :: 0 <= t < |cur.dates| ==> !(cur.dates[t] in s.weights.dates && start <= cur.dates[t] <= High(end))
    ensures w.Ok? ==> forall t, c ::
      0 <= t < |cur.dates| && 0 <= c < |cur.labels| && cur.dates[t] in s.weights.dates && start <= cur.dates[t] <= High(end)
      ==> w.value[t][c] == RowAt(s.weights, cur.dates[t])[c]
    ensures WellFormed(Slice(s.weights, start, High(end)))
    ensures w.Ok? ==> FilledFrom(cur.dates, Slice(s.weights, start, High(end)), w.value)
  {
    var ws := Slice(s.weights, start, High(end));
    SliceSelectsRange(s.weights, start, High(end));
    AlignWeights(cur.dates, ws)
  }

  /** `calculate_asset_performance`: the weighted performance of the asset prices. */
  function AssetPerformance(s: Store, start: Date, end: Date, lookback: nat): (r: Result<seq<real>>)
    requires Valid(s)
    ensures var lo := Low(start, lookback); var m := |Slice(s.prices, start, High(end)).rows|;
      && (r == Err(InsufficientHistory) <==> m >= 2 && !HasPrior(s.prices.dates, lo, start))
      && (r.Ok? ==> |r.value| == if HasPrior(s.prices.dates, lo, start) then m else 0)
      && (r.Err? ==> r.error == InsufficientHistory || r.error == NoWeightData || r.error == ZeroDenominator)
    ensures |Slice(s.prices, start, High(end)).rows| == 0 ==> r == Ok([])
    ensures |Slice(s.prices, start, High(end)).rows| == 1 && !HasPrior(s.prices.dates, Low(start, lookback), start) ==>
      r == Ok([])
    ensures var lo := Low(start, lookback); var cur := Slice(s.prices, start, High(end));
      HasPrior(s.prices.dates, lo, start) && |Slice(s.prices, start, High(end)).rows| > 0 ==>
        && (r.Ok? <==> AssetWeights(s, cur, start, end).Ok? && DivisorsNonZero(s.prices, lo, start, High(end)))
        && (r == Err(NoWeightData) <==> AssetWeights(s, cur, start, end).Err?)
  {
    var lo := Low(start, lookback);
    var wide := Slice(s.prices, lo, High(end));
    var cur := Slice(s.prices, start, High(end));
    Blocks(s.prices, start, end, lookback);
    HistoryIffPrior(s.prices, lo, start, High(end));
    var w := AssetWeights(s, cur, start, end);
    EmptyBlockIsEmptyIndex(wide, cur, w);
    EngineOutcome(s.prices, lo, start, High(end), w);
    Engine(wide, cur, w)
  }

  /** For any table queried with a non-empty current block and a row in the lookback window, the
      engine's index grows from the latest row before `start` through the current block. */
  lemma BlocksRecurrence(t: Table, lo: Date, start: Date, hi: Date, w: Result<seq<seq<real>>>)
    requires WellFormed(t) && lo <= start && HasPrior(t.dates, lo, start)
    requires Comparable(Slice(t, lo, hi), Slice(t, start, hi))
    requires |Slice(t, start, hi).rows| > 0 && Weighs(w, Slice(t, start, hi))
    requires Engine(Slice(t, lo, hi), Slice(t, start, hi), w).Ok?
    ensures w.Ok?
    ensures Grows(Engine(Slice(t, lo, hi), Slice(t, start, hi), w).value,
                  [RowAt(t, PriorDate(t.dates, lo, start))] + Slice(t, start, hi).rows, w.value)
  {
    PriorThenBlock(t, lo, start, hi);
    EngineRecurrence(Slice(t, lo, hi), Slice(t, start, hi), w, [RowAt(t, PriorDate(t.dates, lo, start))] + Slice(t, start, hi).rows);
  }

  /** The rows the engine compares: the latest row before `start`, then the current block. */
  lemma PriorThenBlock(t: Table, lo: Date, start: Date, hi: Date)
    requires WellFormed(t) && lo <= start && HasPrior(t.dates, lo, start)
    requires |Slice(t, start, hi).rows| > 0
    ensures var wide := Slice(t, lo, hi); var cur := Slice(t, start, hi);
      && |wide.rows| > |cur.rows|
      && wide.rows[|wide.rows| - |cur.rows| - 1..] == [RowAt(t, PriorDate(t.dates, lo, start))] + cur.rows
  {
    var wide := Slice(t, lo, hi);
    var cur := Slice(t, start, hi);
    var n := |wide.rows|;
    var m := |cur.rows|;
    SliceSuffix(t, lo, start, hi);
    PriorRow(t, lo, start, hi);
    ConsSuffix(wide.rows, n - m - 1, RowAt(t, PriorDate(t.dates, lo, start)), cur.rows);
  }

  /** Every row but the last is free of zeros: the rows a run of consecutive periods divides by. */
  predicate DivisorRows(rows: seq<seq<real>>) {
    forall k :: 0 <= k < |rows| - 1 ==> NonZero(rows[k])
  }

  /** The rows the engine divides by hold no zero: the latest row before `start`, and every row of
      the current block but the last. */
  predicate DivisorsNonZero(t: Table, lo: Date, start: Date, hi: Date)
    requires WellFormed(t)
  {
    && HasPrior(t.dates, lo, start)
    && NonZero(RowAt(t, PriorDate(t.dates, lo, start)))
    && DivisorRows(Slice(t, start, hi).rows)
  }

  /** The engine's divisor test over positions `i .. |rows| - 2` is the divisor test of the tail from `i`. */
  lemma DivisorsOfTail(rows: seq<seq<real>>, i: nat)
    requires i < |rows|
    ensures (forall p :: i <= p < |rows| - 1 ==> NonZero(rows[p])) <==> DivisorRows(rows[i..])
  {
    if DivisorRows(rows[i..]) {
      forall p | i <= p < |rows| - 1
        ensures NonZero(rows[p])
      {
        assert rows[i..][p - i] == rows[p];
      }
    }
  }

  /** A row put in front of a non-empty run is divided by too. */
  lemma DivisorsOfCons(head: seq<real>, rest: seq<seq<real>>)
    requires |rest| > 0
    ensures DivisorRows([head] + rest) <==> NonZero(head) && DivisorRows(rest)
  {
    var rows := [head] + rest;
    if NonZero(head) && DivisorRows(rest) {
      forall k | 0 <= k < |rows| - 1
        ensures NonZero(rows[k])
      {
        if k > 0 {
          assert rows[k] == rest[k - 1];
        }
      }
    }
    if DivisorRows(rows) {
      assert rows[0] == head;
      forall k | 0 <= k < |rest| - 1
        ensures NonZero(rest[k])
      {
        assert rows[k + 1] == rest[k];
      }
    }
  }

  /** With a row before `start` and a non-empty block, the engine succeeds exactly when the weights
      aligned and no row it divides by holds a zero, and it reports NoWeightData exactly when the
      weights did not align. */
  lemma EngineOutcome(t: Table, lo: Date, start: Date, hi: Date, w: Result<seq<seq<real>>>)
    requires WellFormed(t) && lo <= start
    requires Comparable(Slice(t, lo, hi), Slice(t, start, hi)) && Weighs(w, Slice(t, start, hi))
    ensures HasPrior(t.dates, lo, start) && |Slice(t, start, hi).rows| > 0 ==>
      && (Engine(Slice(t, lo, hi), Slice(t, start, hi), w).Ok? <==> w.Ok? && DivisorsNonZero(t, lo, start, hi))
      && (Engine(Slice(t, lo, hi), Slice(t, start, hi), w) == Err(NoWeightData) <==> w.Err?)
  {
    var wide := Slice(t, lo, hi);
    var cur := Slice(t, start, hi);
    if HasPrior(t.dates, lo, start) && |cur.rows| > 0 {
      PriorThenBlock(t, lo, start, hi);
      var n := |wide.rows|;
      var m := |cur.rows|;
      var prior := RowAt(t, PriorDate(t.dates, lo, start));
      DivisorsOfTail(wide.rows, n - m - 1);
      DivisorsOfCons(prior, cur.rows);
    }
  }

  /** Every day's asset index is the previous one (1 before the first day) grown by that day's
      weighted return; the first day is compared with the latest earlier price row in the lookback
      window, every later day with the day before it. */
  lemma AssetRecurrence(s: Store, start: Date, end: Date, lookback: nat)
    requires Valid(s) && AssetPerformance(s, start, end, lookback).Ok?
    requires HasPrior(s.prices.dates, Low(start, lookback), start)
    ensures var cur := Slice(s.prices, start, High(end)); var w := AssetWeights(s, cur, start, end);
      var before := RowAt(s.prices, PriorDate(s.prices.dates, Low(start, lookback), start));
      && w.Ok?
      && Grows(AssetPerformance(s, start, end, lookback).value, [before] + cur.rows, w.value)
  {
    var cur := Slice(s.prices, start, High(end));
    Blocks(s.prices, start, end, lookback);
    var w := AssetWeights(s, cur, start, end);
    if |cur.rows| > 0 {
      BlocksRecurrence(s.prices, Low(start, lookback), start, High(end), w);
    }
  }

  /** The weights of the currency query: the block's asset weights summed per settlement currency
      (by label), left-joined onto the block's dates and gap-filled with column means. */
  function CurrencyWeights(s: Store, cur: Table, start: Date, end: Date): (w: Result<seq<seq<real>>>)
    requires Valid(s) && |cur.dates| == |cur.rows| && cur.labels == s.exchanges.labels
    ensures Weighs(w, cur)
    ensures w.Err? <==>
      && |cur.dates| > 0
      && |cur.labels| > 0
      && forall t :: 0 <= t < |cur.dates| ==> !(cur.dates[t] in s.weights.dates && start <= cur.dates[t] <= High(end))
    ensures w.Ok? ==> forall t, k ::
      0 <= t < |cur.dates| && 0 <= k < |cur.labels| && cur.dates[t] in s.weights.dates && start <= cur.dates[t] <= High(end)
      ==> w.value[t][k] == GroupSum(RowAt(s.weights, cur.dates[t]), s.weights.labels, cur.labels[k])
    ensures WellFormed(Slice(s.weights, start, High(end)))
    ensures w.Ok? ==> FilledFrom(cur.dates, GroupByCurrency(Slice(s.weights, start, High(end)), cur.labels), w.value)
  {
    var ws := Slice(s.weights, start, High(end));
    SliceSelectsRange(s.weights, start, High(end));
    GroupedRows(ws, s.exchanges.labels);
    AlignWeights(cur.dates, GroupByCurrency(ws, s.exchanges.labels))
  }

  /** `calculate_currency_performance`: the weighted performance of the exchange rates, each
      settlement currency weighted by the total weight of the assets quoted in it. An exchange
      column without an asset of its currency is a missing column. */
  function CurrencyPerformance(s: Store, start: Date, end: Date, lookback: nat): (r: Result<seq<real>>)
    requires Valid(s)
    ensures (r.Err? && r.error.MissingColumn?) <==>
      exists e :: 0 <= e < |s.exchanges.labels| && s.exchanges.labels[e] !in s.weights.labels
    ensures r.Err? && r.error.MissingColumn? ==>
      r.error.currency in s.exchanges.labels && r.error.currency !in s.weights.labels
    ensures var lo := Low(start, lookback); var m := |Slice(s.exchanges, start, High(end)).rows|;
      && (r == Err(InsufficientHistory) <==>
            && (forall e :: 0 <= e < |s.exchanges.labels| ==> s.exchanges.labels[e] in s.weights.labels)
            && m >= 2
            && !HasPrior(s.exchanges.dates, lo, start))
      && (r.Ok? ==> |r.value| == if HasPrior(s.exchanges.dates, lo, start) then m else 0)
    ensures |Slice(s.exchanges, start, High(end)).rows| == 0 ==>
      (r == Ok([]) <==> forall e :: 0 <= e < |s.exchanges.labels| ==> s.exchanges.labels[e] in s.weights.labels)
    ensures |Slice(s.exchanges, start, High(end)).rows| == 1 && !HasPrior(s.exchanges.dates, Low(start, lookback), start) ==>
      (r == Ok([]) <==> forall e :: 0 <= e < |s.exchanges.labels| ==> s.exchanges.labels[e] in s.weights.labels)
    ensures var lo := Low(start, lookback); var cur := Slice(s.exchanges, start, High(end));
      (forall e :: 0 <= e < |s.exchanges.labels| ==> s.exchanges.labels[e] in s.weights.labels) &&
      HasPrior(s.exchanges.dates, lo, start) && |Slice(s.exchanges, start, High(end)).rows| > 0 ==>
        && (r.Ok? <==> CurrencyWeights(s, cur, start, end).Ok? && DivisorsNonZero(s.exchanges, lo, start, High(end)))
        && (r == Err(NoWeightData) <==> CurrencyWeights(s, cur, start, end).Err?)
  {
    match FirstNotIn(s.exchanges.labels, s.weights.labels)
    case Some(e) => Err(MissingColumn(e))
    case None => RatePerformance(s, start, end, lookback)
  }

  /** The engine run over the exchange rates, weighted per settlement currency. */
  function RatePerformance(s: Store, start: Date, end: Date, lookback: nat): (r: Result<seq<real>>)
    requires Valid(s)
    ensures var lo := Low(start, lookback); var m := |Slice(s.exchanges, start, High(end)).rows|;
      && (r == Err(InsufficientHistory) <==> m >= 2 && !HasPrior(s.exchanges.dates, lo, start))
      && (r.Ok? ==> |r.value| == if HasPrior(s.exchanges.dates, lo, start) then m else 0)
      && (r.Err? ==> r.error == InsufficientHistory || r.error == NoWeightData || r.error == ZeroDenominator)
    ensures |Slice(s.exchanges, start, High(end)).rows| == 0 ==> r == Ok([])
    ensures |Slice(s.exchanges, start, High(end)).rows| == 1 && !HasPrior(s.exchanges.dates, Low(start, lookback), start) ==>
      r == Ok([])
    ensures var lo := Low(start, lookback); var cur := Slice(s.exchanges, start, High(end));
      HasPrior(s.exchanges.dates, lo, start) && |Slice(s.exchanges, start, High(end)).rows| > 0 ==>
        && (r.Ok? <==> CurrencyWeights(s, cur, start, end).Ok? && DivisorsNonZero(s.exchanges, lo, start, High(end)))
        && (r == Err(NoWeightData) <==> CurrencyWeights(s, cur, start, end).Err?)
  {
    var lo := Low(start, lookback);
    var wide := Slice(s.exchanges, lo, High(end));
    var cur := Slice(s.exchanges, start, High(end));
    Blocks(s.exchanges, start, end, lookback);
    HistoryIffPrior(s.exchanges, lo, start, High(end));
    var w := CurrencyWeights(s, cur, start, end);
    EmptyBlockIsEmptyIndex(wide, cur, w);
    EngineOutcome(s.exchanges, lo, start, High(end), w);
    Engine(wide, cur, w)
  }

  /** Every day's currency index is the previous one (1 before the first day) grown by that day's
      blended exchange-rate return, weighted by the per-currency weight sums. */
  lemma CurrencyRecurrence(s: Store, start: Date, end: Date, lookback: nat)
    requires Valid(s) && CurrencyPerformance(s, start, end, lookback).Ok?
    requires HasPrior(s.exchanges.dates, Low(start, lookback), start)
    ensures var cur := Slice(s.exchanges, start, High(end)); var w := CurrencyWeights(s, cur, start, end);
      var before := RowAt(s.exchanges, PriorDate(s.exchanges.dates, Low(start, lookback), start));
      && w.Ok?
      && Grows(CurrencyPerformance(s, start, end, lookback).value, [before] + cur.rows, w.value)
  {
    var cur := Slice(s.exchanges, start, High(end));
    Blocks(s.exchanges, start, end, lookback);
    var w := CurrencyWeights(s, cur, start, end);
    if |cur.rows| > 0 {
      BlocksRecurrence(s.exchanges, Low(start, lookback), start, High(end), w);
    }
  }

  /** A price in the settlement currency: the price times the exchange rate. */
  function Scale(price: real, rate: real): real {
    price * rate
  }

  /** One row of the conversion: each cell whose label names a rate column is multiplied by that rate. */
  function ConvertRow(row: seq<real>, labels: seq<Label>, rate: seq<real>, rateLabels: seq<Label>): (r: seq<real>)
    requires |row| == |labels| && |rate| == |rateLabels|
    ensures |r| == |row|
  {
    seq(|row|, c requires 0 <= c < |row| =>
      match Find(rateLabels, labels[c])
      case None => row[c]
      case Some(e) => Scale(row[c], rate[e]))
  }

  /** Prices in the settlement currency: on every date the rate table has, each column whose label
      names a rate column is multiplied by that column's rate; other cells, and dates without a
      rate row, are kept. */
  function Convert(t: Table, rates: Table): (r: Table)
    requires WellFormed(t) && WellFormed(rates) && Distinct(rates.labels)
    ensures WellFormed(r) && r.labels == t.labels && r.dates == t.dates
    ensures forall k, c, e ::
      && 0 <= k < |t.rows| && 0 <= c < |t.labels| && 0 <= e < |rates.labels|
      && t.dates[k] in rates.dates && t.labels[c] == rates.labels[e]
      ==> r.rows[k][c] == Scale(t.rows[k][c], RowAt(rates, t.dates[k])[e])
    ensures forall k, c ::
      && 0 <= k < |t.rows| && 0 <= c < |t.labels|
      && (t.dates[k] !in rates.dates || t.labels[c] !in rates.labels)
      ==> r.rows[k][c] == t.rows[k][c]
  {
    Table(t.labels, t.dates, seq(|t.rows|, k requires 0 <= k < |t.rows| =>
      if t.dates[k] in rates.dates then ConvertRow(t.rows[k], t.labels, RowAt(rates, t.dates[k]), rates.labels)
      else t.rows[k]))
  }

  /** The conversion by date: a converted row is the row of the same date, multiplied cell by cell
      by the rate of that date and label where both exist. */
  lemma ConvertAtDate(t: Table, rates: Table)
    requires WellFormed(t) && WellFormed(rates) && Distinct(rates.labels)
    ensures var r := Convert(t, rates);
      && (forall d, c, e ::
            && d in t.dates && d in rates.dates
            && 0 <= c < |t.labels| && 0 <= e < |rates.labels| && t.labels[c] == rates.labels[e]
            ==> RowAt(r, d)[c] == Scale(RowAt(t, d)[c], RowAt(rates, d)[e]))
      && (forall d, c ::
            && d in t.dates && 0 <= c < |t.labels|
            && (d !in rates.dates || t.labels[c] !in rates.labels)
            ==> RowAt(r, d)[c] == RowAt(t, d)[c])
  {
    var r := Convert(t, rates);
    forall d | d in t.dates
      ensures RowAt(r, d) == r.rows[Find(t.dates, d).value] && RowAt(t, d) == t.rows[Find(t.dates, d).value]
    {
    }
  }

  /** Converting at a rate of 1 everywhere changes nothing. */
  lemma ConvertUnitIsIdentity(t: Table, rates: Table)
    requires WellFormed(t) && WellFormed(rates) && Distinct(rates.labels)
    requires forall k, e :: 0 <= k < |rates.rows| && 0 <= e < |rates.labels| ==> rates.rows[k][e] == 1.0
    ensures Convert(t, rates) == t
  {
    var r := Convert(t, rates);
    forall k | 0 <= k < |t.rows|
      ensures r.rows[k] == t.rows[k]
    {
      forall c | 0 <= c < |t.labels|
        ensures r.rows[k][c] == t.rows[k][c]
      {
        if t.dates[k] in rates.dates && t.labels[c] in rates.labels {
          var e :| 0 <= e < |rates.labels| && rates.labels[e] == t.labels[c];
          var i :| 0 <= i < |rates.dates| && rates.dates[i] == t.dates[k];
          assert RowAt(rates, t.dates[k])[e] == rates.rows[i][e] == 1.0;
        }
      }
    }
  }

  /** The converted window of the total query: the prices dated from `Low` to `High`, converted
      with the exchange rates of the same window. */
  function Converted(s: Store, start: Date, end: Date, lookback: nat): (v: Table)
    requires Valid(s)
    ensures WellFormed(v) && v.labels == s.prices.labels
    ensures forall d :: d in v.dates <==> d in s.prices.dates && Low(start, lookback) <= d <= High(end)
  {
    var lo := Low(start, lookback);
    SliceSelectsRange(s.prices, lo, High(end));
    SliceSelectsRange(s.exchanges, lo, High(end));
    Convert(Slice(s.prices, lo, High(end)), Slice(s.exchanges, lo, High(end)))
  }

  /** Each converted cell is that date's price times that date's rate for the column's currency,
      or the price itself where the currency has no rate column or the date no rate row. */
  lemma ConvertedCells(s: Store, start: Date, end: Date, lookback: nat)
    requires Valid(s)
    ensures var v := Converted(s, start, end, lookback);
      && (forall d, c, e ::
            && d in v.dates && d in s.exchanges.dates
            && 0 <= c < |v.labels| && 0 <= e < |s.exchanges.labels| && v.labels[c] == s.exchanges.labels[e]
            ==> RowAt(v, d)[c] == Scale(RowAt(s.prices, d)[c], RowAt(s.exchanges, d)[e]))
      && (forall d, c :: d in v.dates && d !in s.exchanges.dates && 0 <= c < |v.labels| ==>
            RowAt(v, d)[c] == RowAt(s.prices, d)[c])
      && (forall d, c :: d in v.dates && 0 <= c < |v.labels| && v.labels[c] !in s.exchanges.labels ==>
            RowAt(v, d)[c] == RowAt(s.prices, d)[c])
  {
    var lo := Low(start, lookback);
    var p := Slice(s.prices, lo, High(end));
    var rates := Slice(s.exchanges, lo, High(end));
    SliceSelectsRange(s.prices, lo, High(end));
    SliceSelectsRange(s.exchanges, lo, High(end));
    ConvertAtDate(p, rates);
    var v := Converted(s, start, end, lookback);
    assert v == Convert(p, rates);
    forall d, c, e |
      && d in v.dates && d in s.exchanges.dates
      && 0 <= c < |v.labels| && 0 <= e < |s.exchanges.labels| && v.labels[c] == s.exchanges.labels[e]
      ensures RowAt(v, d)[c] == Scale(RowAt(s.prices, d)[c], RowAt(s.exchanges, d)[e])
    {
      assert d in rates.dates;
      assert RowAt(p, d) == RowAt(s.prices, d) && RowAt(rates, d) == RowAt(s.exchanges, d);
      assert RowAt(v, d)[c] == Scale(RowAt(p, d)[c], RowAt(rates, d)[e]);
    }
    forall d, c | d in v.dates && 0 <= c < |v.labels| && (d !in s.exchanges.dates || v.labels[c] !in s.exchanges.labels)
      ensures RowAt(v, d)[c] == RowAt(s.prices, d)[c]
    {
      assert d !in rates.dates || v.labels[c] !in rates.labels;
      assert RowAt(p, d) == RowAt(s.prices, d);
      assert RowAt(v, d)[c] == RowAt(p, d)[c];
    }
  }

  /** The blocks of the total query: the converted window is its own widened block, and its
      current block has the dates of the price table's. */
  lemma TotalBlocks(s: Store, start: Date, end: Date, lookback: nat)
    requires Valid(s)
    ensures var lo := Low(start, lookback); var v := Converted(s, start, end, lookback);
      var cur := Slice(v, start, High(end));
      && Slice(v, lo, High(end)) == v
      && Comparable(v, cur)
      && v.dates == Slice(s.prices, lo, High(end)).dates
      && cur.dates == Slice(s.prices, start, High(end)).dates
  {
    var lo := Low(start, lookback);
    var hi := High(end);
    var v := Converted(s, start, end, lookback);
    var p := Slice(s.prices, lo, hi);
    SliceSelectsRange(s.prices, lo, hi);
    SliceSelectsRange(s.exchanges, lo, hi);
    assert v == Convert(p, Slice(s.exchanges, lo, hi));
    SliceWhole(v, lo, hi);
    Blocks(v, start, end, lookback);
    SliceOfSlice(s.prices, lo, start, hi);
    assert Slice(v, start, hi).dates == Slice(p, start, hi).dates;
  }

  /** The converted window has a row in the lookback window exactly when the price table has one,
      and the latest such row is dated alike. */
  lemma TotalPrior(s: Store, start: Date, end: Date, lookback: nat)
    requires Valid(s) && start <= High(end)
    ensures var lo := Low(start, lookback); var v := Converted(s, start, end, lookback);
      && (HasPrior(v.dates, lo, start) <==> HasPrior(s.prices.dates, lo, start))
      && (HasPrior(s.prices.dates, lo, start) ==> PriorDate(v.dates, lo, start) == PriorDate(s.prices.dates, lo, start))
  {
    var lo := Low(start, lookback);
    var hi := High(end);
    TotalBlocks(s, start, end, lookback);
    PriorWithinSlice(s.prices, lo, start, hi);
    if HasPrior(s.prices.dates, lo, start) {
      PriorDateWithinSlice(s.prices, lo, start, hi);
    }
  }

  /** With a non-empty current block, the converted window has a row before `start` exactly when
      the price table has one in the lookback window, and the latest such row is dated alike. */
  lemma TotalHistory(s: Store, start: Date, end: Date, lookback: nat)
    requires Valid(s)
    ensures var lo := Low(start, lookback); var v := Converted(s, start, end, lookback);
      var cur := Slice(v, start, High(end));
      |cur.rows| > 0 ==>
        && start <= High(end)
        && (HasPrior(v.dates, lo, start) <==> HasPrior(s.prices.dates, lo, start))
        && (|v.rows| > |cur.rows| <==> HasPrior(s.prices.dates, lo, start))
        && (HasPrior(s.prices.dates, lo, start) ==> PriorDate(v.dates, lo, start) == PriorDate(s.prices.dates, lo, start))
  {
    var lo := Low(start, lookback);
    var hi := High(end);
    var v := Converted(s, start, end, lookback);
    var cur := Slice(v, start, hi);
    if |cur.rows| > 0 {
      SliceDates(v, start, hi);
      assert cur.dates[0] in cur.dates;
      TotalPrior(s, start, end, lookback);
      HistoryIffPrior(v, lo, start, hi);
    }
  }

  /** The engine run over the converted window, weighted as the asset query is. */
  function ConvertedPerformance(s: Store, start: Date, end: Date, lookback: nat): (r: Result<seq<real>>)
    requires Valid(s)
    ensures var lo := Low(start, lookback); var m := |Slice(s.prices, start, High(end)).rows|;
      && (r == Err(InsufficientHistory) <==> m >= 2 && !HasPrior(s.prices.dates, lo, start))
      && (r.Ok? ==> |r.value| == if HasPrior(s.prices.dates, lo, start) then m else 0)
      && (r.Err? ==> r.error == InsufficientHistory || r.error == NoWeightData || r.error == ZeroDenominator)
    ensures |Slice(s.prices, start, High(end)).rows| == 0 ==> r == Ok([])
    ensures |Slice(s.prices, start, High(end)).rows| == 1 && !HasPrior(s.prices.dates, Low(start, lookback), start) ==>
      r == Ok([])
    ensures var lo := Low(start, lookback); var values := Converted(s, start, end, lookback);
      var cur := Slice(values, start, High(end));
      HasPrior(s.prices.dates, lo, start) && |Slice(s.prices, start, High(end)).rows| > 0 ==>
        && (r.Ok? <==> AssetWeights(s, cur, start, end).Ok? && DivisorsNonZero(values, lo, start, High(end)))
        && (r == Err(NoWeightData) <==> AssetWeights(s, cur, start, end).Err?)
  {
    var values := Converted(s, start, end, lookback);
    var cur := Slice(values, start, High(end));
    TotalBlocks(s, start, end, lookback);
    TotalHistory(s, start, end, lookback);
    var w := AssetWeights(s, cur, start, end);
    EngineOutcome(values, Low(start, lookback), start, High(end), w);
    Engine(values, cur, w)
  }

  /** The first row the total query compares is the row of the latest price date before `start`. */
  lemma ComparedFromPrior(s: Store, start: Date, end: Date, lookback: nat)
    requires Valid(s)
    ensures var lo := Low(start, lookback); var values := Converted(s, start, end, lookback);
      var n := |values.dates|; var m := |Slice(values, start, High(end)).dates|;
      && m == |Slice(s.prices, start, High(end)).rows|
      && (n > m && m > 0 ==>
            && HasPrior(s.prices.dates, lo, start)
            && values.dates[n - m - 1] == PriorDate(s.prices.dates, lo, start))
  {
    var lo := Low(start, lookback);
    var hi := High(end);
    var values := Converted(s, start, end, lookback);
    var n := |values.dates|;
    var m := |Slice(values, start, hi).dates|;
    TotalBlocks(s, start, end, lookback);
    TotalHistory(s, start, end, lookback);
    if n > m && m > 0 {
      FirstComparisonDate(values, lo, start, hi);
    }
  }

  /** In ascending dates, a date found from position `i` on is not earlier than the date at `i`. */
  lemma FoundInSuffix(ds: seq<Date>, i: nat, u: Option<Date>)
    requires Ascending(ds) && i < |ds|
    requires u.Some? ==> u.value in ds[i..]
    ensures u.Some? ==> u.value in ds && ds[i] <= u.value
  {
    if u.Some? {
      var k :| 0 <= k < |ds| - i && ds[i..][k] == u.value;
      assert ds[i + k] == u.value;
    }
  }

  /** The first date of a compared row of the converted window that has no exchange-rate row. Rows
      are compared only when the current block is non-empty and has a row before it. */
  function UnratedDate(s: Store, start: Date, end: Date, lookback: nat): (u: Option<Date>)
    requires Valid(s)
    ensures u.Some? ==>
      && u.value in s.prices.dates && u.value !in s.exchanges.dates
      && Low(start, lookback) <= u.value <= High(end)
    ensures u.Some? ==>
      && |Slice(s.prices, start, High(end)).rows| > 0
      && HasPrior(s.prices.dates, Low(start, lookback), start)
      && PriorDate(s.prices.dates, Low(start, lookback), start) <= u.value
  {
    var values := Converted(s, start, end, lookback);
    var n := |values.rows|;
    var m := |Slice(values, start, High(end)).rows|;
    ComparedFromPrior(s, start, end, lookback);
    if n > m && m > 0 then
      var u := FirstNotIn(values.dates[n - m - 1..], s.exchanges.dates);
      FoundInSuffix(values.dates, n - m - 1, u);
      u
    else None
  }

  /** `calculate_total_performance`: the weighted performance of the prices converted into the
      settlement currency. An exchange column no asset is quoted in is a missing column; a
      compared date without a rate row is a missing rate. */
  function TotalPerformance(s: Store, start: Date, end: Date, lookback: nat): (r: Result<seq<real>>)
    requires Valid(s)
    ensures (r.Err? && r.error.MissingColumn?) <==>
      exists e :: 0 <= e < |s.exchanges.labels| && s.exchanges.labels[e] !in s.prices.labels
    ensures r.Err? && r.error.MissingColumn? ==>
      r.error.currency in s.exchanges.labels && r.error.currency !in s.prices.labels
    ensures r.Err? && r.error.MissingRate? ==>
      && |s.exchanges.labels| > 0
      && r.error.date in s.prices.dates && r.error.date !in s.exchanges.dates
      && Low(start, lookback) <= r.error.date <= High(end)
      && |Slice(s.prices, start, High(end)).rows| > 0
      && HasPrior(s.prices.dates, Low(start, lookback), start)
      && PriorDate(s.prices.dates, Low(start, lookback), start) <= r.error.date
    ensures var lo := Low(start, lookback); var m := |Slice(s.prices, start, High(end)).rows|;
      && (r == Err(InsufficientHistory) <==>
            && (forall e :: 0 <= e < |s.exchanges.labels| ==> s.exchanges.labels[e] in s.prices.labels)
            && m >= 2
            && !HasPrior(s.prices.dates, lo, start))
      && (r.Ok? ==> |r.value| == if HasPrior(s.prices.dates, lo, start) then m else 0)
    ensures |Slice(s.prices, start, High(end)).rows| == 0 ==>
      (r == Ok([]) <==> forall e :: 0 <= e < |s.exchanges.labels| ==> s.exchanges.labels[e] in s.prices.labels)
    ensures |Slice(s.prices, start, High(end)).rows| == 1 && !HasPrior(s.prices.dates, Low(start, lookback), start) ==>
      (r == Ok([]) <==> forall e :: 0 <= e < |s.exchanges.labels| ==> s.exchanges.labels[e] in s.prices.labels)
    ensures (forall e :: 0 <= e < |s.exchanges.labels| ==> s.exchanges.labels[e] in s.prices.labels) ==>
      && (|s.exchanges.labels| > 0 && UnratedDate(s, start, end, lookback).Some? ==>
            r == Err(MissingRate(UnratedDate(s, start, end, lookback).value)))
      && (|s.exchanges.labels| == 0 || UnratedDate(s, start, end, lookback).None? ==>
            r == ConvertedPerformance(s, start, end, lookback))
  {
    match FirstNotIn(s.exchanges.labels, s.prices.labels)
    case Some(e) => Err(MissingColumn(e))
    case None =>
      var unrated := UnratedDate(s, start, end, lookback);
      if |s.exchanges.labels| > 0 && unrated.Some? then Err(MissingRate(unrated.value))
      else ConvertedPerformance(s, start, end, lookback)
  }

  /** Every day's total index is the previous one (1 before the first day) grown by that day's
      weighted return of the converted prices, the first day compared with the latest earlier
      price row. */
  lemma TotalRecurrence(s: Store, start: Date, end: Date, lookback: nat)
    requires Valid(s) && TotalPerformance(s, start, end, lookback).Ok?
    requires HasPrior(s.prices.dates, Low(start, lookback), start) && start <= High(end)
    ensures var values := Converted(s, start, end, lookback); var cur := Slice(values, start, High(end));
      var prior := PriorDate(s.prices.dates, Low(start, lookback), start);
      && prior in values.dates
      && cur.labels == s.prices.labels
      && AssetWeights(s, cur, start, end).Ok?
      && Grows(TotalPerformance(s, start, end, lookback).value, [RowAt(values, prior)] + cur.rows,
               AssetWeights(s, cur, start, end).value)
  {
    var lo := Low(start, lookback);
    var hi := High(end);
    var values := Converted(s, start, end, lookback);
    var cur := Slice(values, start, hi);
    TotalBlocks(s, start, end, lookback);
    TotalHistory(s, start, end, lookback);
    var w := AssetWeights(s, cur, start, end);
    var r := TotalPerformance(s, start, end, lookback);
    assert r == ConvertedPerformance(s, start, end, lookback);
    if |cur.rows| > 0 {
      assert r == Engine(Slice(values, lo, hi), cur, w);
      BlocksRecurrence(values, lo, start, hi, w);
    }
  }

  /** The exchange table has a rate row for date `d`. */
  predicate Rated(s: Store, d: Date) {
    d in s.exchanges.dates
  }

  /** In a total query that succeeds with a non-empty current block, the latest earlier price row
      was converted at its own date's rates. */
  lemma TotalPriorRated(s: Store, start: Date, end: Date, lookback: nat)
    requires Valid(s) && TotalPerformance(s, start, end, lookback).Ok? && |s.exchanges.labels| > 0
    requires HasPrior(s.prices.dates, Low(start, lookback), start)
    requires |Slice(s.prices, start, High(end)).rows| > 0
    ensures Rated(s, PriorDate(s.prices.dates, Low(start, lookback), start))
  {
    var lo := Low(start, lookback);
    var hi := High(end);
    var values := Converted(s, start, end, lookback);
    TotalBlocks(s, start, end, lookback);
    TotalHistory(s, start, end, lookback);
    FirstComparisonDate(values, lo, start, hi);
    TotalRatesPresent(s, start, end, lookback);
  }

  /** In a total query that succeeds, every row of the current block was converted at its own
      date's rates. */
  lemma TotalBlockRated(s: Store, start: Date, end: Date, lookback: nat)
    requires Valid(s) && TotalPerformance(s, start, end, lookback).Ok? && |s.exchanges.labels| > 0
    requires HasPrior(s.prices.dates, Low(start, lookback), start)
    ensures var cur := Slice(Converted(s, start, end, lookback), start, High(end));
      forall k :: 0 <= k < |cur.dates| ==> Rated(s, cur.dates[k])
  {
    var values := Converted(s, start, end, lookback);
    var cur := Slice(values, start, High(end));
    TotalTail(s, start, end, lookback);
    TotalRatesPresent(s, start, end, lookback);
    if |cur.dates| > 0 {
      TailRated(values.dates, cur.dates, s);
    }
  }

  /** With a row before `start`, the current block's dates are a strictly shorter tail of the
      converted window's. */
  lemma TotalTail(s: Store, start: Date, end: Date, lookback: nat)
    requires Valid(s) && HasPrior(s.prices.dates, Low(start, lookback), start)
    ensures var values := Converted(s, start, end, lookback); var cur := Slice(values, start, High(end));
      && cur.dates == values.dates[|values.dates| - |cur.dates|..]
      && (|cur.dates| > 0 ==> |cur.dates| < |values.dates|)
  {
    TotalBlocks(s, start, end, lookback);
    TotalHistory(s, start, end, lookback);
  }

  /** When every date of `wide` from position `|wide| - |tail| - 1` on has a rate row, so does
      every date of its tail of `|tail|` dates. */
  lemma TailRated(wide: seq<Date>, tail: seq<Date>, s: Store)
    requires |tail| < |wide| && tail == wide[|wide| - |tail|..]
    requires forall k :: |wide| - |tail| - 1 <= k < |wide| ==> Rated(s, wide[k])
    ensures forall k :: 0 <= k < |tail| ==> Rated(s, tail[k])
  {
    forall k | 0 <= k < |tail|
      ensures Rated(s, tail[k])
    {
      assert tail[k] == wide[|wide| - |tail| + k];
    }
  }

  /** A total query that succeeds found a rate row for the date of every compared row. */
  lemma TotalRatesPresent(s: Store, start: Date, end: Date, lookback: nat)
    requires Valid(s) && TotalPerformance(s, start, end, lookback).Ok? && |s.exchanges.labels| > 0
    ensures var values := Converted(s, start, end, lookback);
      var n := |values.dates|; var m := |Slice(values, start, High(end)).dates|;
      n > m && m > 0 ==> forall k :: n - m - 1 <= k < n ==> Rated(s, values.dates[k])
  {
    assert UnratedDate(s, start, end, lookback).None?;
    AllRatedWhenNoneUnrated(s, start, end, lookback);
  }

  /** When no compared date lacks a rate row, every compared date has one. */
  lemma AllRatedWhenNoneUnrated(s: Store, start: Date, end: Date, lookback: nat)
    requires Valid(s) && UnratedDate(s, start, end, lookback).None?
    ensures var values := Converted(s, start, end, lookback);
      var n := |values.dates|; var m := |Slice(values, start, High(end)).dates|;
      n > m && m > 0 ==> forall k :: n - m - 1 <= k < n ==> Rated(s, values.dates[k])
  {
    var values := Converted(s, start, end, lookback);
    var n := |values.rows|;
    var m := |Slice(values, start, High(end)).rows|;
    if n > m && m > 0 {
      var used := values.dates[n - m - 1..];
      assert FirstNotIn(used, s.exchanges.dates).None?;
      forall k | n - m - 1 <= k < n
        ensures Rated(s, values.dates[k])
      {
        assert values.dates[k] == used[k - (n - m - 1)];
      }
    }
  }

  /** A slice of a table whose cells are all 1 has only cells equal to 1. */
  lemma UnitSlice(t: Table, lo: Date, hi: Date)
    requires WellFormed(t)
    requires forall k, e :: 0 <= k < |t.rows| && 0 <= e < |t.labels| ==> t.rows[k][e] == 1.0
    ensures var r := Slice(t, lo, hi);
      forall k, e :: 0 <= k < |r.rows| && 0 <= e < |r.labels| ==> r.rows[k][e] == 1.0
  {
    var r := Slice(t, lo, hi);
    var i := SearchLeft(t.dates, lo);
    forall k, e | 0 <= k < |r.rows| && 0 <= e < |r.labels|
      ensures r.rows[k][e] == 1.0
    {
      assert r.rows[k] == t.rows[i + k];
    }
  }

  /** At a rate of 1 everywhere the converted window is the price window. */
  lemma UnitRatesConvertNothing(s: Store, start: Date, end: Date, lookback: nat)
    requires Valid(s)
    requires forall k, e :: 0 <= k < |s.exchanges.rows| && 0 <= e < |s.exchanges.labels| ==> s.exchanges.rows[k][e] == 1.0
    ensures Converted(s, start, end, lookback) == Slice(s.prices, Low(start, lookback), High(end))
  {
    var lo := Low(start, lookback);
    var hi := High(end);
    var rates := Slice(s.exchanges, lo, hi);
    SliceSelectsRange(s.exchanges, lo, hi);
    UnitSlice(s.exchanges, lo, hi);
    SliceSelectsRange(s.prices, lo, hi);
    ConvertUnitIsIdentity(Slice(s.prices, lo, hi), rates);
  }

  /** With a rate row for every price date, no compared date lacks a rate. */
  lemma FullRatesLeaveNothingUnrated(s: Store, start: Date, end: Date, lookback: nat)
    requires Valid(s)
    requires forall k :: 0 <= k < |s.prices.dates| ==> s.prices.dates[k] in s.exchanges.dates
    ensures UnratedDate(s, start, end, lookback).None?
  {
    var values := Converted(s, start, end, lookback);
    var n := |values.rows|;
    var m := |Slice(values, start, High(end)).rows|;
    if n > m && m > 0 {
      SuffixRated(values.dates, n - m - 1, s.prices.dates, s.exchanges.dates);
    }
  }

  /** Dates drawn from the price dates, all of which have rate rows, have rate rows from any
      position on. */
  lemma SuffixRated(ds: seq<Date>, i: nat, prices: seq<Date>, rated: seq<Date>)
    requires i <= |ds|
    requires forall k :: 0 <= k < |ds| ==> ds[k] in prices
    requires forall k :: 0 <= k < |prices| ==> prices[k] in rated
    ensures FirstNotIn(ds[i..], rated).None?
  {
    forall k | 0 <= k < |ds| - i
      ensures ds[i..][k] in rated
    {
      assert ds[i..][k] == ds[i + k];
    }
  }

  /** With every rate 1, a rate row for every price date and every rate column among the price
      columns, the total performance is the asset performance. */
  lemma TotalWithUnitRatesIsAsset(s: Store, start: Date, end: Date, lookback: nat)
    requires Valid(s)
    requires forall e :: 0 <= e < |s.exchanges.labels| ==> s.exchanges.labels[e] in s.prices.labels
    requires forall k, e :: 0 <= k < |s.exchanges.rows| && 0 <= e < |s.exchanges.labels| ==> s.exchanges.rows[k][e] == 1.0
    requires forall k :: 0 <= k < |s.prices.dates| ==> s.prices.dates[k] in s.exchanges.dates
    ensures TotalPerformance(s, start, end, lookback) == AssetPerformance(s, start, end, lookback)
  {
    UnitRatesConvertNothing(s, start, end, lookback);
    FullRatesLeaveNothingUnrated(s, start, end, lookback);
    SliceOfSlice(s.prices, Low(start, lookback), start, High(end));
  }
}
