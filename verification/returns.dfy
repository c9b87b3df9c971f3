/** The Return & Compounding Engine: simple returns per column, blended with the weights into one
    return per period, compounded into an index that starts, unemitted, at 1. */
module Returns {

  predicate NonZero(row: seq<real>) {
    forall c :: 0 <= c < |row| ==> row[c] != 0.0
  }

  /** The simple return from `before` to `now`: the rate that grows `before` into `now`. */
  function SimpleReturn(now: real, before: real): (r: real)
    requires before != 0.0
    ensures before * (1.0 + r) == now
  {
    (now - before) / before
  }

  /** `(r * w).sum()` for one period: the weighted sum of the columns' simple returns. It is the
      weighted price relative less the total weight; with weights summing to 1 it is the relative
      change of the weighted portfolio. */
  function Blend(cur: seq<real>, prev: seq<real>, w: seq<real>): (b: real)
    requires |cur| == |prev| == |w| && NonZero(prev)
    ensures b == WeightedRelative(cur, prev, w) - Total(w)
  {
    if |cur| == 0 then 0.0
    else
      ReturnIsRelativeLessOne(cur[0], prev[0], w[0]);
      SimpleReturn(cur[0], prev[0]) * w[0] + Blend(cur[1..], prev[1..], w[1..])
  }

  /** A period whose weights are all zero has no return. */
  lemma {:induction false} ZeroWeightsNoReturn(cur: seq<real>, prev: seq<real>, w: seq<real>)
    requires |cur| == |prev| == |w| && NonZero(prev)
    requires forall c :: 0 <= c < |w| ==> w[c] == 0.0
    ensures Blend(cur, prev, w) == 0.0
  {
    if |cur| > 0 {
      ZeroWeightsNoReturn(cur[1..], prev[1..], w[1..]);
    }
  }

  /** A period in which no price moved has no return, whatever the weights. */
  lemma {:induction false} FlatPricesNoReturn(cur: seq<real>, prev: seq<real>, w: seq<real>)
    requires |cur| == |prev| == |w| && NonZero(prev)
    requires forall c :: 0 <= c < |cur| ==> cur[c] == prev[c]
    ensures Blend(cur, prev, w) == 0.0
  {
    if |cur| > 0 {
      FlatPricesNoReturn(cur[1..], prev[1..], w[1..]);
    }
  }

  /** The weighted price relatives `sum of w[c] * cur[c] / prev[c]`. */
  function WeightedRelative(cur: seq<real>, prev: seq<real>, w: seq<real>): real
    requires |cur| == |prev| == |w| && NonZero(prev)
  {
    if |cur| == 0 then 0.0
    else w[0] * (cur[0] / prev[0]) + WeightedRelative(cur[1..], prev[1..], w[1..])
  }

  /** The sum of a sequence: the total weight of a row, or the sum of a filled weight column. */
  function Total(w: seq<real>): real {
    if |w| == 0 then 0.0 else w[0] + Total(w[1..])
  }

  lemma {:induction false} ReturnIsRelativeLessOne(now: real, before: real, w: real)
    requires before != 0.0
    ensures SimpleReturn(now, before) * w == w * (now / before) - w
  {
    assert before / before == 1.0;
    assert (now - before) / before == now / before - before / before;
  }

  /** The blended return of every period. */
  function PeriodReturns(cur: seq<seq<real>>, prev: seq<seq<real>>, w: seq<seq<real>>): (rs: seq<real>)
    requires |cur| == |prev| == |w|
    requires forall t :: 0 <= t < |cur| ==> |cur[t]| == |prev[t]| == |w[t]| && NonZero(prev[t])
    ensures |rs| == |cur|
  {
    seq(|cur|, t requires 0 <= t < |cur| => Blend(cur[t], prev[t], w[t]))
  }

  /** The value `v` grown by the return `r`. */
  function Grow(v: real, r: real): real {
    v * (1.0 + r)
  }

  /** The growth factor of a run of periods: the product of `1 + rs[j]`. */
  function Growth(rs: seq<real>): real {
    if |rs| == 0 then 1.0 else Grow(Growth(rs[..|rs| - 1]), rs[|rs| - 1])
  }

  /** Growth over two consecutive runs is the product of their growths (chain linking). */
  lemma {:induction false} GrowthChains(a: seq<real>, b: seq<real>)
    ensures Growth(a + b) == Growth(a) * Growth(b)
    decreases |b|
  {
    if |b| > 0 {
      var front := b[..|b| - 1];
      assert (a + b)[..|a + b| - 1] == a + front;
      GrowthChains(a, front);
    } else {
      assert a + b == a;
    }
  }

  /** Runs without returns do not grow. */
  lemma {:induction false} GrowthOfFlatRun(rs: seq<real>)
    requires forall j :: 0 <= j < |rs| ==> rs[j] == 0.0
    ensures Growth(rs) == 1.0
  {
    if |rs| > 0 {
      GrowthOfFlatRun(rs[..|rs| - 1]);
    }
  }

  /** The index value before period `i`: the seed 1 before the first period, then the previous value. */
  function Before(out: seq<real>, i: nat): real
    requires i < |out|
  {
    if i == 0 then 1.0 else out[i - 1]
  }

  /** The performance index: seeded at 1, each value the one before it grown by that period's
      return, and the seed itself left out. */
  function Compound(rs: seq<real>): (out: seq<real>)
    ensures |out| == |rs|
  {
    if |rs| == 0 then []
    else
      var n := |rs|;
      var front := Compound(rs[..n - 1]);
      var seed := if n == 1 then 1.0 else front[n - 2];
      front + [Grow(seed, rs[n - 1])]
  }

  /** The recurrence of the source's loop: value `i` is the value before it (1 for the first)
      grown by the return of period `i`. */
  lemma {:induction false} CompoundStep(rs: seq<real>, i: nat)
    requires i < |rs|
    ensures Compound(rs)[i] == Grow(Before(Compound(rs), i), rs[i])
    decreases |rs|
  {
    var n := |rs|;
    var front := Compound(rs[..n - 1]);
    if i < n - 1 {
      CompoundStep(rs[..n - 1], i);
      assert Compound(rs)[i] == front[i];
      assert rs[..n - 1][i] == rs[i];
      assert Before(Compound(rs), i) == Before(front, i);
    }
  }

  /** Growing a prefix by one more period multiplies its growth by that period's factor. */
  lemma {:induction false} GrowthStep(rs: seq<real>, i: nat)
    requires i < |rs|
    ensures Growth(rs[..i + 1]) == Grow(Growth(rs[..i]), rs[i])
  {
    assert rs[..i + 1][..i] == rs[..i];
  }

  /** Value `i` of the index is the growth over periods `0..i`. */
  lemma {:induction false} CompoundIsGrowth(rs: seq<real>, i: nat)
    requires i < |rs|
    ensures Compound(rs)[i] == Growth(rs[..i + 1])
    decreases i
  {
    var out := Compound(rs);
    CompoundStep(rs, i);
    if i > 0 {
      CompoundIsGrowth(rs, i - 1);
    } else {
      assert rs[..0] == [];
    }
    assert Before(out, i) == Growth(rs[..i]);
    GrowthStep(rs, i);
  }

  /** An index over periods without returns stays at 1. */
  lemma {:induction false} FlatRunKeepsIndex(rs: seq<real>)
    requires forall j :: 0 <= j < |rs| ==> rs[j] == 0.0
    ensures forall i :: 0 <= i < |rs| ==> Compound(rs)[i] == 1.0
  {
    forall i | 0 <= i < |rs|
      ensures Compound(rs)[i] == 1.0
    {
      CompoundIsGrowth(rs, i);
      GrowthOfFlatRun(rs[..i + 1]);
    }
  }

  /** The index recovers each period's return: `out[i] / out[i-1] - 1 == rs[i]` (with the seed 1 before `out[0]`). */
  lemma {:induction false} IndexRatioIsReturn(rs: seq<real>, i: nat)
    requires i < |rs|
    requires i > 0 ==> Compound(rs)[i - 1] != 0.0
    ensures Compound(rs)[i] / Before(Compound(rs), i) - 1.0 == rs[i]
  {
    CompoundStep(rs, i);
    var before := Before(Compound(rs), i);
    var q := 1.0 + rs[i];
    assert Compound(rs)[i] == before * q;
    GrownRatio(before, q);
    assert Compound(rs)[i] / before == q;
  }

  lemma {:induction false} GrownRatio(a: real, q: real)
    requires a != 0.0
    ensures (a * q) / a == q
  {
    var y := (a * q) / a;
    assert y * a == q * a;
    assert (y - q) * a == 0.0;
  }

  /** The latest index value: the seed 1 before any period. */
  function Latest(out: seq<real>): real {
    if |out| == 0 then 1.0 else out[|out| - 1]
  }

  /** One more period appends the latest value grown by that period's return. */
  lemma {:induction false} CompoundExtends(rs: seq<real>, r: real)
    ensures Compound(rs + [r]) == Compound(rs) + [Grow(Latest(Compound(rs)), r)]
  {
    var s := rs + [r];
    var n := |s|;
    assert s[..n - 1] == rs && s[n - 1] == r;
    var front := Compound(s[..n - 1]);
    assert Compound(s) == front + [Grow(if n == 1 then 1.0 else front[n - 2], s[n - 1])];
  }

  /** The loop's step keeps its invariant: after `p` has grown to hold the seed and the values of
      the first `i - 1` periods, appending the next value makes it hold the first `i`. */
  lemma {:induction false} LoopStep(rs: seq<real>, p: seq<real>, i: nat)
    requires 1 <= i <= |rs| && |p| == i && p[0] == 1.0
    requires p[1..] == Compound(rs[..i - 1])
    ensures (p + [Grow(p[i - 1], rs[i - 1])])[1..] == Compound(rs[..i])
  {
    assert rs[..i] == rs[..i - 1] + [rs[i - 1]];
    CompoundExtends(rs[..i - 1], rs[i - 1]);
    assert Latest(p[1..]) == p[i - 1];
    var next := Grow(p[i - 1], rs[i - 1]);
    assert (p + [next])[1..] == p[1..] + [next];
  }

  /** The source's loop: `p[0] = 1`, `p[i] = p[i-1] * (1 + rs[i-1])`, then `p[1:]`. */
  method CompoundLoop(rs: seq<real>) returns (out: seq<real>)
    ensures out == Compound(rs)
  {
    var p := [1.0];
    var i := 1;
    while i < |rs| + 1
      invariant 1 <= i <= |rs| + 1
      invariant |p| == i && p[0] == 1.0
      invariant p[1..] == Compound(rs[..i - 1])
    {
      LoopStep(rs, p, i);
      p := p + [Grow(p[i - 1], rs[i - 1])];
      i := i + 1;
    }
    assert rs[..|rs|] == rs;
    out := p[1..];
  }
}
