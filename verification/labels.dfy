/** The order pandas gives the groups of a column group-by: labels sorted by Python's string
    comparison, each distinct label once. */
module Labels {
  import opened Tables

  /** Strict lexicographic order on labels, comparing characters by code point, as Python compares `str`. */
  predicate Below(a: Label, b: Label)
    decreases |a|
  {
    |b| > 0 && (|a| == 0 || a[0] < b[0] || (a[0] == b[0] && Below(a[1..], b[1..])))
  }

  lemma {:induction false} BelowIrreflexive(a: Label)
    ensures !Below(a, a)
    decreases |a|
  {
    if |a| > 0 {
      BelowIrreflexive(a[1..]);
    }
  }

  lemma {:induction false} BelowTransitive(a: Label, b: Label, c: Label)
    requires Below(a, b) && Below(b, c)
    ensures Below(a, c)
    decreases |a|
  {
    if |a| > 0 && a[0] == b[0] && b[0] == c[0] {
      BelowTransitive(a[1..], b[1..], c[1..]);
    }
  }

  lemma {:induction false} BelowTotal(a: Label, b: Label)
    requires a != b
    ensures Below(a, b) || Below(b, a)
    decreases |a|
  {
    if |a| > 0 && |b| > 0 && a[0] == b[0] {
      assert a == [a[0]] + a[1..];
      assert b == [b[0]] + b[1..];
      BelowTotal(a[1..], b[1..]);
    }
  }

  /** Each label is below the next one. */
  predicate StrictlySorted(ks: seq<Label>) {
    forall i :: 0 < i < |ks| ==> Below(ks[i - 1], ks[i])
  }

  /** In a strictly sorted sequence every label is below every later one. */
  lemma {:induction false} SortedPairs(ks: seq<Label>)
    requires StrictlySorted(ks)
    ensures forall i, j :: 0 <= i < j < |ks| ==> Below(ks[i], ks[j])
    decreases |ks|
  {
    if |ks| > 1 {
      var front := ks[..|ks| - 1];
      assert StrictlySorted(front);
      SortedPairs(front);
      forall i | 0 <= i < |ks| - 1
        ensures Below(ks[i], ks[|ks| - 1])
      {
        if i < |ks| - 2 {
          assert Below(front[i], front[|ks| - 2]);
          BelowTransitive(ks[i], ks[|ks| - 2], ks[|ks| - 1]);
        }
      }
    }
  }

  /** A label below the first of a strictly sorted sequence is below all of them, so it is not among them. */
  lemma BelowFirstNotIn(x: Label, ks: seq<Label>)
    requires StrictlySorted(ks) && |ks| > 0 && Below(x, ks[0])
    ensures x !in ks
  {
    SortedPairs(ks);
    forall k | 0 < k < |ks|
      ensures x != ks[k]
    {
      BelowTransitive(x, ks[0], ks[k]);
      BelowIrreflexive(x);
    }
    BelowIrreflexive(x);
  }

  /** Adds `x` to a strictly sorted sequence of labels, unless it is already there. */
  function Insert(x: Label, ks: seq<Label>): (r: seq<Label>)
    requires StrictlySorted(ks)
    ensures StrictlySorted(r)
    ensures forall y :: y in r <==> y == x || y in ks
    ensures |r| == if x in ks then |ks| else |ks| + 1
    ensures |r| > 0 && (r[0] == x || (|ks| > 0 && r[0] == ks[0]))
    decreases |ks|
  {
    if |ks| == 0 then [x]
    else if x == ks[0] then ks
    else if Below(x, ks[0]) then
      BelowFirstNotIn(x, ks);
      [x] + ks
    else
      BelowTotal(x, ks[0]);
      [ks[0]] + Insert(x, ks[1..])
  }

  /** The group keys of a group-by over columns labelled `ks`: every label once, in sorted order. */
  function SortKeys(ks: seq<Label>): (r: seq<Label>)
    ensures StrictlySorted(r)
    ensures forall y :: y in r <==> y in ks
    ensures Distinct(ks) ==> |r| == |ks|
  {
    if |ks| == 0 then []
    else
      assert Distinct(ks) ==> Distinct(ks[1..]) && ks[0] !in ks[1..];
      Insert(ks[0], SortKeys(ks[1..]))
  }

  /** Two strictly sorted sequences with the same labels are equal. */
  lemma {:induction false} SortedUnique(a: seq<Label>, b: seq<Label>)
    requires StrictlySorted(a) && StrictlySorted(b)
    requires forall y :: y in a <==> y in b
    ensures a == b
    decreases |a|
  {
    if |a| > 0 || |b| > 0 {
      if |a| > 0 { assert a[0] in a; }
      if |b| > 0 { assert b[0] in b; }
      assert |a| > 0 && |b| > 0;
      SortedPairs(a);
      SortedPairs(b);
      BelowIrreflexive(a[0]);
      BelowIrreflexive(b[0]);
      assert a[0] == b[0] by {
        var k :| 0 <= k < |b| && b[k] == a[0];
        var l :| 0 <= l < |a| && a[l] == b[0];
        if k > 0 && l > 0 {
          BelowTransitive(b[0], a[0], b[0]);
        }
      }
      forall y
        ensures y in a[1..] <==> y in b[1..]
      {
        if y in a[1..] {
          var k :| 1 <= k < |a| && a[k] == y;
          assert y in b;
          var l :| 0 <= l < |b| && b[l] == y;
          assert l != 0;
          assert b[1..][l - 1] == y;
        }
        if y in b[1..] {
          var k :| 1 <= k < |b| && b[k] == y;
          assert y in a;
          var l :| 0 <= l < |a| && a[l] == y;
          assert l != 0;
          assert a[1..][l - 1] == y;
        }
      }
      SortedUnique(a[1..], b[1..]);
      assert a == [a[0]] + a[1..];
      assert b == [b[0]] + b[1..];
    }
  }

  /** The group keys come out in the order of `ks` exactly when `ks` is strictly sorted. */
  lemma SortKeysIdentity(ks: seq<Label>)
    ensures SortKeys(ks) == ks <==> StrictlySorted(ks)
  {
    if StrictlySorted(ks) {
      SortedUnique(SortKeys(ks), ks);
    }
  }
}
