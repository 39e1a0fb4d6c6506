/** Folds over integer sequences shared by several solvers: `Iterator::sum`
    and the product fold that starts from 1. */
module Seqs {

  /** `iter().sum()`. */
  function Sum(s: seq<int>): int {
    if |s| == 0 then 0 else Sum(s[..|s| - 1]) + s[|s| - 1]
  }

  /** `iter().product()`, or a multiplying fold that starts from 1. */
  function Product(s: seq<int>): int {
    if |s| == 0 then 1 else Product(s[..|s| - 1]) * s[|s| - 1]
  }

  predicate AllNonNegative(s: seq<int>) {
    forall i :: 0 <= i < |s| ==> s[i] >= 0
  }

  lemma {:induction false} SumNonNegative(s: seq<int>)
    requires AllNonNegative(s)
    ensures Sum(s) >= 0
  {
    if |s| > 0 {
      SumNonNegative(s[..|s| - 1]);
    }
  }

  lemma {:induction false} SumConcat(a: seq<int>, b: seq<int>)
    ensures Sum(a + b) == Sum(a) + Sum(b)
    decreases |b|
  {
    if |b| > 0 {
      assert (a + b)[..|a + b| - 1] == a + b[..|b| - 1];
      SumConcat(a, b[..|b| - 1]);
    } else {
      assert a + b == a;
    }
  }

  /** Overwriting one slot changes the sum by the difference. */
  lemma SumUpdate(s: seq<int>, i: nat, v: int)
    requires i < |s|
    ensures Sum(s[i := v]) == Sum(s) - s[i] + v
  {
    assert s == s[..i] + [s[i]] + s[i + 1..];
    assert s[i := v] == s[..i] + [v] + s[i + 1..];
    SumConcat(s[..i] + [s[i]], s[i + 1..]);
    SumConcat(s[..i], [s[i]]);
    SumConcat(s[..i] + [v], s[i + 1..]);
    SumConcat(s[..i], [v]);
  }

  /** A sequence that is zero except for `v` at one slot sums to `v`. */
  lemma {:induction false} SumSingle(s: seq<int>, i: nat, v: int)
    requires i < |s|
    requires forall j :: 0 <= j < |s| ==> s[j] == (if j == i then v else 0)
    ensures Sum(s) == v
  {
    var z := seq(|s|, j => 0);
    SumZero(z);
    assert s == z[i := v];
    SumUpdate(z, i, v);
  }

  lemma {:induction false} SumZero(s: seq<int>)
    requires forall j :: 0 <= j < |s| ==> s[j] == 0
    ensures Sum(s) == 0
  {
    if |s| > 0 {
      SumZero(s[..|s| - 1]);
    }
  }

  lemma {:induction false} ProductConcat(a: seq<int>, b: seq<int>)
    ensures Product(a + b) == Product(a) * Product(b)
    decreases |b|
  {
    if |b| > 0 {
      assert (a + b)[..|a + b| - 1] == a + b[..|b| - 1];
      ProductConcat(a, b[..|b| - 1]);
      var p, q, x := Product(a), Product(b[..|b| - 1]), b[|b| - 1];
      assert (p * q) * x == p * (q * x);
    } else {
      assert a + b == a;
    }
  }

  /** The elements of `s` in the opposite order, like `iter().rev()`. */
  function Reverse(s: seq<int>): (r: seq<int>)
    ensures |r| == |s| && forall i :: 0 <= i < |s| ==> r[i] == s[|s| - 1 - i]
  {
    seq(|s|, i requires 0 <= i < |s| => s[|s| - 1 - i])
  }

  /** The order of the terms does not change a sum or a product. */
  lemma {:induction false} ReverseFolds(s: seq<int>)
    ensures Sum(Reverse(s)) == Sum(s)
    ensures Product(Reverse(s)) == Product(s)
  {
    if |s| > 0 {
      var init, last := s[..|s| - 1], s[|s| - 1];
      ReverseFolds(init);
      assert Reverse(s) == [last] + Reverse(init);
      SumConcat([last], Reverse(init));
      ProductConcat([last], Reverse(init));
      assert Sum([last]) == last && Product([last]) == last by {
        assert [last][..0] == [];
      }
    }
  }
}
