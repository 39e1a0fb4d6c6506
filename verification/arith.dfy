/** The larger of two integers, and facts about multiplication and
    division that the solver does not find on its own. */
module Arith {
  /** `max` on integers. */
  function Max(a: int, b: int): (m: int)
    ensures m >= a && m >= b && (m == a || m == b)
  {
    if a >= b then a else b
  }

  lemma {:induction false} MulAtLeast(a: nat, m: nat)
    requires a >= 1
    ensures a * m >= m
  {
    if a > 1 {
      MulAtLeast(a - 1, m);
      assert a * m == (a - 1) * m + m;
    }
  }

  lemma MulDiv(k: nat, m: nat)
    requires m > 0
    ensures (k * m) / m == k && (k * m) % m == 0
  {
    var q, r := (k * m) / m, (k * m) % m;
    assert k * m == q * m + r;
    if q < k {
      assert (k - q) * m == k * m - q * m;
      MulAtLeast(k - q, m);
    } else if q > k {
      assert (q - k) * m == q * m - k * m;
      MulAtLeast(q - k, m);
    }
  }

  /** A product grows with both factors. */
  lemma MulMonotone(a: nat, b: nat, c: nat, d: nat)
    requires a <= c && b <= d
    ensures a * b <= c * d
  {
    assert c * b - a * b == (c - a) * b;
    assert c * d - c * b == c * (d - b);
  }
}
