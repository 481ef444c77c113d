/** Division facts that the solver does not find by itself. */
module Arithmetic {
  lemma QuotientIsUnique(value: int, d: int, q: int, r: int)
    requires d > 0 && 0 <= r < d && value == d * q + r
    ensures value / d == q && value % d == r
  {
    var q0, r0 := value / d, value % d;
    assert value == d * q0 + r0;
    if q0 > q {
      Grows(d, q, q0);
      assert false;
    } else if q0 < q {
      Grows(d, q0, q);
      assert false;
    }
  }

  lemma Grows(d: int, low: int, high: int)
    requires d > 0 && low < high
    ensures d * high >= d * low + d
  {
    assert d * (high - low - 1) >= 0;
    assert d * (high - low - 1) == d * high - d * low - d;
  }

  lemma DivisionMonotone(a: nat, b: nat, d: nat)
    requires d > 0 && a <= b
    ensures a / d <= b / d
  {
    var x, y := a / d, b / d;
    assert a == d * x + a % d && b == d * y + b % d;
    if y < x {
      Grows(d, y, x);
    }
  }

  lemma NotNegative(x: nat, y: nat)
    ensures x * y >= 0
  {
  }

  lemma MultiplyMonotone(x: nat, y: nat, d: nat)
    requires x <= y
    ensures x * d <= y * d && d * x <= d * y
  {
  }

  /** Counting on by one: the remainder goes up, or starts over with the next quotient. */
  lemma NextRemainder(k: nat, d: nat)
    requires d > 0
    ensures if k % d + 1 == d then (k + 1) % d == 0 && (k + 1) / d == k / d + 1
            else (k + 1) % d == k % d + 1 && (k + 1) / d == k / d
  {
    var a, r := k / d, k % d;
    if r + 1 == d {
      QuotientIsUnique(k + 1, d, a + 1, 0);
    } else {
      QuotientIsUnique(k + 1, d, a, r + 1);
    }
  }
}
