/** Small facts about multiplication and division used by the bounds. */
module Arithmetic {

  lemma MultiplyOneMore(r: nat, d: int)
    ensures (r + 1) * d == r * d + d
  {
  }

  lemma {:induction false} MultiplyMonotone(a: nat, b: nat, d: nat)
    requires a <= b
    ensures a * d <= b * d
    decreases b - a
  {
    if a < b {
      MultiplyMonotone(a, b - 1, d);
      MultiplyOneMore(b - 1, d);
    }
  }

  lemma DivisionBound(q: nat, d: int, n: nat)
    requires d >= 1 && q * d <= n
    ensures q <= n / d
  {
    var m := n / d;
    assert n == m * d + n % d;
    if q > m {
      MultiplyMonotone(m + 1, q, d);
      MultiplyOneMore(m, d);
      assert false;
    }
  }

  /** n(n-1)/2, the number of unordered pairs of n items, is below ten
      exactly when n is below five. */
  lemma PairCountBelowTen(n: nat)
    ensures n * (n - 1) < 20 <==> n < 5
  {
    if n >= 5 {
      MultiplyMonotone(5, n, n - 1);
      MultiplyMonotone(4, n - 1, 5);
    } else {
      assert n == 0 || n == 1 || n == 2 || n == 3 || n == 4;
    }
  }
}
