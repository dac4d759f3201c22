// Quotients and remainders by a variable.

module Arithmetic {

  /** A multiple of m that is not zero is at least m away from it. */
  lemma {:induction false} MultipleBound(m: nat, d: int)
    ensures d >= 1 ==> m * d >= m
    ensures d <= -1 ==> m * d <= -(m as int)
  {
    if d >= 1 {
      assert m * d == m + m * (d - 1);
    } else if d <= -1 {
      assert m * d == -(m + m * (-d - 1));
    }
  }

  /** Quotient and remainder are unique. */
  lemma {:induction false} RemainderIs(x: int, m: nat, q: int, r: nat)
    requires x == m * q + r && r < m
    ensures x % m == r && x / m == q
  {
    var d := x / m - q;
    assert m * d == m * (x / m) - m * q;
    MultipleBound(m, d);
  }

  lemma {:induction false} RemainderOfSum(x: int, m: nat, k: int)
    requires m > 0
    ensures (x + m * k) % m == x % m
  {
    assert x + m * k == m * (x / m + k) + x % m;
    RemainderIs(x + m * k, m, x / m + k, x % m);
  }
}
