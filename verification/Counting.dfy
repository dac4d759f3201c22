// Counting over the threads of a protocol.

module Counting {

  function Count<T(==)>(xs: seq<T>, x: T): nat {
    if xs == [] then 0 else Count(xs[..|xs| - 1], x) + (if xs[|xs| - 1] == x then 1 else 0)
  }

  lemma {:induction false} CountUpdate<T>(xs: seq<T>, i: nat, y: T, x: T)
    requires i < |xs|
    ensures Count(xs[i := y], x) == Count(xs, x) - (if xs[i] == x then 1 else 0) + (if y == x then 1 else 0)
  {
    var n := |xs| - 1;
    if i == n {
      assert xs[i := y][..n] == xs[..n];
    } else {
      assert xs[i := y][..n] == xs[..n][i := y];
      CountUpdate(xs[..n], i, y, x);
    }
  }

  lemma {:induction false} CountPositive<T>(xs: seq<T>, i: nat)
    requires i < |xs|
    ensures Count(xs, xs[i]) > 0
  {
    var n := |xs| - 1;
    if i < n {
      CountPositive(xs[..n], i);
    }
  }

  lemma {:induction false} CountNone<T>(xs: seq<T>, x: T)
    requires x !in xs
    ensures Count(xs, x) == 0
  {
    if xs != [] {
      CountNone(xs[..|xs| - 1], x);
    }
  }
}
