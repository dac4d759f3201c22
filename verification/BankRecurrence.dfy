// The schedule of a first-come-first-served counter with several windows,
// written as a recurrence over customers and without any event list.

module BankRecurrence {
  import opened BankModel

  function ArrivalTime(d: Draws, n: nat): int {
    if n == 0 then d.first else ArrivalTime(d, n - 1) + d.gap(n - 1)
  }

  function Max(x: int, y: int): int { if x > y then x else y }

  /** The window that becomes free first. */
  function EarliestWindow(free: seq<int>): (k: nat)
    requires free != []
    ensures k < |free|
    ensures forall i | 0 <= i < |free| :: free[k] <= free[i]
  {
    if |free| == 1 then 0 else
      var k := EarliestWindow(free[..|free| - 1]);
      if free[|free| - 1] < free[k] then |free| - 1 else k
  }

  /** When the windows become free, once customers 0..n-1 have been given a window each. */
  function Free(d: Draws, windows: nat, n: nat): (free: seq<int>)
    ensures |free| == windows
  {
    if n == 0 || windows == 0 then seq(windows, _ => 0) else
      var free := Free(d, windows, n - 1);
      var k := EarliestWindow(free);
      free[k := Max(ArrivalTime(d, n - 1), free[k]) + d.duration(n - 1)]
  }

  /** Customer n starts on arrival, or when the first window becomes free if that is later. */
  function StartTime(d: Draws, windows: nat, n: nat): int
    requires windows > 0
  {
    var free := Free(d, windows, n);
    Max(ArrivalTime(d, n), free[EarliestWindow(free)])
  }

  function LeaveTime(d: Draws, windows: nat, n: nat): int
    requires windows > 0
  {
    StartTime(d, windows, n) + d.duration(n)
  }

  /** Customers that ever come in: the opening one, and those who come before closing. */
  ghost predicate Comes(d: Draws, closing: int, n: nat) {
    n == 0 || ArrivalTime(d, n) < closing
  }

  /** Total stay of the customers among 0..n-1 who leave before closing. */
  function DirectStay(d: Draws, windows: nat, closing: int, n: nat): int
    requires windows > 0
  {
    if n == 0 then 0 else
      DirectStay(d, windows, closing, n - 1) +
      (if LeaveTime(d, windows, n - 1) < closing
       then LeaveTime(d, windows, n - 1) - ArrivalTime(d, n - 1) else 0)
  }

  /** The visit the recurrence plans for each of the customers 0..n-1. */
  function Planned(d: Draws, windows: nat, n: nat): seq<Visit>
    requires windows > 0
  {
    seq(n, i requires 0 <= i < n => Visit(ArrivalTime(d, i), LeaveTime(d, windows, i)))
  }

  // ---------- the recurrence is monotone ----------

  lemma {:induction false} ArrivalsInOrder(d: Draws, m: nat, n: nat)
    requires m <= n
    ensures 0 <= ArrivalTime(d, m) <= ArrivalTime(d, n)
    decreases n
  {
    if n > 0 {
      if m < n {
        ArrivalsInOrder(d, m, n - 1);
      } else {
        ArrivalsInOrder(d, n - 1, n - 1);
      }
    }
  }

  lemma {:induction false} StartsInOrder(d: Draws, windows: nat, m: nat, n: nat)
    requires windows > 0 && m <= n
    ensures StartTime(d, windows, m) <= StartTime(d, windows, n)
    decreases n
  {
    if m < n {
      StartsInOrder(d, windows, m, n - 1);
      ArrivalsInOrder(d, n - 1, n);
    }
  }

  // ---------- how many windows are free by a given time ----------

  function FreeBy(free: seq<int>, t: int): nat {
    if free == [] then 0 else FreeBy(free[..|free| - 1], t) + (if free[|free| - 1] <= t then 1 else 0)
  }

  lemma {:induction false} FreeByUpdate(free: seq<int>, k: nat, x: int, t: int)
    requires k < |free|
    ensures FreeBy(free[k := x], t) ==
            FreeBy(free, t) - (if free[k] <= t then 1 else 0) + (if x <= t then 1 else 0)
  {
    var n := |free| - 1;
    if k == n {
      assert free[k := x][..n] == free[..n];
    } else {
      assert free[k := x][..n] == free[..n][k := x];
      FreeByUpdate(free[..n], k, x, t);
    }
  }

  lemma {:induction false} FreeByPositive(free: seq<int>, t: int)
    ensures FreeBy(free, t) > 0 <==> exists i :: 0 <= i < |free| && free[i] <= t
  {
    if free != [] {
      var n := |free| - 1;
      FreeByPositive(free[..n], t);
      if i :| 0 <= i < |free| && free[i] <= t {
        assert i < n ==> free[..n][i] <= t;
      }
    }
  }

  /** Nobody who comes at or after time t can tell the two banks of windows apart. */
  ghost predicate SameFrom(t: int, f: seq<int>, g: seq<int>) {
    forall v :: v >= t ==> FreeBy(f, v) == FreeBy(g, v)
  }

  /**
   * The first-free time is the same in both banks as seen from t, and giving
   * the next customer any window that is free then keeps the banks the same:
   * which of several suitable windows is taken does not matter.
   */
  lemma SameChoice(t: int, f: seq<int>, g: seq<int>, w: nat, duration: nat)
    requires f != [] && w < |g| && SameFrom(t, f, g)
    requires forall j | 0 <= j < |g| :: Max(t, g[w]) <= Max(t, g[j])
    ensures Max(t, f[EarliestWindow(f)]) == Max(t, g[w])
    ensures var k := EarliestWindow(f); var s := Max(t, g[w]);
            SameFrom(t, f[k := s + duration], g[w := s + duration])
  {
    var k := EarliestWindow(f);
    var s := Max(t, g[w]);
    assert FreeBy(f, s) == FreeBy(g, s);
    FreeByPositive(f, s);
    FreeByPositive(g, s);
    var s' := Max(t, f[k]);
    assert FreeBy(f, s') == FreeBy(g, s');
    FreeByPositive(f, s');
    FreeByPositive(g, s');
    assert g[w] <= s;
    assert f[k] <= s';
    assert s' == s;
    var f', g' := f[k := s + duration], g[w := s + duration];
    forall v | v >= t
      ensures FreeBy(f', v) == FreeBy(g', v)
    {
      FreeByUpdate(f, k, s + duration, v);
      FreeByUpdate(g, w, s + duration, v);
    }
  }
}
