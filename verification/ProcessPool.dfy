// The process pool's parent: connections go to the children in turn, children
// that die drop out.

module ProcessPool {
  import opened Arithmetic

  const DEAD: int := -1

  predicate Alive(pids: seq<int>, i: nat)
    requires i < |pids|
  {
    pids[i] != DEAD
  }

  // ---------- the search, on positions that are not wrapped ----------

  /**
   * The first position from q on whose child is alive, if one of the next k
   * is; positions are taken modulo the number of children.
   */
  function Search(pids: seq<int>, q: nat, k: nat): (a: nat)
    requires pids != []
    ensures q <= a <= q + k
    ensures forall x | q <= x < a :: !Alive(pids, x % |pids|)
    ensures a < q + k ==> Alive(pids, a % |pids|)
    decreases k
  {
    if k == 0 || Alive(pids, q % |pids|) then q else Search(pids, q + 1, k - 1)
  }

  ghost predicate AnyAlive(pids: seq<int>) { exists i :: 0 <= i < |pids| && Alive(pids, i) }

  lemma {:induction false} StepRemainder(x: nat, n: nat)
    requires n > 0
    ensures (x + 1) % n == (x % n + 1) % n
  {
    assert x + 1 == (x % n + 1) + n * (x / n);
    RemainderOfSum(x % n + 1, n, x / n);
  }

  /** Any n positions in a row meet every child. */
  lemma {:induction false} MeetsEveryChild(q: nat, n: nat, i: nat) returns (x: nat)
    requires i < n
    ensures q <= x < q + n && x % n == i
  {
    var d, r := q / n, q % n;
    assert q == n * d + r;
    if i >= r {
      x := q + (i - r);
      RemainderIs(x, n, d, i);
    } else {
      x := q + (n - r + i);
      assert x == n * (d + 1) + i;
      RemainderIs(x, n, d + 1, i);
    }
  }

  /** Two positions of one child that are less than n apart are the same. */
  lemma {:induction false} SameChildSameTurn(x: nat, y: nat, n: nat)
    requires n > 0 && x <= y < x + n && x % n == y % n
    ensures x == y
  {
    var i, j := x / n, y / n;
    assert x == n * i + x % n && y == n * j + y % n;
    assert y - x == n * j - n * i == n * (j - i);
    MultipleBound(n, j - i);
  }

  lemma {:induction false} SearchFinds(pids: seq<int>, q: nat)
    requires pids != []
    ensures AnyAlive(pids) <==> Search(pids, q, |pids|) < q + |pids|
  {
    var a := Search(pids, q, |pids|);
    if i :| 0 <= i < |pids| && Alive(pids, i) {
      var x := MeetsEveryChild(q, |pids|, i);
      assert a <= x;
    }
  }

  // ---------- the object ----------

  /** turn is the round-robin counter before wrapping. */
  class Parent {
    const pids: array<int>
    var counter: nat
    var stop: bool
    ghost var turn: nat

    ghost predicate Valid()
      reads this, pids
    {
      && pids.Length > 0 && counter == turn % pids.Length
      && (stop ==> !AnyAlive(pids[..]))
    }

    constructor (children: array<int>)
      requires children.Length > 0
      ensures Valid() && pids == children && counter == turn == 0 && !stop
    {
      pids, counter, turn, stop := children, 0, 0, false;
    }

    /**
     * A new connection: the search goes round at most once, starting at the
     * counter, and takes the first child that is alive; the pool is stopped
     * exactly if there is none.  m_stop is not looked at here: a connection may
     * follow, among the events of one wait, the signal that set it.
     */
    method Dispatch() returns (child: nat)
      requires Valid()
      modifies this`counter, this`stop, this`turn
      ensures Valid() && child < pids.Length
      ensures stop == !AnyAlive(pids[..])
      ensures var a := Search(pids[..], old(turn), pids.Length);
        !stop ==> child == a % pids.Length && Alive(pids[..], child) && turn == a + 1
      ensures stop ==> turn == old(turn) && counter == old(counter)
      ensures Do(Situation(pids[..], old(turn), []), Connect) ==
              Situation(pids[..], turn, if stop then [] else [turn - 1])
    {
      ghost var k;
      child, k := FindChild();
      if pids[child] == DEAD {
        NobodyAlive(pids[..], turn);
        stop := true;
        return;
      }
      assert Alive(pids[..], child);
      SearchIs(pids[..], turn, pids.Length, k);
      StepRemainder(turn + k, pids.Length);
      counter := (child + 1) % pids.Length;
      turn := turn + k + 1;
    }

    /** The search loop: it goes round once at most, and has found a live child unless all are dead. */
    method FindChild() returns (i: nat, ghost k: nat)
      requires Valid()
      ensures i < pids.Length && k <= pids.Length && i == (turn + k) % pids.Length
      ensures forall x | turn <= x < turn + k :: !Alive(pids[..], x % pids.Length)
      ensures pids[i] == DEAD ==> k == pids.Length
      ensures pids[i] != DEAD ==> k < pids.Length
    {
      i, k := counter, 0;
      var searching := true;
      while searching
        invariant i < pids.Length && i == (turn + k) % pids.Length && k <= pids.Length
        invariant searching ==> k < pids.Length
        invariant forall x | turn <= x < turn + k :: !Alive(pids[..], x % pids.Length)
        invariant !searching && k < pids.Length ==> pids[i] != DEAD
        invariant k == pids.Length ==> pids[i] == DEAD
        decreases searching, pids.Length - k
      {
        if pids[i] != DEAD {
          searching := false;
        } else {
          StepRemainder(turn + k, pids.Length);
          i := (i + 1) % pids.Length;
          k := k + 1;
          Wraps(turn, pids.Length);
          if i == counter {
            SameTurn(turn, turn + k, pids.Length);
            searching := false;
            assert !Alive(pids[..], turn % pids.Length);
          }
        }
      }
    }

    /** One child reported by waitpid: its entry becomes DEAD. */
    method Reap(pid: int)
      requires Valid()
      modifies pids
      ensures Valid() && pids[..] == Without(old(pids[..]), pid)
      ensures Do(Situation(old(pids[..]), turn, []), Death(pid)).pids == pids[..]
    {
      for i := 0 to pids.Length
        invariant forall j | 0 <= j < i :: pids[j] == if old(pids[j]) == pid then DEAD else old(pids[j])
        invariant forall j | i <= j < pids.Length :: pids[j] == old(pids[j])
      {
        if pids[i] == pid {
          pids[i] := DEAD;
        }
      }
      ghost var before := old(pids[..]);
      assert pids[..] == Without(before, pid);
      DeadStayDead(before, pid);
    }

    /** The end of the SIGCHLD case: stop exactly if nobody is alive. */
    method CheckAlive()
      requires pids.Length > 0 && counter == turn % pids.Length
      modifies this`stop
      ensures Valid() && stop == !AnyAlive(pids[..])
    {
      stop := true;
      for i := 0 to pids.Length
        invariant stop == forall j | 0 <= j < i :: pids[j] == DEAD
      {
        if pids[i] != DEAD {
          stop := false;
        }
      }
      assert stop ==> forall j | 0 <= j < pids.Length :: !Alive(pids[..], j);
      if !stop {
        var j :| 0 <= j < pids.Length && pids[j] != DEAD;
        assert Alive(pids[..], j);
      }
    }
  }

  function Without(pids: seq<int>, pid: int): (r: seq<int>)
    ensures |r| == |pids|
    ensures forall i | 0 <= i < |pids| :: r[i] == if pids[i] == pid then DEAD else pids[i]
  {
    seq(|pids|, i requires 0 <= i < |pids| => if pids[i] == pid then DEAD else pids[i])
  }

  lemma {:induction false} DeadStayDead(pids: seq<int>, pid: int)
    ensures AnyAlive(Without(pids, pid)) ==> AnyAlive(pids)
  {
    if i :| 0 <= i < |pids| && Alive(Without(pids, pid), i) {
      assert Alive(pids, i);
    }
  }

  lemma {:induction false} NobodyAlive(pids: seq<int>, q: nat)
    requires pids != [] && forall x | q <= x < q + |pids| :: !Alive(pids, x % |pids|)
    ensures !AnyAlive(pids)
  {
    forall i | 0 <= i < |pids| ensures !Alive(pids, i) {
      var x := MeetsEveryChild(q, |pids|, i);
    }
  }

  lemma {:induction false} SearchIs(pids: seq<int>, q: nat, n: nat, k: nat)
    requires pids != [] && k < n && Alive(pids, (q + k) % |pids|)
    requires forall x | q <= x < q + k :: !Alive(pids, x % |pids|)
    ensures Search(pids, q, n) == q + k
  {
  }

  lemma {:induction false} SameTurn(q: nat, x: nat, n: nat)
    requires n > 0 && q < x <= q + n && x % n == q % n
    ensures x == q + n
  {
    if x < q + n {
      SameChildSameTurn(q, x, n);
    }
  }

  lemma {:induction false} Wraps(q: nat, n: nat)
    requires n > 0
    ensures (q + n) % n == q % n
  {
    assert q + n == n * (q / n + 1) + q % n;
    RemainderIs(q + n, n, q / n + 1, q % n);
  }

  // ---------- fairness over whole histories ----------

  datatype Event = Connect | Death(pid: int)

  /** picks are the positions taken so far. */
  datatype Situation = Situation(pids: seq<int>, turn: nat, picks: seq<nat>)

  function Do(s: Situation, e: Event): Situation
    requires s.pids != []
  {
    match e
    case Connect =>
      var a := Search(s.pids, s.turn, |s.pids|);
      if a < s.turn + |s.pids| then s.(turn := a + 1, picks := s.picks + [a]) else s
    case Death(pid) => s.(pids := Without(s.pids, pid))
  }

  function DoAll(s: Situation, es: seq<Event>): (t: Situation)
    requires s.pids != []
    ensures |t.pids| == |s.pids|
    decreases |es|
  {
    if es == [] then s else DoAll(Do(s, es[0]), es[1..])
  }

  /** How many of the positions belong to child i. */
  function Dispatches(picks: seq<nat>, n: nat, i: nat): nat
    requires n > 0
  {
    if picks == [] then 0 else
      Dispatches(picks[..|picks| - 1], n, i) + (if picks[|picks| - 1] % n == i then 1 else 0)
  }

  /** How many positions from lo up to hi belong to child i. */
  function Turns(lo: nat, hi: nat, n: nat, i: nat): nat
    requires n > 0 && lo <= hi
  {
    if lo == hi then 0 else Turns(lo, hi - 1, n, i) + (if (hi - 1) % n == i then 1 else 0)
  }

  /** No positions of child i between lo and hi, if the child is dead there. */
  lemma {:induction false} NoTurns(lo: nat, hi: nat, n: nat, i: nat)
    requires n > 0 && lo <= hi && forall x | lo <= x < hi :: x % n != i
    ensures Turns(lo, hi, n, i) == 0
  {
    if lo < hi {
      NoTurns(lo, hi - 1, n, i);
    }
  }

  lemma {:induction false} TurnsAdd(lo: nat, mid: nat, hi: nat, n: nat, i: nat)
    requires n > 0 && lo <= mid <= hi
    ensures Turns(lo, hi, n, i) == Turns(lo, mid, n, i) + Turns(mid, hi, n, i)
    decreases hi
  {
    if mid < hi {
      TurnsAdd(lo, mid, hi - 1, n, i);
    }
  }

  /** One event: a child that is alive afterwards is dispatched to once for each of its turns that went by. */
  lemma {:induction false} EventIsFair(s: Situation, e: Event, i: nat)
    requires s.pids != [] && i < |s.pids|
    ensures var t := Do(s, e); var n := |s.pids|;
      && |t.pids| == n && s.turn <= t.turn
      && (Alive(t.pids, i) ==>
            && Alive(s.pids, i)
            && Dispatches(t.picks, n, i) == Dispatches(s.picks, n, i) + Turns(s.turn, t.turn, n, i))
  {
    var t, n := Do(s, e), |s.pids|;
    var a := Search(s.pids, s.turn, n);
    if e == Connect && a < s.turn + n {
      assert t.picks[..|s.picks|] == s.picks;
      if Alive(t.pids, i) {
        NoTurns(s.turn, a, n, i);
      }
    }
  }

  /** Over any history, a child that survives it gets every one of its turns. */
  lemma {:induction false} SurvivorsGetTheirTurns(s: Situation, es: seq<Event>, i: nat)
    requires s.pids != [] && i < |s.pids|
    ensures var t := DoAll(s, es); var n := |s.pids|;
      && s.turn <= t.turn
      && (Alive(t.pids, i) ==>
            && Alive(s.pids, i)
            && Dispatches(t.picks, n, i) == Dispatches(s.picks, n, i) + Turns(s.turn, t.turn, n, i))
    decreases |es|
  {
    if es != [] {
      var u := Do(s, es[0]);
      EventIsFair(s, es[0], i);
      SurvivorsGetTheirTurns(u, es[1..], i);
      TurnsAdd(s.turn, u.turn, DoAll(s, es).turn, |s.pids|, i);
    }
  }

  /** A full round is one turn each. */
  lemma {:induction false} OneTurnPerRound(lo: nat, n: nat, i: nat)
    requires i < n
    ensures Turns(lo, lo + n, n, i) == 1
  {
    var x := MeetsEveryChild(lo, n, i);
    TurnsAdd(lo, x, lo + n, n, i);
    TurnsAdd(x, x + 1, lo + n, n, i);
    forall y | lo <= y < x ensures y % n != i {
      if y % n == i { SameChildSameTurn(y, x, n); }
    }
    NoTurns(lo, x, n, i);
    forall y | x + 1 <= y < lo + n ensures y % n != i {
      if y % n == i { SameChildSameTurn(x, y, n); }
    }
    NoTurns(x + 1, lo + n, n, i);
    assert Turns(x, x, n, i) == 0;
  }

  /** The numbers of turns of two children never differ by more than one. */
  lemma {:induction false} TurnsAreEven(lo: nat, hi: nat, n: nat, i: nat, j: nat)
    requires i < n && j < n && lo <= hi
    ensures Turns(lo, hi, n, i) <= Turns(lo, hi, n, j) + 1
    decreases hi
  {
    if hi >= lo + n {
      TurnsAdd(lo, hi - n, hi, n, i);
      TurnsAdd(lo, hi - n, hi, n, j);
      OneTurnPerRound(hi - n, n, i);
      OneTurnPerRound(hi - n, n, j);
      TurnsAreEven(lo, hi - n, n, i, j);
    } else {
      TurnsAdd(lo, hi, lo + n, n, i);
      OneTurnPerRound(lo, n, i);
    }
  }

  /**
   * Fairness: over any stretch of connections and deaths, two children that
   * survive it are dispatched to equally often, up to one; without deaths
   * that is any two children.
   */
  lemma {:induction false} DispatchIsFair(s: Situation, es: seq<Event>, i: nat, j: nat)
    requires s.pids != [] && i < |s.pids| && j < |s.pids|
    requires Alive(DoAll(s, es).pids, i) && Alive(DoAll(s, es).pids, j)
    ensures var t, n := DoAll(s, es), |s.pids|;
      Dispatches(t.picks, n, i) - Dispatches(s.picks, n, i) <=
      Dispatches(t.picks, n, j) - Dispatches(s.picks, n, j) + 1
  {
    SurvivorsGetTheirTurns(s, es, i);
    SurvivorsGetTheirTurns(s, es, j);
    TurnsAreEven(s.turn, DoAll(s, es).turn, |s.pids|, i, j);
  }

  /**
   * Between two dispatches to child i with none in between, every other child
   * that is alive throughout gets exactly one.  s stands just after the first,
   * and the last event of the stretch is the second.
   */
  lemma {:induction false} OneEachBetween(s: Situation, es: seq<Event>, a: nat, i: nat, j: nat)
    requires s.pids != [] && i < |s.pids| && j < |s.pids| && i != j
    requires s.turn == a + 1 && a % |s.pids| == i
    requires var t := DoAll(s, es);
      && Alive(t.pids, i) && Alive(t.pids, j)
      && Dispatches(t.picks, |s.pids|, i) == Dispatches(s.picks, |s.pids|, i) + 1
      && t.turn > s.turn && (t.turn - 1) % |s.pids| == i
    ensures Dispatches(DoAll(s, es).picks, |s.pids|, j) == Dispatches(s.picks, |s.pids|, j) + 1
  {
    var t, n := DoAll(s, es), |s.pids|;
    SurvivorsGetTheirTurns(s, es, i);
    SurvivorsGetTheirTurns(s, es, j);
    assert Turns(s.turn, t.turn, n, i) == 1;
    Wraps(a, n);
    if t.turn < s.turn + n {
      SameTurn(a, t.turn - 1, n);
    } else if t.turn > s.turn + n {
      TurnsAdd(s.turn, s.turn + n, t.turn, n, i);
      OneTurnPerRound(s.turn, n, i);
      TurnsAdd(s.turn + n, t.turn - 1, t.turn, n, i);
      assert Turns(t.turn - 1, t.turn - 1, n, i) == 0;
    }
    OneTurnPerRound(s.turn, n, j);
  }

  /** The position that Dispatch takes is the one this history takes. */
  lemma {:induction false} ConnectPicksFirstAlive(s: Situation)
    requires s.pids != []
    ensures AnyAlive(s.pids) ==>
      && Do(s, Connect).turn > 0
      && Do(s, Connect).picks == s.picks + [Do(s, Connect).turn - 1]
      && Alive(s.pids, (Do(s, Connect).turn - 1) % |s.pids|)
      && forall x | s.turn <= x < Do(s, Connect).turn - 1 :: !Alive(s.pids, x % |s.pids|)
    ensures !AnyAlive(s.pids) ==> Do(s, Connect) == s
  {
    SearchFinds(s.pids, s.turn);
  }

  // ---------- the dead get nothing ----------

  /** A position taken in one event belongs to a child that is alive, before and after. */
  lemma {:induction false} EventPicksAlive(s: Situation, e: Event)
    requires s.pids != []
    ensures var t := Do(s, e);
      && |t.pids| == |s.pids| && |s.picks| <= |t.picks| && t.picks[..|s.picks|] == s.picks
      && (forall i | 0 <= i < |s.pids| && Alive(t.pids, i) :: Alive(s.pids, i))
      && (forall k | |s.picks| <= k < |t.picks| :: Alive(s.pids, t.picks[k] % |s.pids|))
  {
  }

  lemma {:induction false} DeadGetNothing(s: Situation, es: seq<Event>, i: nat)
    requires s.pids != [] && i < |s.pids| && !Alive(s.pids, i)
    ensures var t := DoAll(s, es);
      && |s.picks| <= |t.picks| && t.picks[..|s.picks|] == s.picks
      && (forall k | |s.picks| <= k < |t.picks| :: t.picks[k] % |s.pids| != i)
    decreases |es|
  {
    if es != [] {
      var u, t := Do(s, es[0]), DoAll(s, es);
      EventPicksAlive(s, es[0]);
      DeadGetNothing(u, es[1..], i);
      assert t.picks[..|u.picks|][..|s.picks|] == t.picks[..|s.picks|];
      forall k | |s.picks| <= k < |u.picks| ensures t.picks[k] % |s.pids| != i {
        assert t.picks[k] == t.picks[..|u.picks|][k] == u.picks[k];
      }
    }
  }

  /** A death takes exactly the entries of that process, and no connection goes to them from then on. */
  lemma {:induction false} NothingAfterDeath(s: Situation, pid: int, es: seq<Event>)
    requires s.pids != []
    ensures forall i | 0 <= i < |s.pids| ::
      Alive(Do(s, Death(pid)).pids, i) <==> Alive(s.pids, i) && s.pids[i] != pid
    ensures var t := DoAll(Do(s, Death(pid)), es);
      forall k | |s.picks| <= k < |t.picks| :: s.pids[t.picks[k] % |s.pids|] != pid
  {
    var u := Do(s, Death(pid));
    var t := DoAll(u, es);
    forall k | |s.picks| <= k < |t.picks| ensures s.pids[t.picks[k] % |s.pids|] != pid {
      var i := t.picks[k] % |s.pids|;
      if s.pids[i] == pid {
        DeadGetNothing(u, es, i);
        assert false;
      }
    }
  }
}
