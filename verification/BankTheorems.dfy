// What a whole run of the simulation amounts to.

module BankTheorems {
  import opened BankModel
  import opened BankRecurrence
  import opened BankInvariant

  // ---------- the finished run against the recurrence ----------

  lemma {:induction false} ScheduledIsPlanned(d: Draws, windows: nat, starts: seq<int>)
    requires windows > 0
    requires forall i | 0 <= i < |starts| :: starts[i] == StartTime(d, windows, i)
    ensures Scheduled(d, starts) == Planned(d, windows, |starts|)
  {
  }

  lemma {:induction false} PlannedStay(d: Draws, windows: nat, closing: int, n: nat)
    requires windows > 0
    ensures TotalStay(Planned(d, windows, n), closing) == DirectStay(d, windows, closing, n)
  {
    hide LeaveTime, ArrivalTime;
    if n > 0 {
      PlannedStay(d, windows, closing, n - 1);
      assert Planned(d, windows, n)[..n - 1] == Planned(d, windows, n - 1);
    }
  }

  /** Customers who would only start at or after closing add nothing to the total. */
  lemma {:induction false} UnservedAddNothing(d: Draws, windows: nat, closing: int, m: nat, n: nat)
    requires windows > 0 && m <= n
    requires forall i | m <= i < n :: StartTime(d, windows, i) >= closing
    ensures DirectStay(d, windows, closing, n) == DirectStay(d, windows, closing, m)
  {
    if m < n {
      UnservedAddNothing(d, windows, closing, m, n - 1);
    }
  }

  /** When the loop has ended, whoever still waits would have started at or after closing. */
  lemma {:induction false} UnservedStartLate(d: Draws, before: Bank, r: Run)
    requires LoopInvariant(d, before, r) && r.bank.agenda == [] && |r.bank.windows| > 0
    ensures forall i: nat | |r.hist.starts| <= i < r.hist.arrived ::
              i > 0 && StartTime(d, |r.bank.windows|, i) >= before.closing
  {
    var n, windows, g := |r.hist.starts|, |r.bank.windows|, r.hist.freeAt;
    assert !HasKind(r.bank.agenda, ARRIVAL);
    if n < r.hist.arrived {
      assert r.bank.waiting != [];
      assert forall w | 0 <= w < windows :: !HasKind(r.bank.agenda, w);
      var w := EarliestWindow(g);
      SameChoice(ArrivalTime(d, n), Free(d, windows, n), g, w, 0);
      forall i: nat | n <= i < r.hist.arrived
        ensures i > 0 && StartTime(d, windows, i) >= before.closing
      {
        StartsInOrder(d, windows, n, i);
      }
    }
  }

  /** When the loop has ended, those who came are those the draws bring in before closing. */
  lemma {:induction false} ComersAre(d: Draws, before: Bank, r: Run)
    requires LoopInvariant(d, before, r) && r.bank.agenda == []
    ensures forall i: nat :: i < r.hist.arrived <==> Comes(d, before.closing, i)
  {
    var n := r.hist.arrived;
    assert !HasKind(r.bank.agenda, ARRIVAL);
    forall i: nat ensures i < n <==> Comes(d, before.closing, i) {
      if i < n { ArrivalsInOrder(d, i, n - 1); } else { ArrivalsInOrder(d, n, i); }
    }
  }

  /**
   * A finished run is the recurrence: the customers who came are those the
   * draws bring in before closing (and the opening one); they start in the
   * order they came and at the recurrence's times; exactly those whose time
   * is before closing (and the opening one) start; everybody who started
   * leaves once, at the recurrence's time; and the totals of the event loop
   * are those of the direct sum.
   */
  lemma {:induction false} RunIsRecurrence(d: Draws, before: Bank, k: nat)
    requires Ready(before) && |before.windows| > 0
    requires After(d, Open(d, before), k).bank.agenda == []
    ensures var r := After(d, Open(d, before), k);
            var windows, closing, n := |before.windows|, before.closing, r.hist.arrived;
      && (forall i: nat :: i < n <==> Comes(d, closing, i))
      && |r.hist.starts| <= n && |r.bank.waiting| == n - |r.hist.starts|
      && (forall i | 0 <= i < |r.hist.starts| :: r.hist.starts[i] == StartTime(d, windows, i))
      && (forall i: nat | i < n :: i < |r.hist.starts| <==> i == 0 || StartTime(d, windows, i) < closing)
      && multiset(r.hist.departed) == multiset(Planned(d, windows, |r.hist.starts|))
      && r.bank.stay == before.stay + DirectStay(d, windows, closing, n)
      && r.bank.count == before.count + n
  {
    EveryLoopHead(d, before, k);
    var r := After(d, Open(d, before), k);
    var windows, closing, n, m := |before.windows|, before.closing, r.hist.arrived, |r.hist.starts|;
    UnservedStartLate(d, before, r);
    ComersAre(d, before, r);
    assert Due(r.bank.agenda, r.bank.windows) == multiset{};
    ScheduledIsPlanned(d, windows, r.hist.starts);
    TotalStayOfPermutation(r.hist.departed, Planned(d, windows, m), closing);
    PlannedStay(d, windows, closing, m);
    UnservedAddNothing(d, windows, closing, m, n);
  }

  // ---------- at every loop head ----------

  /**
   * Windows and agenda, current event included: no two events are arrivals,
   * or departures from one window; an idle window has no departure planned; a
   * busy window has none only if its customer has left at or after closing;
   * nobody waits while a window is idle.
   */
  lemma {:induction false} WindowsMatchAgenda(d: Draws, before: Bank, k: nat)
    requires Ready(before)
    ensures var b, h := After(d, Open(d, before), k).bank, After(d, Open(d, before), k).hist;
      && (forall i, j | 0 <= i < j < |b.agenda| :: b.agenda[i].kind != b.agenda[j].kind)
      && (forall w | 0 <= w < |b.windows| && b.windows[w].idle :: !HasKind(b.agenda, w))
      && (forall w | 0 <= w < |b.windows| && !b.windows[w].idle && !HasKind(b.agenda, w) ::
            exists v :: v in h.departed && v.arrive == b.windows[w].customer.arrive && v.leave >= b.closing)
      && (b.waiting != [] ==> forall w | 0 <= w < |b.windows| :: !b.windows[w].idle)
  {
    EveryLoopHead(d, before, k);
    var b, h := After(d, Open(d, before), k).bank, After(d, Open(d, before), k).hist;
    forall w | 0 <= w < |b.windows| && b.windows[w].idle
      ensures !HasKind(b.agenda, w)
    {
    }
  }

  lemma {:induction false} VisitsAreScheduled(d: Draws, before: Bank, r: Run, v: Visit)
    requires LoopInvariant(d, before, r) && v in r.hist.departed
    ensures exists i :: 0 <= i < |r.hist.starts| && Scheduled(d, r.hist.starts)[i] == v &&
              v.leave - v.arrive >= d.duration(i)
  {
    assert v in multiset(Scheduled(d, r.hist.starts));
    var i :| 0 <= i < |r.hist.starts| && Scheduled(d, r.hist.starts)[i] == v;
    assert r.hist.starts[i] == StartTime(d, |r.bank.windows|, i);
  }

  lemma {:induction false} HeadCount(d: Draws, before: Bank, r: Run)
    requires LoopInvariant(d, before, r)
    ensures r.hist.arrived == |r.hist.departed| + |Due(r.bank.agenda, r.bank.windows)| + |r.bank.waiting|
  {
    assert |multiset(r.hist.departed) + Due(r.bank.agenda, r.bank.windows)| == |r.hist.starts|;
  }

  /**
   * Nobody is lost: everyone who came has left, is being served, or waits.
   * The total stay is that of the in-hours departures, and every departure is
   * that of a started customer whose stay covers the service.
   */
  lemma {:induction false} Accounting(d: Draws, before: Bank, k: nat)
    requires Ready(before)
    ensures var r := After(d, Open(d, before), k);
      && r.hist.arrived == |r.hist.departed| + |Due(r.bank.agenda, r.bank.windows)| + |r.bank.waiting|
      && r.bank.stay == before.stay + TotalStay(r.hist.departed, before.closing)
      && forall v | v in r.hist.departed :: exists i ::
           0 <= i < |r.hist.starts| && Scheduled(d, r.hist.starts)[i] == v && v.leave - v.arrive >= d.duration(i)
  {
    EveryLoopHead(d, before, k);
    var r := After(d, Open(d, before), k);
    HeadCount(d, before, r);
    forall v | v in r.hist.departed
      ensures exists i :: 0 <= i < |r.hist.starts| && Scheduled(d, r.hist.starts)[i] == v &&
                v.leave - v.arrive >= d.duration(i)
    {
      VisitsAreScheduled(d, before, r, v);
    }
  }

  /** No event of the agenda is before time t. */
  predicate From(es: seq<Event>, t: int) { forall e | e in es :: e.time >= t }

  lemma {:induction false} InsertFrom(es: seq<Event>, e: Event, t: int)
    requires From(es, t) && e.time >= t
    ensures From(OrderInsert(es, e), t)
  {
    hide OrderInsert, HasKind;
    OrderInsertMembers(es, e);
  }

  /** Handling an event plans nothing before it. */
  lemma {:induction false} HandleFrom(b: Bank, gap: nat, duration: nat)
    requires Runnable(b) && Sorted(b.agenda) && (b.waiting != [] ==> b.waiting[0].duration >= 0)
    ensures From(Handle(b, gap, duration).agenda, b.agenda[0].time)
  {
    hide OrderInsert, IdleWindow;
    var now, rest := b.agenda[0].time, b.agenda[1..];
    forall e | e in rest ensures e.time >= now {
      var i :| 0 <= i < |rest| && rest[i] == e;
      assert b.agenda[i + 1] == e;
    }
    if b.agenda[0].kind == ARRIVAL {
      InsertFrom(rest, Event(now + gap, ARRIVAL), now);
      var queue, w := b.waiting + [Customer(now, duration)], IdleWindow(b.windows);
      InsertFrom(WithNextArrival(b, gap), Event(now + queue[0].duration, w), now);
    } else if b.waiting != [] {
      InsertFrom(rest, Event(now + b.waiting[0].duration, b.agenda[0].kind), now);
    }
  }

  /** The clock never runs backwards. */
  lemma {:induction false} ClockKeepsStep(d: Draws, before: Bank, r: Run)
    requires LoopInvariant(d, before, r) && r.bank.agenda != [] && Advance(d, r).bank.agenda != []
    ensures r.bank.agenda[0].time <= Advance(d, r).bank.agenda[0].time
  {
    HeadIsRunnable(d, before, r);
    var b, h, next := r.bank, r.hist, Advance(d, r).bank.agenda;
    if b.waiting != [] { CustomersTail(d, |h.starts|, h.arrived); }
    hide LedgerOk, WindowsOk, ScheduleOk, Handle;
    HandleFrom(b, d.gap(h.arrived), d.duration(h.arrived));
    assert next[0] in next;
  }

  lemma {:induction false} ClockKeepsAt(d: Draws, before: Bank, k: nat)
    requires Ready(before) && After(d, Open(d, before), k + 1).bank.agenda != []
    ensures var a := After(d, Open(d, before), k).bank.agenda;
            a != [] && a[0].time <= After(d, Open(d, before), k + 1).bank.agenda[0].time
  {
    EveryLoopHead(d, before, k);
    if After(d, Open(d, before), k).bank.agenda != [] {
      ClockKeepsStep(d, before, After(d, Open(d, before), k));
    }
  }

  lemma {:induction false} ClockIsMonotone(d: Draws, before: Bank, j: nat, k: nat)
    requires Ready(before) && j <= k && After(d, Open(d, before), k).bank.agenda != []
    ensures var a := After(d, Open(d, before), j).bank.agenda;
            a != [] && a[0].time <= After(d, Open(d, before), k).bank.agenda[0].time
    decreases k
  {
    if j < k {
      ClockKeepsAt(d, before, k - 1);
      ClockIsMonotone(d, before, j, k - 1);
    }
  }

  /** Only departures at or past closing are planned. */
  predicate AfterHours(b: Bank) {
    forall e | e in b.agenda :: e.kind != ARRIVAL && e.time >= b.closing
  }

  /** The same people are in the bank, and the same has been booked. */
  predicate SameBusiness(q: Run, r: Run) {
    && r.hist.starts == q.hist.starts && r.hist.arrived == q.hist.arrived
    && r.bank.waiting == q.bank.waiting && r.bank.stay == q.bank.stay && r.bank.count == q.bank.count
    && r.bank.windows == q.bank.windows
  }

  lemma {:induction false} AfterHoursStays(d: Draws, r: Run)
    requires AfterHours(r.bank)
    ensures AfterHours(Advance(d, r).bank) && SameBusiness(r, Advance(d, r))
    ensures Advance(d, r).bank.closing == r.bank.closing
  {
    if Runnable(r.bank) {
      assert r.bank.agenda[0] in r.bank.agenda;
      assert forall e | e in r.bank.agenda[1..] :: e in r.bank.agenda;
    }
  }

  lemma {:induction false} AfterHoursHead(d: Draws, before: Bank, r: Run)
    requires LoopInvariant(d, before, r) && r.bank.agenda != []
    requires r.bank.agenda[0].kind != ARRIVAL && r.bank.agenda[0].time >= before.closing
    ensures AfterHours(r.bank) && r.bank.closing == before.closing
  {
    TailOfAgenda(r.bank.agenda);
    assert r.bank.agenda[0] in r.bank.agenda;
  }

  /**
   * Once a departure at or past closing is at the head of the agenda, every
   * event from there on is a departure, nobody starts and nobody comes.
   */
  lemma {:induction false} NothingStartsAfterHours(d: Draws, before: Bank, j: nat, k: nat)
    requires Ready(before) && j <= k
    requires var a := After(d, Open(d, before), j).bank.agenda;
             a != [] && a[0].kind != ARRIVAL && a[0].time >= before.closing
    ensures var q, r := After(d, Open(d, before), j), After(d, Open(d, before), k);
      && (forall e | e in r.bank.agenda :: e.kind != ARRIVAL && e.time >= before.closing)
      && r.hist.starts == q.hist.starts && r.hist.arrived == q.hist.arrived
      && r.bank.waiting == q.bank.waiting && r.bank.stay == q.bank.stay && r.bank.count == q.bank.count
      && r.bank.windows == q.bank.windows && r.bank.closing == before.closing
    decreases k
  {
    hide LoopInvariant, Advance;
    if j == k {
      EveryLoopHead(d, before, j);
      AfterHoursHead(d, before, After(d, Open(d, before), j));
    } else {
      NothingStartsAfterHours(d, before, j, k - 1);
      AfterHoursStays(d, After(d, Open(d, before), k - 1));
    }
  }

  // ---------- termination ----------

  /** Falls with every event, if customer number last does not come. */
  function Remaining(last: nat, r: Run): int {
    3 * (last - r.hist.arrived) + 2 * |r.bank.waiting| + |r.bank.agenda|
  }

  lemma {:induction false} ArrivedAtMost(d: Draws, before: Bank, r: Run, last: nat)
    requires LoopInvariant(d, before, r) && !Comes(d, before.closing, last)
    ensures r.hist.arrived <= last
  {
    if last < r.hist.arrived {
      ArrivalsInOrder(d, last, r.hist.arrived - 1);
    }
  }

  lemma {:induction false} RemainingFalls(d: Draws, before: Bank, r: Run, last: nat)
    requires LoopInvariant(d, before, r) && r.bank.agenda != [] && !Comes(d, before.closing, last)
    ensures 0 <= Remaining(last, Advance(d, r)) < Remaining(last, r)
  {
    HeadIsRunnable(d, before, r);
    AdvanceKeepsInvariant(d, before, r);
    ArrivedAtMost(d, before, Advance(d, r), last);
    assert |r.bank.agenda[1..]| == |r.bank.agenda| - 1;
    AdvanceSizes(d, r);
  }

  lemma {:induction false} AdvanceSizes(d: Draws, r: Run)
    requires Runnable(r.bank) && |r.hist.freeAt| == |r.bank.windows|
    ensures var a := Advance(d, r); var size := 2 * |a.bank.waiting| + |a.bank.agenda|;
      if r.bank.agenda[0].kind == ARRIVAL
      then a.hist.arrived == r.hist.arrived + 1 && size <= 2 * |r.bank.waiting| + |r.bank.agenda| + 2
      else a.hist.arrived == r.hist.arrived && size < 2 * |r.bank.waiting| + |r.bank.agenda|
  {
  }

  /** What one iteration of a run comes to: the event is handled, and less remains. */
  lemma {:induction false} LoopStep(d: Draws, before: Bank, k: nat, last: nat)
    requires Ready(before) && !Comes(d, before.closing, last)
    requires After(d, Open(d, before), k).bank.agenda != []
    ensures var r, r' := After(d, Open(d, before), k), After(d, Open(d, before), k + 1);
      && Runnable(r.bank)
      && r'.bank == Handle(r.bank, d.gap(r.hist.arrived), d.duration(r.hist.arrived))
      && r'.hist.arrived == r.hist.arrived + (if r.bank.agenda[0].kind == ARRIVAL then 1 else 0)
      && 0 <= Remaining(last, r') < Remaining(last, r)
  {
    EveryLoopHead(d, before, k);
    var r := After(d, Open(d, before), k);
    HeadIsRunnable(d, before, r);
    RemainingFalls(d, before, r, last);
    AdvanceSizes(d, r);
  }

  lemma {:induction false} RunsDown(d: Draws, before: Bank, last: nat, k: nat) returns (end: nat)
    requires Ready(before) && !Comes(d, before.closing, last)
    ensures After(d, Open(d, before), end).bank.agenda == []
    decreases Remaining(last, After(d, Open(d, before), k)),
              |After(d, Open(d, before), k).bank.agenda|
  {
    var r := After(d, Open(d, before), k);
    if r.bank.agenda == [] {
      end := k;
    } else {
      EveryLoopHead(d, before, k);
      RemainingFalls(d, before, r, last);
      end := RunsDown(d, before, last, k + 1);
    }
  }

  /** The loop ends exactly when the draws bring some arrival up to closing. */
  lemma {:induction false} EndsIff(d: Draws, before: Bank)
    requires Ready(before)
    ensures (exists k: nat :: After(d, Open(d, before), k).bank.agenda == []) <==>
            (exists n: nat :: !Comes(d, before.closing, n))
  {
    if n: nat :| !Comes(d, before.closing, n) {
      var k := RunsDown(d, before, n, 0);
    } else {
      forall k: nat ensures After(d, Open(d, before), k).bank.agenda != [] {
        EveryLoopHead(d, before, k);
        var r := After(d, Open(d, before), k);
        assert Comes(d, before.closing, r.hist.arrived);
        assert HasKind(r.bank.agenda, ARRIVAL);
      }
    }
  }

  /** Gaps of at least one time unit are enough. */
  lemma {:induction false} PositiveGapsEnd(d: Draws, closing: int, n: nat)
    requires forall i: nat :: d.gap(i) >= 1
    ensures ArrivalTime(d, n) >= n
    ensures n > 0 && n >= closing ==> !Comes(d, closing, n)
  {
    if n > 0 {
      PositiveGapsEnd(d, closing, n - 1);
    }
  }
}
