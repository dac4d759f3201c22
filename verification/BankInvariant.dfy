// What holds at every head of the event loop, and that one iteration keeps it.

module BankInvariant {
  import opened BankModel
  import opened BankRecurrence

  // ---------- agendas ----------

  ghost predicate Sorted(es: seq<Event>) {
    forall i, j | 0 <= i < j < |es| :: es[i].time <= es[j].time
  }

  /** At most one arrival, and at most one departure per window. */
  ghost predicate OneEach(es: seq<Event>) {
    forall i, j | 0 <= i < j < |es| :: es[i].kind != es[j].kind
  }

  ghost predicate HasKind(es: seq<Event>, kind: int) {
    exists e :: e in es && e.kind == kind
  }

  lemma OrderInsertMembers(es: seq<Event>, e: Event)
    ensures |OrderInsert(es, e)| == |es| + 1
    ensures forall x :: x in OrderInsert(es, e) <==> x == e || x in es
    ensures forall k :: HasKind(OrderInsert(es, e), k) <==> k == e.kind || HasKind(es, k)
  {
    var p := InsertionPoint(es, e.time);
    var s := OrderInsert(es, e);
    assert es == es[..p] + es[p..];
    assert s[p] == e;
    assert forall x :: x in s <==> x in es[..p] || x == e || x in es[p..];
    assert forall x :: x in es <==> x in es[..p] || x in es[p..];
    forall k ensures HasKind(s, k) <==> k == e.kind || HasKind(es, k) {
      if HasKind(s, k) { var x :| x in s && x.kind == k; assert x == e || x in es; }
      if HasKind(es, k) { var x :| x in es && x.kind == k; assert x in s; }
      assert e in s;
    }
  }

  lemma OrderInsertKeepsSorted(es: seq<Event>, e: Event)
    requires Sorted(es)
    ensures Sorted(OrderInsert(es, e))
  {
    var p := InsertionPoint(es, e.time);
    var s := OrderInsert(es, e);
    assert forall i | 0 <= i < p :: s[i] == es[i];
    assert forall i | p < i < |s| :: s[i] == es[i - 1];
  }

  lemma {:induction false} OrderInsertKeepsOneEach(es: seq<Event>, e: Event)
    requires OneEach(es) && !HasKind(es, e.kind)
    ensures OneEach(OrderInsert(es, e))
  {
    var p := InsertionPoint(es, e.time);
    var s := OrderInsert(es, e);
    forall i, j | 0 <= i < j < |s| ensures s[i].kind != s[j].kind {
      var x, y := if i < p then i else i - 1, if j < p then j else j - 1;
      if i == p {
        assert s[j] == es[y] && es[y] in es;
      } else {
        assert s[i] == es[x] && es[x] in es;
        if j != p { assert s[j] == es[y]; }
      }
    }
  }

  /** Taking the head off: what is left is later, and of other kinds. */
  lemma TailOfAgenda(es: seq<Event>)
    requires es != [] && Sorted(es) && OneEach(es)
    ensures Sorted(es[1..]) && OneEach(es[1..])
    ensures forall x :: x in es <==> x == es[0] || x in es[1..]
    ensures forall x | x in es[1..] :: es[0].time <= x.time && x.kind != es[0].kind
    ensures !HasKind(es[1..], es[0].kind)
    ensures forall k :: HasKind(es, k) <==> k == es[0].kind || HasKind(es[1..], k)
  {
    assert es == [es[0]] + es[1..];
    forall x | x in es[1..] ensures es[0].time <= x.time && x.kind != es[0].kind {
      var i :| 0 <= i < |es[1..]| && es[1..][i] == x;
      assert es[i + 1] == x;
    }
    forall k ensures HasKind(es, k) <==> k == es[0].kind || HasKind(es[1..], k) {
      if HasKind(es, k) { var x :| x in es && x.kind == k; assert x == es[0] || x in es[1..]; }
      assert es[0] in es;
    }
  }

  // ---------- visits still to end ----------

  /** The visits that the departures of an agenda will end. */
  function Due(es: seq<Event>, ws: seq<Window>): multiset<Visit> {
    if es == [] then multiset{} else
      (if 0 <= es[0].kind < |ws|
       then multiset{Visit(ws[es[0].kind].customer.arrive, es[0].time)} else multiset{}) +
      Due(es[1..], ws)
  }

  lemma {:induction false} DueConcat(a: seq<Event>, b: seq<Event>, ws: seq<Window>)
    ensures Due(a + b, ws) == Due(a, ws) + Due(b, ws)
  {
    if a == [] {
      assert a + b == b;
    } else {
      assert (a + b)[1..] == a[1..] + b;
      DueConcat(a[1..], b, ws);
    }
  }

  lemma DueInsert(es: seq<Event>, e: Event, ws: seq<Window>)
    ensures Due(OrderInsert(es, e), ws) == Due([e], ws) + Due(es, ws)
  {
    var p := InsertionPoint(es, e.time);
    assert es == es[..p] + es[p..];
    DueConcat(es[..p] + [e], es[p..], ws);
    DueConcat(es[..p], [e], ws);
    DueConcat(es[..p], es[p..], ws);
  }

  lemma {:induction false} DueElsewhere(es: seq<Event>, ws: seq<Window>, w: nat, win: Window)
    requires w < |ws| && !HasKind(es, w)
    ensures Due(es, ws[w := win]) == Due(es, ws)
  {
    if es != [] {
      assert es[0] in es;
      forall k | HasKind(es[1..], k) ensures HasKind(es, k) {
        var x :| x in es[1..] && x.kind == k;
        assert x in es;
      }
      DueElsewhere(es[1..], ws, w, win);
    }
  }

  // ---------- sums of stays ----------

  function StayOf(v: Visit, closing: int): int {
    if v.leave < closing then v.leave - v.arrive else 0
  }

  function TotalStay(vs: seq<Visit>, closing: int): int {
    if vs == [] then 0 else TotalStay(vs[..|vs| - 1], closing) + StayOf(vs[|vs| - 1], closing)
  }

  lemma {:induction false} TotalStayWithout(vs: seq<Visit>, k: nat, closing: int)
    requires k < |vs|
    ensures TotalStay(vs, closing) == TotalStay(vs[..k] + vs[k + 1..], closing) + StayOf(vs[k], closing)
  {
    var n := |vs| - 1;
    if k == n {
      assert vs[..k] + vs[k + 1..] == vs[..n];
    } else {
      TotalStayWithout(vs[..n], k, closing);
      var rest := vs[..k] + vs[k + 1..];
      assert rest[..|rest| - 1] == vs[..n][..k] + vs[..n][k + 1..];
      assert rest[|rest| - 1] == vs[n];
    }
  }

  lemma BagWithout(vs: seq<Visit>, k: nat)
    requires k < |vs|
    ensures multiset(vs) == multiset(vs[..k] + vs[k + 1..]) + multiset{vs[k]}
  {
    assert vs == vs[..k] + ([vs[k]] + vs[k + 1..]);
  }

  lemma BagCancel(a: multiset<Visit>, b: multiset<Visit>, v: Visit)
    requires a + multiset{v} == b + multiset{v}
    ensures a == b
  {
    forall x ensures a[x] == b[x] {
      assert (a + multiset{v})[x] == (b + multiset{v})[x];
    }
  }

  /** The order in which customers leave does not change the total. */
  lemma {:induction false} TotalStayOfPermutation(us: seq<Visit>, vs: seq<Visit>, closing: int)
    requires multiset(us) == multiset(vs)
    ensures TotalStay(us, closing) == TotalStay(vs, closing)
    decreases |us|
  {
    if us == [] {
      assert |us| == |multiset(us)| && |vs| == |multiset(vs)|;
    } else {
      var n := |us| - 1;
      assert us[n] in multiset(vs);
      var k :| 0 <= k < |vs| && vs[k] == us[n];
      var rest := vs[..k] + vs[k + 1..];
      assert us[..n] + us[n + 1..] == us[..n];
      BagWithout(us, n);
      BagWithout(vs, k);
      BagCancel(multiset(us[..n]), multiset(rest), us[n]);
      TotalStayOfPermutation(us[..n], rest, closing);
      TotalStayWithout(vs, k, closing);
    }
  }

  // ---------- the invariant ----------

  /** Customers m..n-1 of the draws. */
  function Customers(d: Draws, m: nat, n: nat): seq<Customer>
    requires m <= n
  {
    seq(n - m, i requires 0 <= i < n - m => Customer(ArrivalTime(d, m + i), d.duration(m + i)))
  }

  ghost predicate AgendaOk(b: Bank) {
    && Sorted(b.agenda)
    && OneEach(b.agenda)
    && forall e | e in b.agenda :: ARRIVAL <= e.kind < |b.windows|
  }

  /** Windows against pending departures, and no customer waits beside an idle window. */
  ghost predicate WindowsOk(b: Bank, h: History) {
    && |h.freeAt| == |b.windows|
    && (forall e | e in b.agenda && e.kind != ARRIVAL && 0 <= e.kind < |b.windows| ::
          !b.windows[e.kind].idle && h.freeAt[e.kind] == e.time)
    && (forall w, e | 0 <= w < |b.windows| && b.windows[w].idle && e in b.agenda :: h.freeAt[w] <= e.time)
    && (forall w | 0 <= w < |b.windows| && !b.windows[w].idle ::
          HasKind(b.agenda, w) ||
          (h.freeAt[w] >= b.closing && Visit(b.windows[w].customer.arrive, h.freeAt[w]) in h.departed))
    && (b.waiting != [] ==> forall w | 0 <= w < |b.windows| :: !b.windows[w].idle)
  }

  /** The waiting line is the customers who have come and not started; at most one arrival is planned. */
  ghost predicate ArrivalsOk(d: Draws, b: Bank, h: History) {
    && |h.starts| <= h.arrived
    && b.waiting == Customers(d, |h.starts|, h.arrived)
    && (forall e | e in b.agenda && e.kind == ARRIVAL ::
          e.time == ArrivalTime(d, h.arrived) && Comes(d, b.closing, h.arrived))
    && (!HasKind(b.agenda, ARRIVAL) ==> h.arrived > 0 && !Comes(d, b.closing, h.arrived))
    && (h.arrived > 0 ==>
          && Comes(d, b.closing, h.arrived - 1)
          && (|b.windows| > 0 ==> h.starts != [])
          && forall e | e in b.agenda :: ArrivalTime(d, h.arrived - 1) <= e.time)
    && (h.arrived == 0 ==> forall w | 0 <= w < |b.windows| :: b.windows[w].idle)
  }

  /** The starts so far are those of the recurrence, and so is what the next customer will find. */
  ghost predicate ScheduleOk(d: Draws, b: Bank, h: History)
    requires |h.freeAt| == |b.windows|
  {
    && (|b.windows| == 0 ==> h.starts == [])
    && (forall i | 0 <= i < |h.starts| && |b.windows| > 0 :: h.starts[i] == StartTime(d, |b.windows|, i))
    && (forall i | 1 <= i < |h.starts| :: h.starts[i] < b.closing)
    && SameFrom(ArrivalTime(d, |h.starts|), Free(d, |b.windows|, |h.starts|), h.freeAt)
  }

  function Scheduled(d: Draws, starts: seq<int>): seq<Visit> {
    seq(|starts|, i requires 0 <= i < |starts| => Visit(ArrivalTime(d, i), starts[i] + d.duration(i)))
  }

  /** Every customer who started has left or is due to leave, exactly once; the totals say so. */
  ghost predicate LedgerOk(d: Draws, before: Bank, b: Bank, h: History) {
    && multiset(h.departed) + Due(b.agenda, b.windows) == multiset(Scheduled(d, h.starts))
    && b.stay == before.stay + TotalStay(h.departed, b.closing)
    && b.count == before.count + h.arrived
  }

  /** before is the bank as it stood before opening. */
  ghost predicate LoopInvariant(d: Draws, before: Bank, r: Run) {
    && r.bank.closing == before.closing
    && |r.bank.windows| == |before.windows|
    && AgendaOk(r.bank)
    && WindowsOk(r.bank, r.hist)
    && ArrivalsOk(d, r.bank, r.hist)
    && ScheduleOk(d, r.bank, r.hist)
    && LedgerOk(d, before, r.bank, r.hist)
  }

  lemma HeadIsRunnable(d: Draws, before: Bank, r: Run)
    requires LoopInvariant(d, before, r)
    ensures Runnable(r.bank) <==> r.bank.agenda != []
  {
    if r.bank.agenda != [] {
      assert r.bank.agenda[0] in r.bank.agenda;
    }
  }

  lemma OpeningInvariant(d: Draws, before: Bank)
    requires Ready(before)
    ensures LoopInvariant(d, before, Open(d, before))
  {
    var r := Open(d, before);
    assert r.bank.agenda[0] in r.bank.agenda;
    assert r.hist.freeAt == Free(d, |before.windows|, 0);
    assert Due(r.bank.agenda, r.bank.windows) == multiset{};
    assert r.bank.waiting == Customers(d, 0, 0);
    assert Scheduled(d, []) == [];
  }

  // ---------- a service start ----------

  lemma {:induction false} ScheduledExtends(d: Draws, starts: seq<int>, s: int)
    ensures Scheduled(d, starts + [s]) ==
            Scheduled(d, starts) + [Visit(ArrivalTime(d, |starts|), s + d.duration(|starts|))]
  {
  }

  /**
   * Starting customer n at a window that is free first, as seen from the
   * customer's arrival, keeps the schedule that of the recurrence.
   */
  lemma {:induction false} StartKeepsSchedule(d: Draws, b: Bank, h: History, w: nat, start: int)
    requires |h.freeAt| == |b.windows| && w < |b.windows| && ScheduleOk(d, b, h)
    requires var a := ArrivalTime(d, |h.starts|);
             EarliestFor(a, h.freeAt, w, start)
    requires |h.starts| > 0 ==> start < b.closing
    ensures ScheduleOk(d, b, WithStart(h, w, start, d.duration(|h.starts|)))
  {
    hide FreeBy;
    var n := |h.starts|;
    var free := Free(d, |b.windows|, n);
    SameChoice(ArrivalTime(d, n), free, h.freeAt, w, d.duration(n));
    ArrivalsInOrder(d, n, n + 1);
    var h' := WithStart(h, w, start, d.duration(n));
    assert start == StartTime(d, |b.windows|, n);
    assert Free(d, |b.windows|, n + 1) == free[EarliestWindow(free) := start + d.duration(n)];
    assert forall i | 0 <= i < n :: h'.starts[i] == h.starts[i];
  }

  /** Window w takes the head of the waiting line at time now. */
  function Serve(b: Bank, w: nat, now: int): Bank
    requires w < |b.windows| && b.waiting != []
  {
    b.(windows := b.windows[w := Window(false, b.waiting[0])],
       waiting := b.waiting[1..],
       agenda := OrderInsert(b.agenda, Event(now + b.waiting[0].duration, w)))
  }

  /** Where a service start leaves the windows, whatever agenda it produces. */
  lemma {:induction false} ServeKeepsWindows(b: Bank, h: History, w: nat, now: int, b': Bank, h': History)
    requires w < |b.windows| == |h.freeAt| && b.waiting != []
    requires SeatWindows(b, h, w, now)
    requires b' == b.(windows := b'.windows, waiting := b.waiting[1..], agenda := b'.agenda)
    requires b'.windows == b.windows[w := Window(false, b.waiting[0])]
    requires h' == h.(freeAt := h'.freeAt, starts := h'.starts)
    requires b.waiting[0].duration >= 0 && h'.freeAt == h.freeAt[w := now + b.waiting[0].duration]
    requires forall x :: x in b'.agenda <==> x == Event(now + b.waiting[0].duration, w) || x in b.agenda
    requires forall k :: HasKind(b'.agenda, k) <==> k == w || HasKind(b.agenda, k)
    ensures WindowsOk(b', h')
  {
    assert forall x | x in b.agenda :: x.kind != w;
  }

  /**
   * The windows in the middle of an iteration that will start a service: the
   * current event is off the agenda and window w has no departure planned.
   */
  ghost predicate SeatWindows(b: Bank, h: History, w: nat, now: int)
    requires w < |b.windows| == |h.freeAt|
  {
    && !HasKind(b.agenda, w)
    && (forall e | e in b.agenda :: now <= e.time)
    && (forall e | e in b.agenda && e.kind != ARRIVAL && 0 <= e.kind < |b.windows| ::
          !b.windows[e.kind].idle && h.freeAt[e.kind] == e.time)
    && (forall j | 0 <= j < |b.windows| && j != w && b.windows[j].idle :: h.freeAt[j] <= now)
    && (forall j | 0 <= j < |b.windows| && j != w && !b.windows[j].idle ::
          HasKind(b.agenda, j) ||
          (h.freeAt[j] >= b.closing && Visit(b.windows[j].customer.arrive, h.freeAt[j]) in h.departed))
    && (|b.waiting| > 1 ==> forall j | 0 <= j < |b.windows| && j != w :: !b.windows[j].idle)
  }

  ghost predicate SeatArrivals(d: Draws, b: Bank, h: History, now: int) {
    && |h.starts| < h.arrived
    && b.waiting == Customers(d, |h.starts|, h.arrived)
    && (forall e | e in b.agenda && e.kind == ARRIVAL ::
          e.time == ArrivalTime(d, h.arrived) && Comes(d, b.closing, h.arrived))
    && (!HasKind(b.agenda, ARRIVAL) ==> !Comes(d, b.closing, h.arrived))
    && Comes(d, b.closing, h.arrived - 1) && ArrivalTime(d, h.arrived - 1) <= now
    && (forall e | e in b.agenda :: now <= e.time)
  }

  lemma {:induction false} ServeKeepsArrivals(
      d: Draws, b: Bank, h: History, w: nat, now: int, b': Bank, h': History)
    requires SeatArrivals(d, b, h, now) && b.waiting != []
    requires b'.closing == b.closing && b'.waiting == b.waiting[1..]
    requires h'.arrived == h.arrived && |h'.starts| == |h.starts| + 1
    requires b.waiting[0].duration >= 0
    requires forall x :: x in b'.agenda <==> x == Event(now + b.waiting[0].duration, w) || x in b.agenda
    requires forall k :: HasKind(b'.agenda, k) <==> k == w || HasKind(b.agenda, k)
    ensures ArrivalsOk(d, b', h')
  {
    CustomersTail(d, |h.starts|, h.arrived);
  }

  lemma {:induction false} CustomersTail(d: Draws, m: nat, n: nat)
    requires m < n
    ensures Customers(d, m, n) != []
    ensures Customers(d, m, n)[0] == Customer(ArrivalTime(d, m), d.duration(m))
    ensures Customers(d, m, n)[1..] == Customers(d, m + 1, n)
  {
  }

  lemma {:induction false} ServeKeepsBags(
      due: multiset<Visit>, left: seq<Visit>, planned: seq<Visit>, v: Visit,
      due': multiset<Visit>, planned': seq<Visit>)
    requires multiset(left) + due == multiset(planned)
    requires due' == multiset{v} + due && planned' == planned + [v]
    ensures multiset(left) + due' == multiset(planned')
  {
  }

  lemma {:induction false} ServeKeepsLedger(d: Draws, before: Bank, b: Bank, h: History, w: nat, now: int)
    requires w < |b.windows| == |h.freeAt| && b.waiting != [] && !HasKind(b.agenda, w)
    requires b.waiting[0] == Customer(ArrivalTime(d, |h.starts|), d.duration(|h.starts|))
    requires LedgerOk(d, before, b, h)
    ensures LedgerOk(d, before, Serve(b, w, now), WithStart(h, w, now, d.duration(|h.starts|)))
  {
    hide OrderInsert;
    var n := |h.starts|;
    var v := Visit(ArrivalTime(d, n), now + d.duration(n));
    var b', h' := Serve(b, w, now), WithStart(h, w, now, d.duration(n));
    ServeDue(b, w, now, v);
    ScheduledExtends(d, h.starts, now);
    ServeKeepsBags(Due(b.agenda, b.windows), h.departed, Scheduled(d, h.starts), v,
                   Due(b'.agenda, b'.windows), Scheduled(d, h'.starts));
  }

  lemma {:induction false} ServeDue(b: Bank, w: nat, now: int, v: Visit)
    requires w < |b.windows| && b.waiting != [] && !HasKind(b.agenda, w)
    requires v == Visit(b.waiting[0].arrive, now + b.waiting[0].duration)
    ensures Due(Serve(b, w, now).agenda, Serve(b, w, now).windows) == multiset{v} + Due(b.agenda, b.windows)
  {
    hide OrderInsert;
    var e, ws := Event(now + b.waiting[0].duration, w), b.windows[w := Window(false, b.waiting[0])];
    DueInsert(b.agenda, e, ws);
    DueElsewhere(b.agenda, b.windows, w, ws[w]);
    DueOne(e, ws);
  }

  lemma {:induction false} DueOne(e: Event, ws: seq<Window>)
    ensures Due([e], ws) ==
            if 0 <= e.kind < |ws| then multiset{Visit(ws[e.kind].customer.arrive, e.time)} else multiset{}
  {
    assert [e][1..] == [];
    assert Due([], ws) == multiset{};
  }

  /** The middle of an iteration that will start a service at window w at time now. */
  ghost predicate Seat(d: Draws, before: Bank, b: Bank, h: History, w: nat, now: int) {
    && b.closing == before.closing && |b.windows| == |before.windows|
    && w < |b.windows| == |h.freeAt|
    && AgendaOk(b)
    && SeatWindows(b, h, w, now)
    && SeatArrivals(d, b, h, now)
    && ScheduleOk(d, b, h)
    && EarliestFor(ArrivalTime(d, |h.starts|), h.freeAt, w, now)
    && (|h.starts| > 0 ==> now < b.closing)
    && LedgerOk(d, before, b, h)
  }

  /** A customer who came at a is served at now if window w takes them, and no other is sooner. */
  ghost predicate EarliestFor(a: int, freeAt: seq<int>, w: nat, now: int)
    requires w < |freeAt|
  {
    now == Max(a, freeAt[w]) && forall j | 0 <= j < |freeAt| :: now <= Max(a, freeAt[j])
  }

  lemma {:induction false} ServeKeepsAgenda(b: Bank, w: nat, now: int)
    requires w < |b.windows| && b.waiting != [] && AgendaOk(b) && !HasKind(b.agenda, w)
    ensures AgendaOk(Serve(b, w, now))
    ensures var e, b' := Event(now + b.waiting[0].duration, w), Serve(b, w, now);
      && (forall x :: x in b'.agenda <==> x == e || x in b.agenda)
      && (forall k :: HasKind(b'.agenda, k) <==> k == w || HasKind(b.agenda, k))
  {
    var e := Event(now + b.waiting[0].duration, w);
    OrderInsertMembers(b.agenda, e);
    OrderInsertKeepsSorted(b.agenda, e);
    OrderInsertKeepsOneEach(b.agenda, e);
  }

  lemma {:induction false} ServeKeepsShape(d: Draws, b: Bank, h: History, w: nat, now: int)
    requires w < |b.windows| == |h.freeAt| && AgendaOk(b)
    requires SeatWindows(b, h, w, now) && SeatArrivals(d, b, h, now)
    ensures b.waiting != [] && b.waiting[0] == Customer(ArrivalTime(d, |h.starts|), d.duration(|h.starts|))
    ensures AgendaOk(Serve(b, w, now))
    ensures WindowsOk(Serve(b, w, now), WithStart(h, w, now, d.duration(|h.starts|)))
    ensures ArrivalsOk(d, Serve(b, w, now), WithStart(h, w, now, d.duration(|h.starts|)))
  {
    hide OrderInsert;
    CustomersTail(d, |h.starts|, h.arrived);
    var b', h' := Serve(b, w, now), WithStart(h, w, now, d.duration(|h.starts|));
    ServeKeepsAgenda(b, w, now);
    ServeKeepsWindows(b, h, w, now, b', h');
    ServeKeepsArrivals(d, b, h, w, now, b', h');
  }

  lemma {:induction false} ServeKeepsInvariant(d: Draws, before: Bank, b: Bank, h: History, w: nat, now: int)
    requires Seat(d, before, b, h, w, now)
    ensures b.waiting != []
    ensures LoopInvariant(d, before, Run(Serve(b, w, now), WithStart(h, w, now, d.duration(|h.starts|))))
  {
    hide OrderInsert;
    ServeKeepsShape(d, b, h, w, now);
    StartKeepsSchedule(d, b, h, w, now);
    ScheduleIgnoresAgenda(d, b, Serve(b, w, now), WithStart(h, w, now, d.duration(|h.starts|)));
    ServeKeepsLedger(d, before, b, h, w, now);
  }

  lemma {:induction false} ScheduleIgnoresAgenda(d: Draws, b: Bank, b': Bank, h: History)
    requires |h.freeAt| == |b.windows| == |b'.windows| && b.closing == b'.closing
    requires ScheduleOk(d, b, h)
    ensures ScheduleOk(d, b', h)
  {
  }

  // ---------- one iteration ----------

  /** An arrival up to the search for an idle window. */
  function Queued(d: Draws, r: Run): Run
    requires Runnable(r.bank)
  {
    var n := r.hist.arrived;
    Run(r.bank.(waiting := r.bank.waiting + [Customer(r.bank.agenda[0].time, d.duration(n))],
                agenda := WithNextArrival(r.bank, d.gap(n)), count := r.bank.count + 1),
        r.hist.(arrived := n + 1))
  }

  /** The current arrival makes way for the next one, or for none. */
  lemma {:induction false} NextArrivalAgenda(es: seq<Event>, next: Event, planned: bool, es': seq<Event>)
    requires es != [] && Sorted(es) && OneEach(es) && es[0].kind == next.kind == ARRIVAL
    requires es[0].time <= next.time
    requires es' == if planned then OrderInsert(es[1..], next) else es[1..]
    ensures Sorted(es') && OneEach(es')
    ensures forall e | e in es' :: es[0].time <= e.time
    ensures forall e | e in es' && e.kind != ARRIVAL :: e in es
    ensures forall e | e in es' && e.kind == ARRIVAL :: e == next && planned
    ensures HasKind(es', ARRIVAL) <==> planned
    ensures forall w | 0 <= w :: HasKind(es', w) <==> HasKind(es, w)
  {
    TailOfAgenda(es);
    if planned {
      OrderInsertMembers(es[1..], next);
      OrderInsertKeepsSorted(es[1..], next);
      OrderInsertKeepsOneEach(es[1..], next);
    }
  }

  lemma {:induction false} NextArrivalDue(es: seq<Event>, next: Event, ws: seq<Window>)
    requires es != [] && es[0].kind == next.kind == ARRIVAL
    ensures Due(OrderInsert(es[1..], next), ws) == Due(es, ws) == Due(es[1..], ws)
  {
    DueInsert(es[1..], next, ws);
    DueOne(next, ws);
  }

  lemma {:induction false} QueuedAgenda(d: Draws, b: Bank, h: History)
    requires AgendaOk(b) && b.agenda != [] && b.agenda[0].kind == ARRIVAL
    requires b.agenda[0].time == ArrivalTime(d, h.arrived) && Comes(d, b.closing, h.arrived)
    ensures Runnable(b)
    ensures var es := WithNextArrival(b, d.gap(h.arrived));
      && AgendaOk(b.(agenda := es))
      && (forall e | e in es :: b.agenda[0].time <= e.time)
      && (forall e | e in es && e.kind != ARRIVAL :: e in b.agenda)
      && (forall e | e in es && e.kind == ARRIVAL ::
            e.time == ArrivalTime(d, h.arrived + 1) && Comes(d, b.closing, h.arrived + 1))
      && (!HasKind(es, ARRIVAL) ==> !Comes(d, b.closing, h.arrived + 1))
      && (forall w | 0 <= w :: HasKind(es, w) <==> HasKind(b.agenda, w))
      && Due(es, b.windows) == Due(b.agenda, b.windows)
  {
    hide OrderInsert;
    var n := h.arrived;
    var next := Event(b.agenda[0].time + d.gap(n), ARRIVAL);
    assert next.time == ArrivalTime(d, n + 1);
    var es := WithNextArrival(b, d.gap(n));
    NextArrivalAgenda(b.agenda, next, next.time < b.closing, es);
    NextArrivalDue(b.agenda, next, b.windows);
  }

  lemma {:induction false} CustomersExtend(d: Draws, m: nat, n: nat)
    requires m <= n
    ensures Customers(d, m, n + 1) == Customers(d, m, n) + [Customer(ArrivalTime(d, n), d.duration(n))]
  {
  }

  /** With an idle window there is nobody waiting, so the next to start is the one who has just come. */
  lemma {:induction false} ArriveSeats(d: Draws, before: Bank, r: Run, w: nat)
    requires LoopInvariant(d, before, r) && r.bank.agenda != [] && r.bank.agenda[0].kind == ARRIVAL
    requires w < |r.bank.windows| && r.bank.windows[w].idle
    ensures Runnable(r.bank) && Seat(d, before, Queued(d, r).bank, Queued(d, r).hist, w, r.bank.agenda[0].time)
  {
    var b, h := r.bank, r.hist;
    var q := Queued(d, r);
    var now := b.agenda[0].time;
    assert b.agenda[0] in b.agenda;
    QueuedAgenda(d, b, h);
    CustomersExtend(d, |h.starts|, h.arrived);
    assert b.agenda[0] in b.agenda;
    assert |h.starts| == h.arrived;
    assert !HasKind(b.agenda, w);
    ScheduleIgnoresAgenda(d, b, q.bank, h);
    assert SeatWindows(q.bank, q.hist, w, now);
    assert SeatArrivals(d, q.bank, q.hist, now);
  }

  lemma {:induction false} WaitKeepsWindows(b: Bank, h: History, b': Bank, h': History)
    requires WindowsOk(b, h) && b.agenda != []
    requires forall w | 0 <= w < |b.windows| :: !b.windows[w].idle
    requires b'.windows == b.windows && b'.closing == b.closing
    requires h'.freeAt == h.freeAt && h'.departed == h.departed
    requires forall e | e in b'.agenda && e.kind != ARRIVAL :: e in b.agenda
    requires forall w | 0 <= w :: HasKind(b'.agenda, w) <==> HasKind(b.agenda, w)
    ensures WindowsOk(b', h')
  {
  }

  lemma {:induction false} WaitKeepsArrivals(d: Draws, b: Bank, h: History, b': Bank, h': History)
    requires AgendaOk(b) && ArrivalsOk(d, b, h) && b.agenda != [] && b.agenda[0].kind == ARRIVAL
    requires forall w | 0 <= w < |b.windows| :: !b.windows[w].idle
    requires h' == h.(arrived := h.arrived + 1)
    requires b'.closing == b.closing && b'.windows == b.windows && Runnable(b)
    requires b'.waiting == b.waiting + [Customer(b.agenda[0].time, d.duration(h.arrived))]
    requires b'.agenda == WithNextArrival(b, d.gap(h.arrived))
    ensures ArrivalsOk(d, b', h')
  {
    assert b.agenda[0] in b.agenda;
    QueuedAgenda(d, b, h);
    CustomersExtend(d, |h.starts|, h.arrived);
    assert |b.windows| > 0 ==> !b.windows[0].idle;
  }

  lemma {:induction false} ArriveWaits(d: Draws, before: Bank, r: Run)
    requires LoopInvariant(d, before, r) && r.bank.agenda != [] && r.bank.agenda[0].kind == ARRIVAL
    requires forall w | 0 <= w < |r.bank.windows| :: !r.bank.windows[w].idle
    ensures Runnable(r.bank) && LoopInvariant(d, before, Queued(d, r))
  {
    var b, h := r.bank, r.hist;
    assert b.agenda[0] in b.agenda;
    QueuedAgenda(d, b, h);
    var q := Queued(d, r);
    WaitKeepsArrivals(d, b, h, q.bank, q.hist);
    ScheduleIgnoresAgenda(d, b, q.bank, q.hist);
    WaitKeepsWindows(b, h, q.bank, q.hist);
  }

  lemma {:induction false} ArriveIsServe(d: Draws, r: Run)
    requires Runnable(r.bank) && r.bank.agenda[0].kind == ARRIVAL && |r.hist.freeAt| == |r.bank.windows|
    requires Queued(d, r).bank.waiting[0].duration == d.duration(|r.hist.starts|)
    ensures var w, q, now, n := IdleWindow(r.bank.windows), Queued(d, r), r.bank.agenda[0].time, |r.hist.starts|;
      Advance(d, r) == if w >= 0 then Run(Serve(q.bank, w, now), WithStart(q.hist, w, now, d.duration(n))) else q
  {
  }

  lemma {:induction false} QueuedHead(d: Draws, r: Run)
    requires Runnable(r.bank) && r.bank.agenda[0].kind == ARRIVAL && ArrivalsOk(d, r.bank, r.hist)
    ensures Queued(d, r).bank.waiting[0].duration == d.duration(|r.hist.starts|)
  {
    if r.bank.waiting != [] {
      CustomersTail(d, |r.hist.starts|, r.hist.arrived);
    }
  }

  lemma {:induction false} ArriveKeepsInvariant(d: Draws, before: Bank, r: Run)
    requires LoopInvariant(d, before, r) && r.bank.agenda != [] && r.bank.agenda[0].kind == ARRIVAL
    ensures LoopInvariant(d, before, Advance(d, r))
  {
    HeadIsRunnable(d, before, r);
    assert r.bank.agenda[0] in r.bank.agenda;
    QueuedHead(d, r);
    ArriveIsServe(d, r);
    var w, q := IdleWindow(r.bank.windows), Queued(d, r);
    if w >= 0 {
      ArriveSeats(d, before, r, w);
      ServeKeepsInvariant(d, before, q.bank, q.hist, w, r.bank.agenda[0].time);
    } else {
      ArriveWaits(d, before, r);
    }
  }

  // ---------- departures ----------

  /** A departure up to the search for somebody to serve. */
  function Left(r: Run): Run
    requires Runnable(r.bank) && r.bank.agenda[0].kind != ARRIVAL
  {
    var b, h := r.bank, r.hist;
    var v := Visit(b.windows[b.agenda[0].kind].customer.arrive, b.agenda[0].time);
    Run(b.(stay := b.stay + StayOf(v, b.closing), agenda := b.agenda[1..]),
        h.(departed := h.departed + [v]))
  }

  lemma {:induction false} LeftKeepsLedger(d: Draws, before: Bank, r: Run)
    requires Runnable(r.bank) && r.bank.agenda[0].kind != ARRIVAL
    requires LedgerOk(d, before, r.bank, r.hist)
    ensures LedgerOk(d, before, Left(r).bank, Left(r).hist)
  {
    var h, h' := r.hist, Left(r).hist;
    assert h'.departed[..|h'.departed| - 1] == h.departed;
  }

  lemma {:induction false} LeftKeepsArrivals(d: Draws, r: Run)
    requires Runnable(r.bank) && r.bank.agenda[0].kind != ARRIVAL && AgendaOk(r.bank)
    requires ArrivalsOk(d, r.bank, r.hist)
    requires !r.bank.windows[r.bank.agenda[0].kind].idle
    ensures r.hist.arrived > 0 && ArrivalsOk(d, Left(r).bank, Left(r).hist)
  {
    TailOfAgenda(r.bank.agenda);
  }

  /** What is left to know of the windows once the customer of window w has gone. */
  lemma {:induction false} LeftWindows(b: Bank, h: History, w: nat, v: Visit)
    requires AgendaOk(b) && WindowsOk(b, h) && b.agenda != []
    requires b.agenda[0].kind == w < |b.windows|
    ensures !b.windows[w].idle && h.freeAt[w] == b.agenda[0].time
    ensures forall j | 0 <= j < |b.windows| && j != w && !b.windows[j].idle ::
      HasKind(b.agenda[1..], j) ||
      (h.freeAt[j] >= b.closing && Visit(b.windows[j].customer.arrive, h.freeAt[j]) in h.departed + [v])
    ensures forall j | 0 <= j < |b.windows| && j != w && !b.windows[j].idle ::
      h.freeAt[j] >= b.agenda[0].time || h.freeAt[j] >= b.closing
    ensures forall j | 0 <= j < |b.windows| && j != w && b.windows[j].idle ::
      h.freeAt[j] <= b.agenda[0].time
  {
    TailOfAgenda(b.agenda);
    assert b.agenda[0] in b.agenda;
    forall j | 0 <= j < |b.windows| && j != w && HasKind(b.agenda, j)
      ensures h.freeAt[j] >= b.agenda[0].time
    {
      var e :| e in b.agenda && e.kind == j;
    }
  }

  lemma {:induction false} DepartSeatsWindows(r: Run)
    requires AgendaOk(r.bank) && WindowsOk(r.bank, r.hist) && Runnable(r.bank) && r.bank.agenda[0].kind != ARRIVAL
    requires r.bank.waiting != []
    ensures SeatWindows(Left(r).bank, Left(r).hist, r.bank.agenda[0].kind, r.bank.agenda[0].time)
  {
    var b, h := r.bank, r.hist;
    LeftWindows(b, h, b.agenda[0].kind, Left(r).hist.departed[|h.departed|]);
    TailOfAgenda(b.agenda);
  }

  lemma {:induction false} DepartSeatsArrivals(d: Draws, r: Run)
    requires AgendaOk(r.bank) && Runnable(r.bank) && r.bank.agenda[0].kind != ARRIVAL
    requires !r.bank.windows[r.bank.agenda[0].kind].idle
    requires ArrivalsOk(d, r.bank, r.hist) && r.bank.waiting != []
    ensures SeatArrivals(d, Left(r).bank, Left(r).hist, r.bank.agenda[0].time)
    ensures ArrivalTime(d, |r.hist.starts|) <= r.bank.agenda[0].time
  {
    LeftKeepsArrivals(d, r);
    TailOfAgenda(r.bank.agenda);
    assert r.bank.agenda[0] in r.bank.agenda;
    ArrivalsInOrder(d, |r.hist.starts|, r.hist.arrived - 1);
  }

  lemma {:induction false} DepartIsEarliest(d: Draws, r: Run)
    requires AgendaOk(r.bank) && WindowsOk(r.bank, r.hist) && Runnable(r.bank) && r.bank.agenda[0].kind != ARRIVAL
    requires r.bank.waiting != [] && r.bank.agenda[0].time < r.bank.closing
    requires ArrivalTime(d, |r.hist.starts|) <= r.bank.agenda[0].time
    ensures EarliestFor(ArrivalTime(d, |r.hist.starts|), r.hist.freeAt,
                        r.bank.agenda[0].kind, r.bank.agenda[0].time)
  {
    LeftWindows(r.bank, r.hist, r.bank.agenda[0].kind, Left(r).hist.departed[|r.hist.departed|]);
  }

  /** The next customer goes to the window that has just become free. */
  lemma {:induction false} DepartSeats(d: Draws, before: Bank, r: Run)
    requires LoopInvariant(d, before, r) && r.bank.agenda != [] && r.bank.agenda[0].kind != ARRIVAL
    requires r.bank.waiting != [] && r.bank.agenda[0].time < r.bank.closing
    ensures Runnable(r.bank)
    ensures Seat(d, before, Left(r).bank, Left(r).hist, r.bank.agenda[0].kind, r.bank.agenda[0].time)
  {
    HeadIsRunnable(d, before, r);
    DepartSeatsWindows(r);
    assert r.bank.agenda[0] in r.bank.agenda;
    DepartSeatsArrivals(d, r);
    DepartIsEarliest(d, r);
    LeftKeepsLedger(d, before, r);
    TailOfAgenda(r.bank.agenda);
    ScheduleIgnoresAgenda(d, r.bank, Left(r).bank, Left(r).hist);
  }

  lemma {:induction false} LateDepartureKeepsWindows(r: Run)
    requires AgendaOk(r.bank) && WindowsOk(r.bank, r.hist) && Runnable(r.bank) && r.bank.agenda[0].kind != ARRIVAL
    requires r.bank.agenda[0].time >= r.bank.closing
    ensures WindowsOk(Left(r).bank, Left(r).hist)
  {
    var b, h := r.bank, r.hist;
    LeftWindows(b, h, b.agenda[0].kind, Left(r).hist.departed[|h.departed|]);
    TailOfAgenda(b.agenda);
  }

  lemma {:induction false} IdleKeepsWindows(r: Run, b': Bank)
    requires AgendaOk(r.bank) && WindowsOk(r.bank, r.hist) && Runnable(r.bank) && r.bank.agenda[0].kind != ARRIVAL
    requires r.bank.waiting == []
    requires var w, l := r.bank.agenda[0].kind, Left(r).bank;
      b' == l.(windows := l.windows[w := l.windows[w].(idle := true)])
    ensures WindowsOk(b', Left(r).hist)
  {
    var b, h := r.bank, r.hist;
    LeftWindows(b, h, b.agenda[0].kind, Left(r).hist.departed[|h.departed|]);
    TailOfAgenda(b.agenda);
  }

  lemma {:induction false} DepartKeepsInvariant(d: Draws, before: Bank, r: Run)
    requires LoopInvariant(d, before, r) && r.bank.agenda != [] && r.bank.agenda[0].kind != ARRIVAL
    ensures LoopInvariant(d, before, Advance(d, r))
  {
    HeadIsRunnable(d, before, r);
    var b, h, l := r.bank, r.hist, Left(r);
    var w, now := b.agenda[0].kind, b.agenda[0].time;
    if now < b.closing && b.waiting != [] {
      DepartSeats(d, before, r);
      ServeKeepsInvariant(d, before, l.bank, l.hist, w, now);
      DepartIsServe(d, before, r);
    } else {
      DepartWithoutService(d, before, r);
    }
  }

  lemma {:induction false} DepartIsServe(d: Draws, before: Bank, r: Run)
    requires Runnable(r.bank) && r.bank.agenda[0].kind != ARRIVAL
    requires WindowsOk(r.bank, r.hist) && ArrivalsOk(d, r.bank, r.hist)
    requires r.bank.agenda[0].time < r.bank.closing && r.bank.waiting != []
    ensures Advance(d, r) ==
      Run(Serve(Left(r).bank, r.bank.agenda[0].kind, r.bank.agenda[0].time),
          WithStart(Left(r).hist, r.bank.agenda[0].kind, r.bank.agenda[0].time, d.duration(|r.hist.starts|)))
  {
    CustomersTail(d, |r.hist.starts|, r.hist.arrived);
    assert r.bank.agenda[0] in r.bank.agenda;
  }

  lemma {:induction false} DepartWithoutService(d: Draws, before: Bank, r: Run)
    requires LoopInvariant(d, before, r) && r.bank.agenda != [] && r.bank.agenda[0].kind != ARRIVAL
    requires r.bank.agenda[0].time >= r.bank.closing || r.bank.waiting == []
    ensures LoopInvariant(d, before, Advance(d, r))
  {
    HeadIsRunnable(d, before, r);
    var b, l := r.bank, Left(r);
    assert !b.windows[b.agenda[0].kind].idle by { assert b.agenda[0] in b.agenda; }
    LeftKeepsLedger(d, before, r);
    LeftKeepsArrivals(d, r);
    LeftKeepsAgenda(b);
    if b.agenda[0].time >= b.closing {
      LateDepartureKeepsWindows(r);
      ScheduleIgnoresAgenda(d, b, l.bank, l.hist);
    } else {
      IdleKeepsInvariant(d, before, r);
    }
  }

  lemma {:induction false} LeftKeepsAgenda(b: Bank)
    requires AgendaOk(b) && b.agenda != []
    ensures AgendaOk(b.(agenda := b.agenda[1..])) && !HasKind(b.agenda[1..], b.agenda[0].kind)
  {
    TailOfAgenda(b.agenda);
  }

  lemma {:induction false} IdleKeepsInvariant(d: Draws, before: Bank, r: Run)
    requires Runnable(r.bank) && r.bank.agenda[0].kind != ARRIVAL
    requires r.bank.closing == before.closing && |r.bank.windows| == |before.windows|
    requires AgendaOk(r.bank) && WindowsOk(r.bank, r.hist) && ScheduleOk(d, r.bank, r.hist)
    requires r.hist.arrived > 0 && ArrivalsOk(d, Left(r).bank, Left(r).hist)
    requires LedgerOk(d, before, Left(r).bank, Left(r).hist)
    requires r.bank.waiting == [] && r.bank.agenda[0].time < r.bank.closing
    ensures LoopInvariant(d, before, Advance(d, r))
  {
    var w, l, a := r.bank.agenda[0].kind, Left(r), Advance(d, r);
    LeftKeepsAgenda(r.bank);
    assert a.hist == l.hist && a.bank == l.bank.(windows := l.bank.windows[w := l.bank.windows[w].(idle := true)]);
    IdleKeepsWindows(r, a.bank);
    IdleKeepsLedger(d, before, l.bank, l.hist, w);
    ScheduleIgnoresAgenda(d, r.bank, a.bank, a.hist);
  }

  lemma {:induction false} IdleKeepsLedger(d: Draws, before: Bank, b: Bank, h: History, w: nat)
    requires w < |b.windows| && !HasKind(b.agenda, w) && LedgerOk(d, before, b, h)
    ensures LedgerOk(d, before, b.(windows := b.windows[w := b.windows[w].(idle := true)]), h)
  {
    DueElsewhere(b.agenda, b.windows, w, b.windows[w].(idle := true));
  }

  lemma {:induction false} AdvanceKeepsInvariant(d: Draws, before: Bank, r: Run)
    requires LoopInvariant(d, before, r)
    ensures LoopInvariant(d, before, Advance(d, r))
  {
    if r.bank.agenda != [] {
      if r.bank.agenda[0].kind == ARRIVAL {
        ArriveKeepsInvariant(d, before, r);
      } else {
        DepartKeepsInvariant(d, before, r);
      }
    }
  }

  /** The invariant holds at the head of the loop, however many events have been handled. */
  lemma {:induction false} EveryLoopHead(d: Draws, before: Bank, k: nat)
    requires Ready(before)
    ensures LoopInvariant(d, before, After(d, Open(d, before), k))
  {
    if k == 0 {
      OpeningInvariant(d, before);
    } else {
      EveryLoopHead(d, before, k - 1);
      AdvanceKeepsInvariant(d, before, After(d, Open(d, before), k - 1));
    }
  }
}
