// The bank simulation as values: events, customers, windows, the agenda, and
// one iteration of the event loop.  The classes of BankQueue.dfy and
// BankSystem.dfy change their fields exactly as these functions say.

module BankModel {

  const ARRIVAL: int := -1

  /** kind is ARRIVAL, or the number of the window the customer leaves. */
  datatype Event = Event(time: int, kind: int)

  datatype Customer = Customer(arrive: int, duration: int)

  datatype Window = Window(idle: bool, customer: Customer)

  /**
   * The simulation between two events.  The agenda is the current event
   * followed by the event list; it is empty once the loop has ended.
   */
  datatype Bank = Bank(
    closing: int,
    windows: seq<Window>,
    waiting: seq<Customer>,
    agenda: seq<Event>,
    stay: int,
    count: int)

  /** The random draws of one run: the opening time, then a gap and a service time per customer. */
  datatype Draws = Draws(first: nat, gap: nat -> nat, duration: nat -> nat)

  // ---------- the ordered event list ----------

  /** Where an event of time t goes: in front of the first event that is not earlier. */
  function InsertionPoint(es: seq<Event>, t: int): (p: nat)
    ensures p <= |es|
    ensures forall i | 0 <= i < p :: es[i].time < t
    ensures p < |es| ==> t <= es[p].time
  {
    if es == [] || t <= es[0].time then 0 else 1 + InsertionPoint(es[1..], t)
  }

  function OrderInsert(es: seq<Event>, e: Event): seq<Event>
  {
    var p := InsertionPoint(es, e.time);
    es[..p] + [e] + es[p..]
  }

  // ---------- one event ----------

  /** The lowest-numbered idle window, or -1. */
  function IdleWindow(ws: seq<Window>): (w: int)
    ensures -1 <= w < |ws|
    ensures w >= 0 ==> ws[w].idle && forall i | 0 <= i < w :: !ws[i].idle
    ensures w == -1 ==> forall i | 0 <= i < |ws| :: !ws[i].idle
  {
    IdleWindowFrom(ws, 0)
  }

  function IdleWindowFrom(ws: seq<Window>, k: nat): (w: int)
    requires k <= |ws|
    ensures w == -1 || k <= w < |ws|
    ensures w >= 0 ==> ws[w].idle && forall i | k <= i < w :: !ws[i].idle
    ensures w == -1 ==> forall i | k <= i < |ws| :: !ws[i].idle
    decreases |ws| - k
  {
    if k == |ws| then -1 else if ws[k].idle then k else IdleWindowFrom(ws, k + 1)
  }

  /** The event at the head of the agenda can be handled: it names an existing window, or none. */
  predicate Runnable(b: Bank) {
    b.agenda != [] && ARRIVAL <= b.agenda[0].kind < |b.windows|
  }

  /** The event list once the arrival after the current one has been drawn. */
  function WithNextArrival(b: Bank, gap: nat): seq<Event>
    requires Runnable(b)
  {
    var next := b.agenda[0].time + gap;
    if next < b.closing then OrderInsert(b.agenda[1..], Event(next, ARRIVAL)) else b.agenda[1..]
  }

  function Arrive(b: Bank, gap: nat, duration: nat): Bank
    requires Runnable(b)
  {
    var now := b.agenda[0].time;
    var later := WithNextArrival(b, gap);
    var queue := b.waiting + [Customer(now, duration)];
    var w := IdleWindow(b.windows);
    if w >= 0 then
      b.(windows := b.windows[w := Window(false, queue[0])],
         waiting := queue[1..],
         agenda := OrderInsert(later, Event(now + queue[0].duration, w)),
         count := b.count + 1)
    else
      b.(waiting := queue, agenda := later, count := b.count + 1)
  }

  function Depart(b: Bank): Bank
    requires Runnable(b) && b.agenda[0].kind != ARRIVAL
  {
    var now, w := b.agenda[0].time, b.agenda[0].kind;
    if now >= b.closing then
      b.(agenda := b.agenda[1..])
    else if b.waiting == [] then
      b.(stay := b.stay + now - b.windows[w].customer.arrive,
         windows := b.windows[w := b.windows[w].(idle := true)],
         agenda := b.agenda[1..])
    else
      b.(stay := b.stay + now - b.windows[w].customer.arrive,
         windows := b.windows[w := b.windows[w].(customer := b.waiting[0])],
         waiting := b.waiting[1..],
         agenda := OrderInsert(b.agenda[1..], Event(now + b.waiting[0].duration, w)))
  }

  /** One iteration of the event loop; the draws are used by arrivals only. */
  function Handle(b: Bank, gap: nat, duration: nat): Bank
    requires Runnable(b)
  {
    if b.agenda[0].kind == ARRIVAL then Arrive(b, gap, duration) else Depart(b)
  }

  // ---------- whole runs, with what has happened so far ----------

  /** A customer who has left: when they came and when they went. */
  datatype Visit = Visit(arrive: int, leave: int)

  /**
   * The story of a run.  starts lists the service starts in order, freeAt the
   * time each window is (or was last) due to become free, departed the
   * departures handled.
   */
  datatype History = History(arrived: nat, starts: seq<int>, freeAt: seq<int>, departed: seq<Visit>)

  datatype Run = Run(bank: Bank, hist: History)

  function WithStart(h: History, w: nat, start: int, duration: int): History
    requires w < |h.freeAt|
  {
    h.(starts := h.starts + [start], freeAt := h.freeAt[w := start + duration])
  }

  function Record(b: Bank, h: History, duration: nat): History
    requires Runnable(b) && |h.freeAt| == |b.windows|
  {
    var now, kind := b.agenda[0].time, b.agenda[0].kind;
    if kind == ARRIVAL then
      var w := IdleWindow(b.windows);
      var h1 := h.(arrived := h.arrived + 1);
      if w < 0 then h1 else
        WithStart(h1, w, now, (b.waiting + [Customer(now, duration)])[0].duration)
    else
      var h1 := h.(departed := h.departed + [Visit(b.windows[kind].customer.arrive, now)]);
      if now >= b.closing || b.waiting == [] then h1 else
        WithStart(h1, kind, now, b.waiting[0].duration)
  }

  /** One iteration of the loop of `run`, or nothing once the agenda is empty. */
  function Advance(d: Draws, r: Run): Run
  {
    if Runnable(r.bank) && |r.hist.freeAt| == |r.bank.windows| then
      var n := r.hist.arrived;
      Run(Handle(r.bank, d.gap(n), d.duration(n)), Record(r.bank, r.hist, d.duration(n)))
    else r
  }

  function After(d: Draws, r: Run, k: nat): Run
  {
    if k == 0 then r else Advance(d, After(d, r, k - 1))
  }

  /** A bank before opening: nobody waits, nothing is planned, every window is idle. */
  predicate Ready(b: Bank) {
    b.waiting == [] && b.agenda == [] && forall w | 0 <= w < |b.windows| :: b.windows[w].idle
  }

  /** `init`: the opening arrival becomes the current event. */
  function Open(d: Draws, b: Bank): Run {
    Run(b.(agenda := [Event(d.first, ARRIVAL)]),
        History(0, [], seq(|b.windows|, _ => 0), []))
  }

  /** `end`: windows idle, both lists empty. */
  function Close(b: Bank): Bank {
    b.(windows := seq(|b.windows|, w requires 0 <= w < |b.windows| => b.windows[w].(idle := true)),
       waiting := [], agenda := [])
  }
}
