// The simulation as it runs: windows updated in place, two linked queues,
// the current event, and the running totals.

module BankSystem {
  import opened BankModel
  import opened BankRecurrence
  import opened BankInvariant
  import opened BankTheorems
  import opened BankQueue

  class ServiceWindow {
    var idle: bool
    var customer: Customer

    constructor ()
      ensures idle && customer == Customer(0, 0)
    {
      idle, customer := true, Customer(0, 0);
    }

    function IsIdle(): bool
      reads this
    { idle }

    function GetCustomerArriveTime(): int
      reads this
    { customer.arrive }

    method ServeCustomer(customer: Customer)
      modifies this
      ensures this.customer == customer && idle == old(idle)
    { this.customer := customer; }

    method SetBusy()
      modifies this
      ensures !idle && customer == old(customer)
    { idle := false; }

    method SetIdle()
      modifies this
      ensures idle && customer == old(customer)
    { idle := true; }
  }

  /** An array of new windows, all idle. */
  method NewWindows(n: nat) returns (ws: array<ServiceWindow>, ghost objects: set<object>)
    ensures ws.Length == n && fresh(ws) && fresh(objects) && ws !in objects
    ensures forall k | 0 <= k < n :: ws[k] in objects && ws[k].idle && ws[k].customer == Customer(0, 0)
    ensures forall j, k | 0 <= j < k < n :: ws[j] != ws[k]
  {
    var w := new ServiceWindow();
    ws := new ServiceWindow[n](_ => w);
    objects := {};
    for i := 0 to n
      invariant fresh(objects) && ws !in objects
      invariant forall k | 0 <= k < i :: ws[k] in objects && ws[k].idle && ws[k].customer == Customer(0, 0)
      invariant forall j, k | 0 <= j < k < i :: ws[j] != ws[k]
    {
      w := new ServiceWindow();
      ws[i] := w;
      objects := objects + {w};
    }
  }

  /** The quotient of C++ integers: rounded toward zero. */
  function Quotient(a: int, b: int): int
    requires b > 0
  {
    if a >= 0 then a / b else -((-a) / b)
  }

  /** The quotient times the divisor is next to the dividend, on the side of zero. */
  lemma {:induction false} QuotientIs(a: int, b: int)
    requires b > 0
    ensures a >= 0 ==> Quotient(a, b) * b <= a < (Quotient(a, b) + 1) * b
    ensures a < 0 ==> (Quotient(a, b) - 1) * b < a <= Quotient(a, b) * b
  {
    var c := if a >= 0 then a else -a;
    assert c == b * (c / b) + c % b;
    Scaled(c / b, b);
  }

  lemma Scaled(q: int, b: int)
    ensures q * b == b * q && (q + 1) * b == q * b + b && (-q) * b == -(q * b) && (-q - 1) * b == -(q * b) - b
  {
  }

  /** bank is the state as a value; Valid ties it to the fields. */
  class QueueSystem {
    const totalServiceTime: int
    var totalCustomerStayTime: int
    var totalCustomerNum: int
    const windows: array<ServiceWindow>
    const customerList: Queue<Customer>
    const eventList: Queue<Event>
    var currentEvent: Node?<Event>
    ghost var bank: Bank
    ghost var repr: set<object>

    ghost predicate Separate()
      reads this, windows, customerList, eventList, repr
    {
      && {this, windows, customerList, eventList} <= repr
      && customerList.repr <= repr && eventList.repr <= repr
      && customerList.repr !! eventList.repr
      && {this, windows} !! customerList.repr + eventList.repr
      && (forall i | 0 <= i < windows.Length ::
            windows[i] in repr && windows[i] as object != this && windows[i] as object != windows &&
            windows[i] !in customerList.repr + eventList.repr)
      && (forall i, j | 0 <= i < j < windows.Length :: windows[i] != windows[j])
      && (currentEvent != null ==>
            && currentEvent in repr
            && currentEvent !in customerList.repr + eventList.repr
            && currentEvent as object != this && currentEvent as object != windows
            && forall i | 0 <= i < windows.Length :: windows[i] as object != currentEvent)
    }

    /** Everything but the agenda. */
    ghost predicate Valid()
      reads this, windows, customerList, eventList, repr
      ensures Valid() ==> this in repr
    {
      && Separate()
      && customerList.Valid() && eventList.Valid()
      && customerList.last == |customerList.contents|
      && bank.closing == totalServiceTime
      && bank.stay == totalCustomerStayTime && bank.count == totalCustomerNum
      && bank.waiting == customerList.contents
      && |bank.windows| == windows.Length
      && (forall i {:trigger windows[i]} {:trigger bank.windows[i]} | 0 <= i < windows.Length ::
            bank.windows[i] == Window(windows[i].idle, windows[i].customer))
    }

    /** At the head of the loop: the agenda is the current event and the list. */
    ghost predicate AtHead()
      reads this, windows, customerList, eventList, repr
    {
      && Valid()
      && bank.agenda == (if currentEvent == null then [] else [currentEvent.data] + eventList.contents)
      && (currentEvent == null ==> eventList.contents == [])
    }

    constructor (totalServiceTime: int, windowNum: nat)
      ensures AtHead() && fresh(repr) && Ready(bank)
      ensures |bank.windows| == windowNum && bank.closing == totalServiceTime
      ensures bank.stay == 0 && bank.count == 0
    {
      this.totalServiceTime := totalServiceTime;
      totalCustomerStayTime, totalCustomerNum, currentEvent := 0, 0, null;
      var ws, objects := NewWindows(windowNum);
      windows := ws;
      customerList := new Queue(Customer(0, 0));
      eventList := new Queue(Event(0, ARRIVAL));
      new;
      assert customerList.Valid() && eventList.Valid();
      assert customerList.repr !! eventList.repr && objects !! customerList.repr + eventList.repr;
      repr := {this, windows} + customerList.repr + eventList.repr + objects;
      bank := Bank(totalServiceTime,
                   seq(windowNum, _ => Window(true, Customer(0, 0))),
                   [], [], 0, 0);
    }

    /** The opening arrival becomes the current event. */
    method Init(first: nat)
      requires AtHead() && Ready(bank) && currentEvent == null
      modifies repr
      ensures AtHead() && fresh(repr - old(repr)) && currentEvent != null
      ensures bank == old(bank).(agenda := [Event(first, ARRIVAL)])
    {
      currentEvent := new Node(Event(first, ARRIVAL));
      repr := repr + {currentEvent};
      bank := bank.(agenda := [Event(first, ARRIVAL)]);
    }

    method GetIdleServiceWindow() returns (w: int)
      requires Valid()
      ensures w == IdleWindow(bank.windows)
    {
      for i := 0 to windows.Length
        invariant forall k | 0 <= k < i :: !bank.windows[k].idle
      {
        if windows[i].IsIdle() {
          return i;
        }
      }
      return -1;
    }

    /** An event goes into the event list; nothing else changes. */
    method Schedule(event: Event)
      requires Valid()
      modifies repr
      ensures Valid() && fresh(repr - old(repr)) && old(repr) <= repr
      ensures eventList.contents == OrderInsert(old(eventList.contents), event)
      ensures bank == old(bank) && currentEvent == old(currentEvent)
      ensures currentEvent != null ==> currentEvent.data == old(currentEvent.data)
    {
      OrderEnqueue(eventList, event);
      repr := repr + eventList.repr;
    }

    /** A customer joins the end of the waiting line. */
    method Queue(customer: Customer)
      requires Valid()
      modifies repr
      ensures Valid() && fresh(repr - old(repr)) && old(repr) <= repr
      ensures bank == old(bank).(waiting := old(bank).waiting + [customer])
      ensures eventList.contents == old(eventList.contents) && currentEvent == old(currentEvent)
      ensures currentEvent != null ==> currentEvent.data == old(currentEvent.data)
    {
      customerList.Enqueue(customer);
      repr := repr + customerList.repr;
      bank := bank.(waiting := customerList.contents);
    }

    /** The head of the waiting line becomes the customer of window w, which keeps its status. */
    method Call(w: nat) returns (customer: Customer)
      requires Valid() && w < windows.Length && bank.waiting != []
      modifies repr
      ensures Valid() && repr == old(repr)
      ensures customer == old(bank).waiting[0]
      ensures bank == old(bank).(waiting := old(bank).waiting[1..],
                                 windows := old(bank).windows[w := old(bank).windows[w].(customer := customer)])
      ensures eventList.contents == old(eventList.contents) && currentEvent == old(currentEvent)
      ensures currentEvent != null ==> currentEvent.data == old(currentEvent.data)
    {
      var node := customerList.Dequeue();
      customer := node.data;
      windows[w].ServeCustomer(customer);
      bank := bank.(waiting := customerList.contents,
                    windows := bank.windows[w := bank.windows[w].(customer := customer)]);
    }

    method SetStatus(w: nat, idle: bool)
      requires Valid() && w < windows.Length
      modifies repr
      ensures Valid() && repr == old(repr)
      ensures bank == old(bank).(windows := old(bank).windows[w := old(bank).windows[w].(idle := idle)])
      ensures eventList.contents == old(eventList.contents) && currentEvent == old(currentEvent)
      ensures currentEvent != null ==> currentEvent.data == old(currentEvent.data)
    {
      if idle {
        windows[w].SetIdle();
      } else {
        windows[w].SetBusy();
      }
      bank := bank.(windows := bank.windows[w := bank.windows[w].(idle := idle)]);
    }

    /** Window w takes the head of the waiting line at time now, and the departure is scheduled. */
    method StartService(w: nat, now: int)
      requires Valid() && w < windows.Length && bank.waiting != []
      modifies repr
      ensures Valid() && fresh(repr - old(repr)) && old(repr) <= repr
      ensures var c := old(bank).waiting[0];
        && bank == old(bank).(waiting := old(bank).waiting[1..],
                              windows := old(bank).windows[w := old(bank).windows[w].(customer := c)])
        && eventList.contents == OrderInsert(old(eventList.contents), Event(now + c.duration, w))
      ensures currentEvent == old(currentEvent)
    {
      var customer := Call(w);
      Schedule(Event(now + customer.duration, w));
    }

    /** The running totals grow by the given amounts. */
    method Count(customers: int, stay: int)
      requires Valid()
      modifies repr
      ensures Valid() && repr == old(repr)
      ensures bank == old(bank).(count := old(bank).count + customers, stay := old(bank).stay + stay)
      ensures eventList.contents == old(eventList.contents) && currentEvent == old(currentEvent)
      ensures currentEvent != null ==> currentEvent.data == old(currentEvent.data)
    {
      totalCustomerNum := totalCustomerNum + customers;
      totalCustomerStayTime := totalCustomerStayTime + stay;
      bank := bank.(count := totalCustomerNum, stay := totalCustomerStayTime);
    }

    /** Nothing is left to do for the current event: what remains is the event list. */
    ghost method Settle()
      requires Valid()
      modifies this`bank
      ensures Valid() && bank == old(bank).(agenda := eventList.contents)
    {
      bank := bank.(agenda := eventList.contents);
    }

    /** A customer joins the line; the first idle window, if there is one, takes the head of the line. */
    method Admit(customer: Customer)
      requires Valid()
      modifies repr
      ensures Valid() && fresh(repr - old(repr)) && old(repr) <= repr
      ensures var w, queue := IdleWindow(old(bank).windows), old(bank).waiting + [customer];
        if w >= 0 then
          && bank == old(bank).(waiting := queue[1..],
                                windows := old(bank).windows[w := Window(false, queue[0])])
          && eventList.contents ==
             OrderInsert(old(eventList.contents), Event(customer.arrive + queue[0].duration, w))
        else
          bank == old(bank).(waiting := queue) && eventList.contents == old(eventList.contents)
    {
      hide OrderInsert;
      Queue(customer);
      var w := GetIdleServiceWindow();
      if w >= 0 {
        StartService(w, customer.arrive);
        SetStatus(w, false);
      }
    }

    /** The customer is counted and the next arrival is drawn; it is planned only if it is before closing. */
    method PlanNextArrival(gap: nat)
      requires AtHead() && Runnable(bank)
      modifies repr
      ensures Valid() && fresh(repr - old(repr)) && old(repr) <= repr
      ensures bank == old(bank).(count := old(bank).count + 1)
      ensures eventList.contents == WithNextArrival(old(bank), gap)
    {
      Count(1, 0);
      var time := currentEvent.data.time + gap;
      if time < totalServiceTime {
        Schedule(Event(time, ARRIVAL));
      }
    }

    method CustomerArrived(gap: nat, duration: nat)
      requires AtHead() && Runnable(bank) && bank.agenda[0].kind == ARRIVAL
      modifies repr
      ensures Valid() && fresh(repr - old(repr)) && old(repr) <= repr
      ensures bank == Arrive(old(bank), gap, duration) && eventList.contents == bank.agenda
    {
      hide OrderInsert;
      var now := currentEvent.data.time;
      PlanNextArrival(gap);
      Admit(Customer(now, duration));
      Settle();
    }

    /** The customer of window w has gone: the window takes the next one, or becomes idle. */
    method ServeNextOrIdle(w: nat, now: int)
      requires Valid() && w < windows.Length
      modifies repr
      ensures Valid() && fresh(repr - old(repr)) && old(repr) <= repr
      ensures var b := old(bank);
        if b.waiting == [] then
          && bank == b.(windows := b.windows[w := b.windows[w].(idle := true)])
          && eventList.contents == old(eventList.contents)
        else
          && bank == b.(windows := b.windows[w := b.windows[w].(customer := b.waiting[0])],
                        waiting := b.waiting[1..])
          && eventList.contents ==
             OrderInsert(old(eventList.contents), Event(now + b.waiting[0].duration, w))
    {
      var waiting := customerList.Length();
      if waiting != 0 {
        StartService(w, now);
      } else {
        SetStatus(w, true);
      }
    }

    method CustomerDeparture()
      requires AtHead() && Runnable(bank) && bank.agenda[0].kind != ARRIVAL
      modifies repr
      ensures Valid() && fresh(repr - old(repr)) && old(repr) <= repr
      ensures bank == Depart(old(bank)) && eventList.contents == bank.agenda
    {
      hide OrderInsert;
      var now, w := currentEvent.data.time, currentEvent.data.kind;
      if now < totalServiceTime {
        Count(0, now - windows[w].GetCustomerArriveTime());
        ServeNextOrIdle(w, now);
      }
      Settle();
    }

    /** The next event, if any, becomes the current one. */
    method NextEvent()
      requires Valid() && eventList.contents == bank.agenda
      modifies repr
      ensures AtHead() && repr == old(repr) && bank == old(bank)
    {
      currentEvent := eventList.Dequeue();
    }

    /** One iteration of the loop: the current event is handled and replaced by the next. */
    method HandleEvent(gap: nat, duration: nat)
      requires AtHead() && Runnable(bank)
      modifies repr
      ensures AtHead() && fresh(repr - old(repr))
      ensures bank == Handle(old(bank), gap, duration)
    {
      hide OrderInsert;
      if currentEvent.data.kind == ARRIVAL {
        CustomerArrived(gap, duration);
      } else {
        CustomerDeparture();
      }
      NextEvent();
    }

    method End()
      requires Valid()
      modifies repr
      ensures Valid() && repr == old(repr)
      ensures bank == Close(old(bank)) && eventList.contents == [] && currentEvent == old(currentEvent)
    {
      for i := 0 to windows.Length
        invariant Valid() && repr == old(repr) && currentEvent == old(currentEvent)
        invariant bank == old(bank).(windows := bank.windows)
        invariant forall k | 0 <= k < i :: bank.windows[k] == old(bank).windows[k].(idle := true)
        invariant forall k | i <= k < windows.Length :: bank.windows[k] == old(bank).windows[k]
      {
        SetStatus(i, true);
      }
      ghost var freed := customerList.ClearQueue();
      ghost var cleared := eventList.ClearQueue();
      bank := bank.(waiting := [], agenda := []);
      assert bank.windows == Close(old(bank)).windows;
    }

    /**
     * One simulated day, from an empty bank to an empty bank.  The draws must
     * bring some arrival (number last) up to closing, which is exactly when the
     * loop ends (BankTheorems.EndsIff).  The result is the truncated quotient
     * of the totals, and the totals grow by the direct sum of the recurrence.
     */
    method Run(d: Draws, ghost last: nat) returns (average: int)
      requires AtHead() && Ready(bank) && currentEvent == null && bank.count >= 0
      requires !Comes(d, totalServiceTime, last)
      modifies repr
      ensures AtHead() && fresh(repr - old(repr)) && Ready(bank) && currentEvent == null
      ensures bank.count > old(bank).count
      ensures bank.stay >= 0 ==> average * bank.count <= bank.stay < (average + 1) * bank.count
      ensures bank.stay < 0 ==> (average - 1) * bank.count < bank.stay <= average * bank.count
      ensures forall i: nat :: i < bank.count - old(bank).count <==> Comes(d, totalServiceTime, i)
      ensures windows.Length > 0 ==>
        bank.stay == old(bank).stay +
                     DirectStay(d, windows.Length, totalServiceTime, bank.count - old(bank).count)
    {
      ghost var before := bank;
      Init(d.first);
      ghost var k := HandleAll(d, before, last);
      TotalsOf(d, before, k);
      End();
      average := Quotient(totalCustomerStayTime, totalCustomerNum);
      QuotientIs(totalCustomerStayTime, totalCustomerNum);
    }

    /** Where a run that started from before stands after k events, n of them arrivals. */
    ghost predicate At(d: Draws, before: Bank, k: nat, n: nat)
      reads this, windows, customerList, eventList, repr
    {
      AtHead() && bank == After(d, Open(d, before), k).bank && n == After(d, Open(d, before), k).hist.arrived
    }

    method HandleNext(d: Draws, n: nat, ghost before: Bank, ghost k: nat, ghost last: nat) returns (n': nat)
      requires Ready(before) && !Comes(d, before.closing, last)
      requires At(d, before, k, n) && currentEvent != null
      modifies repr
      ensures At(d, before, k + 1, n') && fresh(repr - old(repr))
    {
      LoopStep(d, before, k, last);
      n' := if currentEvent.data.kind == ARRIVAL then n + 1 else n;
      HandleEvent(d.gap(n), d.duration(n));
    }

    /** The event loop: k iterations, until no event is left. */
    method HandleAll(d: Draws, ghost before: Bank, ghost last: nat) returns (ghost k: nat)
      requires Ready(before) && !Comes(d, before.closing, last)
      requires At(d, before, 0, 0)
      modifies repr
      ensures AtHead() && fresh(repr - old(repr)) && currentEvent == null
      ensures bank == After(d, Open(d, before), k).bank
    {
      k := 0;
      var n := 0;
      while currentEvent != null
        invariant At(d, before, k, n) && fresh(repr - old(repr))
        decreases Remaining(last, After(d, Open(d, before), k))
      {
        LoopStep(d, before, k, last);
        n := HandleNext(d, n, before, k, last);
        k := k + 1;
      }
    }
  }

  /** What RunIsRecurrence says of the totals, and of the count when there are no windows. */
  lemma {:induction false} TotalsOf(d: Draws, before: Bank, k: nat)
    requires Ready(before) && After(d, Open(d, before), k).bank.agenda == []
    ensures var r := After(d, Open(d, before), k);
      && r.hist.arrived > 0 && r.bank.count == before.count + r.hist.arrived
      && (forall i: nat :: i < r.hist.arrived <==> Comes(d, before.closing, i))
      && (|before.windows| > 0 ==>
            r.bank.stay == before.stay + DirectStay(d, |before.windows|, before.closing, r.hist.arrived))
  {
    if |before.windows| > 0 {
      RunIsRecurrence(d, before, k);
      assert Comes(d, before.closing, 0);
    } else {
      EveryLoopHead(d, before, k);
      ComersAre(d, before, After(d, Open(d, before), k));
    }
  }
}
