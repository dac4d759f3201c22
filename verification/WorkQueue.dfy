// The HTTP server's work queue: appenders push under a lock and then post a
// semaphore, workers wait on the semaphore and then pop under the lock.

module WorkQueue {
  import opened Counting

  /** Owes: has pushed and unlocked, and will post. */
  datatype Appender = Outside | Owes

  /**
   * Idle: at the head of its loop.  Waiting: past the test of m_stop, at the
   * semaphore.  Claimed: past the semaphore wait, before the lock.
   */
  datatype Worker = Idle | Waiting | Claimed | Serving(request: int) | Gone

  /** A request pointer; 0 is the null pointer.  appended and popped list what went in and came out. */
  datatype State = State(
    maxRequests: int,
    queue: seq<int>,
    semaphore: nat,
    appenders: seq<Appender>,
    workers: seq<Worker>,
    stop: bool,
    appended: seq<int>,
    popped: seq<int>)

  datatype Step =
    | Push(appender: nat, request: int)   // append up to unlock
    | Post(appender: nat)
    | Enter(worker: nat)                  // the test of m_stop, when it is not set
    | Quit(worker: nat)                   // the test of m_stop, when it is set
    | Wait(worker: nat)                   // the wait succeeds, stopped or not
    | Pop(worker: nat)                    // lock, take the front if any, unlock
    | Served(worker: nat)
    | SetStop

  function Init(maxRequests: int, appenders: nat, workers: nat): State {
    State(maxRequests, [], 0, seq(appenders, _ => Outside), seq(workers, _ => Idle), false, [], [])
  }

  predicate Enabled(s: State, step: Step) {
    match step
    case Push(a, _) => a < |s.appenders| && s.appenders[a] == Outside
    case Post(a) => a < |s.appenders| && s.appenders[a] == Owes
    case Enter(w) => w < |s.workers| && s.workers[w] == Idle && !s.stop
    case Quit(w) => w < |s.workers| && s.workers[w] == Idle && s.stop
    case Wait(w) => w < |s.workers| && s.workers[w] == Waiting && s.semaphore > 0
    case Pop(w) => w < |s.workers| && s.workers[w] == Claimed
    case Served(w) => w < |s.workers| && s.workers[w].Serving?
    case SetStop => true
  }

  function SetWorker(s: State, w: nat, worker: Worker): State
    requires w < |s.workers|
  {
    s.(workers := s.workers[w := worker])
  }

  function Do(s: State, step: Step): State
    requires Enabled(s, step)
  {
    match step
    case Push(a, request) =>
      if |s.queue| > s.maxRequests then s else
      s.(queue := s.queue + [request], appended := s.appended + [request],
         appenders := s.appenders[a := Owes])
    case Post(a) => s.(semaphore := s.semaphore + 1, appenders := s.appenders[a := Outside])
    case Enter(w) => SetWorker(s, w, Waiting)
    case Quit(w) => SetWorker(s, w, Gone)
    case Wait(w) => SetWorker(s, w, Claimed).(semaphore := s.semaphore - 1)
    case Pop(w) =>
      if s.queue == [] then SetWorker(s, w, Idle) else
      SetWorker(s, w, if s.queue[0] == 0 then Idle else Serving(s.queue[0]))
        .(queue := s.queue[1..], popped := s.popped + [s.queue[0]])
    case Served(w) => SetWorker(s, w, Idle)
    case SetStop => s.(stop := true)
  }

  // ---------- the invariant ----------

  ghost predicate Invariant(s: State) {
    && |s.queue| == s.semaphore + Count(s.appenders, Owes) + Count(s.workers, Claimed)
    && s.appended == s.popped + s.queue
    && (s.maxRequests >= 0 ==> |s.queue| <= s.maxRequests + 1)
  }

  lemma {:induction false} InitInvariant(maxRequests: int, appenders: nat, workers: nat)
    ensures Invariant(Init(maxRequests, appenders, workers))
  {
    var s := Init(maxRequests, appenders, workers);
    CountNone(s.appenders, Owes);
    CountNone(s.workers, Claimed);
  }

  /** A worker that is past the semaphore never finds the queue empty. */
  lemma {:induction false} ClaimIsGood(s: State, w: nat)
    requires Invariant(s) && w < |s.workers| && s.workers[w] == Claimed
    ensures s.queue != []
  {
    CountPositive(s.workers, w);
  }

  lemma {:induction false} StepKeepsInvariant(s: State, step: Step)
    requires Invariant(s) && Enabled(s, step)
    ensures Invariant(Do(s, step))
  {
    var t := Do(s, step);
    match step
    case Push(a, request) => CountUpdate(s.appenders, a, Owes, Owes);
    case Post(a) => CountUpdate(s.appenders, a, Outside, Owes);
    case Enter(w) => CountUpdate(s.workers, w, Waiting, Claimed);
    case Quit(w) => CountUpdate(s.workers, w, Gone, Claimed);
    case Wait(w) => CountUpdate(s.workers, w, Claimed, Claimed);
    case Pop(w) =>
      ClaimIsGood(s, w);
      CountUpdate(s.workers, w, t.workers[w], Claimed);
      assert s.popped + s.queue == (s.popped + [s.queue[0]]) + s.queue[1..];
    case Served(w) => CountUpdate(s.workers, w, Idle, Claimed);
    case SetStop =>
  }

  ghost predicate IsRun(s: State, steps: seq<Step>)
    decreases |steps|
  {
    steps == [] || (Enabled(s, steps[0]) && IsRun(Do(s, steps[0]), steps[1..]))
  }

  function DoAll(s: State, steps: seq<Step>): State
    requires IsRun(s, steps)
    decreases |steps|
  {
    if steps == [] then s else DoAll(Do(s, steps[0]), steps[1..])
  }

  lemma {:induction false} RunKeepsInvariant(s: State, steps: seq<Step>)
    requires Invariant(s) && IsRun(s, steps)
    ensures Invariant(DoAll(s, steps)) && DoAll(s, steps).maxRequests == s.maxRequests
    decreases |steps|
  {
    if steps != [] {
      StepKeepsInvariant(s, steps[0]);
      RunKeepsInvariant(Do(s, steps[0]), steps[1..]);
    }
  }

  // ---------- what a run's own steps say ----------

  /** A request is refused exactly if max_requests + 1 are queued; otherwise it goes to the end. */
  lemma {:induction false} PushRefusedIff(s: State, a: nat, request: int)
    requires Invariant(s) && s.maxRequests >= 0 && a < |s.appenders| && s.appenders[a] == Outside
    ensures Enabled(s, Push(a, request))
    ensures if |s.queue| == s.maxRequests + 1 then Do(s, Push(a, request)) == s else
              Do(s, Push(a, request)) == s.(queue := s.queue + [request], appended := s.appended + [request],
                                            appenders := s.appenders[a := Owes])
  {
  }

  /** The requests that were taken, told by the steps and the number queued before each. */
  function Taken(s: State, steps: seq<Step>): seq<int>
    requires IsRun(s, steps)
    decreases |steps|
  {
    if steps == [] then [] else
      (if steps[0].Push? && |s.queue| <= s.maxRequests then [steps[0].request] else []) +
      Taken(Do(s, steps[0]), steps[1..])
  }

  function InHand(w: Worker): seq<int> { if w.Serving? then [w.request] else [] }

  /** The request that a step gives a worker, read off the worker behind it. */
  function GivenBy(s: State, step: Step): seq<int>
    requires Enabled(s, step)
  {
    if step.Pop? then InHand(Do(s, step).workers[step.worker]) else []
  }

  /** The request whose service a step ends, read off the worker before it. */
  function EndedBy(s: State, step: Step): seq<int>
    requires Enabled(s, step)
  {
    if step.Served? then InHand(s.workers[step.worker]) else []
  }

  /** The requests that workers are given, in order. */
  function Handed(s: State, steps: seq<Step>): seq<int>
    requires IsRun(s, steps)
    decreases |steps|
  {
    if steps == [] then [] else GivenBy(s, steps[0]) + Handed(Do(s, steps[0]), steps[1..])
  }

  /** The requests whose service ends, in order. */
  function Ended(s: State, steps: seq<Step>): seq<int>
    requires IsRun(s, steps)
    decreases |steps|
  {
    if steps == [] then [] else EndedBy(s, steps[0]) + Ended(Do(s, steps[0]), steps[1..])
  }

  function NonNull(xs: seq<int>): seq<int> {
    if xs == [] then [] else (if xs[0] == 0 then [] else [xs[0]]) + NonNull(xs[1..])
  }

  lemma {:induction false} NonNullAppend(xs: seq<int>, ys: seq<int>)
    ensures NonNull(xs + ys) == NonNull(xs) + NonNull(ys)
  {
    if xs == [] {
      assert xs + ys == ys;
    } else {
      assert (xs + ys)[1..] == xs[1..] + ys;
      NonNullAppend(xs[1..], ys);
    }
  }

  /** Append adds what it takes. */
  lemma {:induction false} RunAppends(s: State, steps: seq<Step>)
    requires IsRun(s, steps)
    ensures DoAll(s, steps).appended == s.appended + Taken(s, steps)
    decreases |steps|
  {
    if steps != [] {
      RunAppends(Do(s, steps[0]), steps[1..]);
    }
  }

  /** The request that a step takes out of the queue. */
  function LeavingBy(s: State, step: Step): seq<int> {
    if step.Pop? && s.queue != [] then [s.queue[0]] else []
  }

  function Leaving(s: State, steps: seq<Step>): seq<int>
    requires IsRun(s, steps)
    decreases |steps|
  {
    if steps == [] then [] else LeavingBy(s, steps[0]) + Leaving(Do(s, steps[0]), steps[1..])
  }

  lemma {:induction false} StepHands(s: State, step: Step)
    requires Invariant(s) && Enabled(s, step)
    ensures GivenBy(s, step) == NonNull(LeavingBy(s, step))
    ensures Do(s, step).popped == s.popped + LeavingBy(s, step)
  {
    if step.Pop? {
      ClaimIsGood(s, step.worker);
      assert NonNull([s.queue[0]][1..]) == [];
    }
  }

  /** Workers are given the requests that leave the queue, in that order, but for the null ones. */
  lemma {:induction false} RunHands(s: State, steps: seq<Step>)
    requires Invariant(s) && IsRun(s, steps)
    ensures DoAll(s, steps).popped == s.popped + Leaving(s, steps) && Handed(s, steps) == NonNull(Leaving(s, steps))
    decreases |steps|
  {
    hide Do, Enabled, Invariant, LeavingBy, GivenBy;
    if steps != [] {
      StepKeepsInvariant(s, steps[0]);
      StepHands(s, steps[0]);
      RunHands(Do(s, steps[0]), steps[1..]);
      NonNullAppend(LeavingBy(s, steps[0]), Leaving(Do(s, steps[0]), steps[1..]));
    }
  }

  lemma {:induction false} StepServes(s: State, step: Step, r: int)
    requires Enabled(s, step)
    ensures Count(s.workers, Serving(r)) + multiset(GivenBy(s, step))[r] ==
            Count(Do(s, step).workers, Serving(r)) + multiset(EndedBy(s, step))[r]
  {
    var t := Do(s, step);
    if !step.Push? && !step.Post? && !step.SetStop? {
      CountUpdate(s.workers, step.worker, t.workers[step.worker], Serving(r));
    }
  }

  /** What a worker was given it has in hand until its service ends. */
  lemma {:induction false} RunServes(s: State, steps: seq<Step>, r: int)
    requires IsRun(s, steps)
    ensures Count(s.workers, Serving(r)) + multiset(Handed(s, steps))[r] ==
            Count(DoAll(s, steps).workers, Serving(r)) + multiset(Ended(s, steps))[r]
    decreases |steps|
  {
    hide Do, Enabled, GivenBy, EndedBy;
    if steps != [] {
      StepServes(s, steps[0], r);
      RunServes(Do(s, steps[0]), steps[1..], r);
    }
  }

  /**
   * Requests over a whole run: those appended are those that append took; the
   * workers are given, in this order, the ones that are no longer queued, but
   * for null ones; and each of those has been served or is in hand, as often
   * as it was given.
   */
  lemma {:induction false} EveryRequestServedOnce(maxRequests: int, appenders: nat, workers: nat, steps: seq<Step>)
    requires maxRequests > 0 && workers > 0 && IsRun(Init(maxRequests, appenders, workers), steps)
    ensures var s0 := Init(maxRequests, appenders, workers); var s := DoAll(s0, steps);
      && s.appended == Taken(s0, steps)
      && |s.queue| <= |s.appended| && s.queue == s.appended[|s.appended| - |s.queue|..]
      && Handed(s0, steps) == NonNull(s.appended[..|s.appended| - |s.queue|])
      && (forall r: int :: multiset(Handed(s0, steps))[r] ==
                           multiset(Ended(s0, steps))[r] + Count(s.workers, Serving(r)))
  {
    var s0 := Init(maxRequests, appenders, workers);
    var s := DoAll(s0, steps);
    InitInvariant(maxRequests, appenders, workers);
    RunKeepsInvariant(s0, steps);
    RunAppends(s0, steps);
    assert s0.appended + Taken(s0, steps) == Taken(s0, steps);
    RunHands(s0, steps);
    assert s0.popped + Leaving(s0, steps) == Leaving(s0, steps);
    assert s.appended[..|s.popped|] == s.popped;
    forall r: int ensures
      multiset(Handed(s0, steps))[r] == multiset(Ended(s0, steps))[r] + Count(s.workers, Serving(r))
    {
      RunServes(s0, steps, r);
      CountNone(s0.workers, Serving(r));
    }
  }

  // ---------- the queue is worked off ----------

  function WorkerWeight(w: Worker): nat {
    match w
    case Idle => 1
    case Waiting => 0
    case Claimed => 3
    case Serving(_) => 2
    case Gone => 0
  }

  function Weight(ws: seq<Worker>): nat {
    if ws == [] then 0 else Weight(ws[..|ws| - 1]) + WorkerWeight(ws[|ws| - 1])
  }

  lemma {:induction false} WeightUpdate(ws: seq<Worker>, w: nat, x: Worker)
    requires w < |ws|
    ensures Weight(ws[w := x]) == Weight(ws) - WorkerWeight(ws[w]) + WorkerWeight(x)
  {
    var n := |ws| - 1;
    if w == n {
      assert ws[w := x][..n] == ws[..n];
    } else {
      assert ws[w := x][..n] == ws[..n][w := x];
      WeightUpdate(ws[..n], w, x);
    }
  }

  /** Falls with every step but a request from outside and the setting of the flag. */
  function Work(s: State): nat {
    5 * Count(s.appenders, Owes) + 4 * s.semaphore + Weight(s.workers)
  }

  predicate OwnStep(step: Step) { !(step.Push? || step.SetStop?) }

  lemma {:induction false} WorkFalls(s: State, step: Step)
    requires Enabled(s, step) && OwnStep(step)
    ensures Work(Do(s, step)) < Work(s)
  {
    var t := Do(s, step);
    match step
    case Post(a) => CountUpdate(s.appenders, a, Outside, Owes);
    case Enter(w) => WeightUpdate(s.workers, w, t.workers[w]);
    case Quit(w) => WeightUpdate(s.workers, w, t.workers[w]);
    case Wait(w) => WeightUpdate(s.workers, w, t.workers[w]);
    case Pop(w) => WeightUpdate(s.workers, w, t.workers[w]);
    case Served(w) => WeightUpdate(s.workers, w, t.workers[w]);
  }

  lemma {:induction false} OwnRunsEnd(s: State, steps: seq<Step>)
    requires IsRun(s, steps) && forall step | step in steps :: OwnStep(step)
    ensures |steps| <= Work(s)
    decreases |steps|
  {
    if steps != [] {
      WorkFalls(s, steps[0]);
      OwnRunsEnd(Do(s, steps[0]), steps[1..]);
    }
  }

  /** Only a request from outside, or the flag, can change anything. */
  ghost predicate AtRest(s: State) {
    forall step :: Enabled(s, step) ==> !OwnStep(step)
  }

  /** The flag is set exactly if some step set it; the workers stay as many. */
  lemma {:induction false} StepsTell(s: State, steps: seq<Step>)
    requires IsRun(s, steps)
    ensures DoAll(s, steps).stop <==> s.stop || SetStop in steps
    ensures |DoAll(s, steps).workers| == |s.workers| && |DoAll(s, steps).appenders| == |s.appenders|
    ensures !DoAll(s, steps).stop && Gone !in s.workers ==> Gone !in DoAll(s, steps).workers
    decreases |steps|
  {
    if steps != [] {
      assert steps == [steps[0]] + steps[1..];
      var t := Do(s, steps[0]);
      if Gone !in s.workers && !t.stop { NoneGone(s, steps[0]); }
      StepsTell(t, steps[1..]);
    }
  }

  lemma {:induction false} NoneGone(s: State, step: Step)
    requires Enabled(s, step) && Gone !in s.workers && !s.stop
    ensures Gone !in Do(s, step).workers
  {
    var t := Do(s, step);
    forall w | w in t.workers ensures w != Gone {
      var i :| 0 <= i < |t.workers| && t.workers[i] == w;
      assert s.workers[i] in s.workers;
    }
  }

  lemma {:induction false} NobodyOwes(s: State)
    requires AtRest(s)
    ensures Count(s.appenders, Owes) == 0
  {
    forall a | a in s.appenders ensures a != Owes {
      var i :| 0 <= i < |s.appenders| && s.appenders[i] == a;
      assert !Enabled(s, Post(i));
    }
    CountNone(s.appenders, Owes);
  }

  lemma {:induction false} RestIs(s: State)
    requires Invariant(s) && s.workers != [] && !s.stop && Gone !in s.workers && AtRest(s)
    ensures (forall w | w in s.workers :: w == Waiting) && s.queue == []
  {
    forall w | w in s.workers ensures w == Waiting {
      var i :| 0 <= i < |s.workers| && s.workers[i] == w;
      assert !Enabled(s, Enter(i)) && !Enabled(s, Pop(i)) && !Enabled(s, Served(i));
    }
    NobodyOwes(s);
    CountNone(s.workers, Claimed);
    assert s.workers[0] in s.workers && !Enabled(s, Wait(0));
  }

  /**
   * A queue that is left alone comes to rest, and, unless the flag was set,
   * with all workers at the semaphore, nothing queued, and every request that
   * append took, but for null ones, served exactly once.
   */
  lemma {:induction false} RestHasServedAll(maxRequests: int, appenders: nat, workers: nat, steps: seq<Step>)
    requires maxRequests > 0 && workers > 0 && IsRun(Init(maxRequests, appenders, workers), steps)
    requires SetStop !in steps && AtRest(DoAll(Init(maxRequests, appenders, workers), steps))
    ensures var s0 := Init(maxRequests, appenders, workers); var s := DoAll(s0, steps);
      && (forall w | w in s.workers :: w == Waiting) && s.queue == []
      && multiset(Ended(s0, steps)) == multiset(NonNull(Taken(s0, steps)))
  {
    var s0 := Init(maxRequests, appenders, workers);
    var s := DoAll(s0, steps);
    hide Do, Enabled, Handed, Ended, Taken, NonNull, IsRun, DoAll, AtRest;
    InitInvariant(maxRequests, appenders, workers);
    RunKeepsInvariant(s0, steps);
    EveryRequestServedOnce(maxRequests, appenders, workers, steps);
    StepsTell(s0, steps);
    RestIs(s);
    assert s.appended[..|s.appended|] == s.appended;
    forall r: int ensures multiset(Ended(s0, steps))[r] == multiset(Handed(s0, steps))[r] {
      CountNone(s.workers, Serving(r));
    }
  }

  /**
   * Once the flag is set, what is left at rest are workers that have gone and
   * workers at the semaphore, for which nothing is posted: they stay there.
   */
  lemma {:induction false} RestWhenStopped(maxRequests: int, appenders: nat, workers: nat, steps: seq<Step>)
    requires maxRequests > 0 && workers > 0 && IsRun(Init(maxRequests, appenders, workers), steps)
    requires SetStop in steps && AtRest(DoAll(Init(maxRequests, appenders, workers), steps))
    ensures var s := DoAll(Init(maxRequests, appenders, workers), steps);
      && (forall w | w in s.workers :: w == Gone || w == Waiting)
      && (Waiting in s.workers ==> s.queue == [])
  {
    var s0 := Init(maxRequests, appenders, workers);
    var s := DoAll(s0, steps);
    InitInvariant(maxRequests, appenders, workers);
    RunKeepsInvariant(s0, steps);
    StepsTell(s0, steps);
    forall w | w in s.workers ensures w == Gone || w == Waiting {
      var i :| 0 <= i < |s.workers| && s.workers[i] == w;
      assert !Enabled(s, Quit(i)) && !Enabled(s, Pop(i)) && !Enabled(s, Served(i));
    }
    if Waiting in s.workers {
      var i :| 0 <= i < |s.workers| && s.workers[i] == Waiting;
      assert !Enabled(s, Wait(i));
      NobodyOwes(s);
      CountNone(s.workers, Claimed);
    }
  }

  /**
   * In every interleaving: the semaphore, the posts owed and the claims not
   * yet redeemed add up to the queue; a claim always finds a request; requests
   * come out in the order they went in, each once; and the queue is never
   * longer than max_requests + 1.
   */
  lemma {:induction false} EveryInterleaving(maxRequests: int, appenders: nat, workers: nat, steps: seq<Step>)
    requires maxRequests > 0 && workers > 0 && IsRun(Init(maxRequests, appenders, workers), steps)
    ensures var s := DoAll(Init(maxRequests, appenders, workers), steps);
      && |s.queue| == s.semaphore + Count(s.appenders, Owes) + Count(s.workers, Claimed)
      && (Claimed in s.workers ==> s.queue != [])
      && s.appended == s.popped + s.queue
      && |s.queue| <= maxRequests + 1
  {
    InitInvariant(maxRequests, appenders, workers);
    RunKeepsInvariant(Init(maxRequests, appenders, workers), steps);
    var s := DoAll(Init(maxRequests, appenders, workers), steps);
    if Claimed in s.workers {
      var w :| 0 <= w < |s.workers| && s.workers[w] == Claimed;
      ClaimIsGood(s, w);
    }
  }
}
