// The C++ thread pool: a queue under a mutex, a condition variable, and a
// destructor that lets the workers drain the queue.
//
// A step is one critical section, one notification, one wake-up, or the end
// of a task.  Waiting is atomic with testing the predicate, as the mutex makes
// it; a notification happens some time after the critical section it follows.

module ThreadPool {
  import opened Counting

  /** Ready: about to take the mutex and test the predicate. */
  datatype Worker = Ready | Asleep | Running(task: nat) | Exited

  /**
   * Tasks are numbered in the order in which enqueue accepts them.  started and
   * finished list them as they are popped and as they end.
   */
  datatype State = State(
    workers: seq<Worker>,
    tasks: seq<nat>,
    stop: bool,
    notifyOne: nat,
    notifyAll: bool,
    accepted: nat,
    started: seq<nat>,
    finished: seq<nat>)

  datatype Step =
    | Acquire(worker: nat)      // take the mutex, test, then sleep, exit or pop
    | Spurious(worker: nat)     // a wake-up without a notification
    | Finish(worker: nat)       // the task returns
    | Enqueue                   // the critical section of enqueue, not stopped
    | NotifyOne(worker: nat)    // notify_one wakes this worker, if any sleeps
    | Stop                      // the critical section of the destructor
    | NotifyAll

  function Init(n: nat): State {
    State(seq(n, _ => Ready), [], false, 0, false, 0, [], [])
  }

  predicate Sleeps(s: State) { exists i :: 0 <= i < |s.workers| && s.workers[i] == Asleep }

  predicate Enabled(s: State, step: Step) {
    match step
    case Acquire(w) => w < |s.workers| && s.workers[w] == Ready
    case Spurious(w) => w < |s.workers| && s.workers[w] == Asleep
    case Finish(w) => w < |s.workers| && s.workers[w].Running?
    case Enqueue => !s.stop
    case NotifyOne(w) => s.notifyOne > 0 && (Sleeps(s) ==> w < |s.workers| && s.workers[w] == Asleep)
    case Stop => !s.stop
    case NotifyAll => s.notifyAll
  }

  function Set(s: State, w: nat, worker: Worker): State
    requires w < |s.workers|
  {
    s.(workers := s.workers[w := worker])
  }

  function Wake(worker: Worker): Worker { if worker == Asleep then Ready else worker }

  function Do(s: State, step: Step): State
    requires Enabled(s, step)
  {
    match step
    case Acquire(w) =>
      if s.stop && s.tasks == [] then Set(s, w, Exited)
      else if s.tasks != [] then
        Set(s, w, Running(s.tasks[0])).(tasks := s.tasks[1..], started := s.started + [s.tasks[0]])
      else Set(s, w, Asleep)
    case Spurious(w) => Set(s, w, Ready)
    case Finish(w) => Set(s, w, Ready).(finished := s.finished + [s.workers[w].task])
    case Enqueue =>
      s.(tasks := s.tasks + [s.accepted], accepted := s.accepted + 1, notifyOne := s.notifyOne + 1)
    case NotifyOne(w) => (if Sleeps(s) then Set(s, w, Ready) else s).(notifyOne := s.notifyOne - 1)
    case Stop => s.(stop := true, notifyAll := true)
    case NotifyAll =>
      s.(workers := seq(|s.workers|, i requires 0 <= i < |s.workers| => Wake(s.workers[i])), notifyAll := false)
  }

  // ---------- the invariant ----------

  function UpTo(n: nat): (r: seq<nat>)
    ensures |r| == n && forall i | 0 <= i < n :: r[i] == i
  {
    seq(n, i => i)
  }

  predicate Awake(w: Worker) { w == Ready || w.Running? }

  /** The task was popped as often as it has ended or is being run. */
  ghost predicate Balanced(s: State, t: nat) {
    multiset(s.started)[t] == multiset(s.finished)[t] + Count(s.workers, Running(t))
  }

  ghost predicate Invariant(s: State) {
    // popped in the order accepted, and every popped task is in hand or finished
    && s.started + s.tasks == UpTo(s.accepted)
    && (forall t: nat :: Balanced(s, t))
    // workers leave only a stopped pool with nothing queued
    && (Exited in s.workers ==> s.stop && s.tasks == [])
    // no wake-up is lost
    && s.workers != []
    && (s.tasks != [] ==> s.notifyOne > 0 || exists i :: 0 <= i < |s.workers| && Awake(s.workers[i]))
    && (s.stop && Asleep in s.workers ==> s.notifyAll)
    && (s.notifyAll ==> s.stop)
  }

  lemma {:induction false} InitInvariant(n: nat)
    requires n > 0
    ensures Invariant(Init(n))
  {
    var s := Init(n);
    assert s.started + s.tasks == UpTo(0);
    forall t: nat ensures Balanced(s, t) {
      CountNone(s.workers, Running(t));
    }
  }

  lemma {:induction false} SetBalances(s: State, w: nat, x: Worker, t: nat)
    requires Balanced(s, t) && w < |s.workers| && !x.Running? && !s.workers[w].Running?
    ensures Balanced(Set(s, w, x), t)
  {
    CountUpdate(s.workers, w, x, Running(t));
  }

  lemma {:induction false} MembersAfter(ws: seq<Worker>, w: nat, x: Worker)
    requires w < |ws|
    ensures forall y | y in ws[w := x] :: y == x || y in ws
  {
  }

  lemma {:induction false} SleepKeeps(s: State, w: nat)
    requires Invariant(s) && Enabled(s, Acquire(w)) && s.tasks == []
    ensures Invariant(Do(s, Acquire(w)))
  {
    var t := Do(s, Acquire(w));
    forall i: nat ensures Balanced(t, i) {
      SetBalances(s, w, t.workers[w], i);
    }
    MembersAfter(s.workers, w, t.workers[w]);
  }

  lemma {:induction false} PopKeeps(s: State, w: nat)
    requires Invariant(s) && Enabled(s, Acquire(w)) && s.tasks != []
    ensures Invariant(Do(s, Acquire(w)))
  {
    var t, task := Do(s, Acquire(w)), s.tasks[0];
    forall i: nat ensures Balanced(t, i) {
      assert Balanced(s, i);
      CountUpdate(s.workers, w, Running(task), Running(i));
      assert multiset(t.started)[i] == multiset(s.started)[i] + multiset([task])[i];
    }
    MembersAfter(s.workers, w, t.workers[w]);
    assert s.started + s.tasks == t.started + t.tasks;
    assert Awake(t.workers[w]);
  }

  lemma {:induction false} FinishKeeps(s: State, w: nat)
    requires Invariant(s) && Enabled(s, Finish(w))
    ensures Invariant(Do(s, Finish(w)))
  {
    var t, task := Do(s, Finish(w)), s.workers[w].task;
    forall i: nat ensures Balanced(t, i) {
      assert Balanced(s, i);
      CountUpdate(s.workers, w, Ready, Running(i));
      assert multiset(t.finished)[i] == multiset(s.finished)[i] + multiset([task])[i];
    }
    MembersAfter(s.workers, w, Ready);
    assert Awake(t.workers[w]);
  }

  lemma {:induction false} WakeOneKeeps(s: State, w: nat)
    requires Invariant(s) && w < |s.workers| && s.workers[w] == Asleep
    ensures Invariant(Set(s, w, Ready))
    ensures s.notifyOne > 0 ==> Invariant(Set(s, w, Ready).(notifyOne := s.notifyOne - 1))
  {
    var t := Set(s, w, Ready);
    forall i: nat ensures Balanced(t, i) {
      SetBalances(s, w, Ready, i);
    }
    if s.notifyOne > 0 {
      var u := t.(notifyOne := s.notifyOne - 1);
      forall i: nat ensures Balanced(u, i) {
        assert Balanced(t, i);
      }
    }
    MembersAfter(s.workers, w, Ready);
    assert Awake(t.workers[w]);
  }

  lemma {:induction false} WakeCounts(ws: seq<Worker>, ws': seq<Worker>, t: nat)
    requires |ws| == |ws'| && forall i | 0 <= i < |ws| :: ws'[i] == Wake(ws[i])
    ensures Count(ws', Running(t)) == Count(ws, Running(t))
  {
    if ws != [] {
      WakeCounts(ws[..|ws| - 1], ws'[..|ws| - 1], t);
    }
  }

  lemma {:induction false} WakeAllKeeps(s: State)
    requires Invariant(s) && s.notifyAll
    ensures Invariant(Do(s, NotifyAll))
  {
    var t := Do(s, NotifyAll);
    forall i: nat ensures Balanced(t, i) {
      assert Balanced(s, i);
      WakeCounts(s.workers, t.workers, i);
    }
    forall y | y in t.workers ensures y != Asleep && (y == Exited ==> Exited in s.workers) {
      var i :| 0 <= i < |t.workers| && t.workers[i] == y;
      assert s.workers[i] in s.workers;
    }
    assert s.workers[0] in s.workers;
    assert s.tasks != [] ==> Awake(t.workers[0]);
  }

  lemma {:induction false} EnqueueKeeps(s: State)
    requires Invariant(s) && !s.stop
    ensures Invariant(Do(s, Enqueue))
  {
    var t := Do(s, Enqueue);
    assert UpTo(s.accepted + 1) == UpTo(s.accepted) + [s.accepted];
    assert t.started + t.tasks == (s.started + s.tasks) + [s.accepted];
    forall i: nat ensures Balanced(t, i) {
      assert Balanced(s, i);
    }
  }

  lemma {:induction false} NotifyNobodyKeeps(s: State)
    requires Invariant(s) && s.notifyOne > 0 && !Sleeps(s)
    ensures Invariant(s.(notifyOne := s.notifyOne - 1))
  {
    var t := s.(notifyOne := s.notifyOne - 1);
    forall i: nat ensures Balanced(t, i) {
      assert Balanced(s, i);
    }
    assert s.workers[0] in s.workers;
    assert s.tasks != [] ==> Awake(t.workers[0]);
  }

  lemma {:induction false} StopKeeps(s: State)
    requires Invariant(s) && !s.stop
    ensures Invariant(Do(s, Stop))
  {
    var t := Do(s, Stop);
    forall i: nat ensures Balanced(t, i) {
      assert Balanced(s, i);
    }
  }

  /** Every step keeps the invariant. */
  lemma {:induction false} StepKeepsInvariant(s: State, step: Step)
    requires Invariant(s) && Enabled(s, step)
    ensures Invariant(Do(s, step))
  {
    hide Invariant;
    match step
    case Acquire(w) => if s.tasks == [] { SleepKeeps(s, w); } else { PopKeeps(s, w); }
    case Spurious(w) => WakeOneKeeps(s, w);
    case Finish(w) => FinishKeeps(s, w);
    case Enqueue => EnqueueKeeps(s);
    case NotifyOne(w) => if Sleeps(s) { WakeOneKeeps(s, w); } else { NotifyNobodyKeeps(s); }
    case Stop => StopKeeps(s);
    case NotifyAll => WakeAllKeeps(s);
  }

  // ---------- whole runs ----------

  ghost predicate IsRun(s: State, steps: seq<Step>)
    decreases |steps|
  {
    steps == [] || (Enabled(s, steps[0]) && IsRun(Do(s, steps[0]), steps[1..]))
  }

  function DoAll(s: State, steps: seq<Step>): State
    requires IsRun(s, steps)
    decreases |steps|
  {
    if steps == [] then s else DoAll(Do(s, steps[0]), steps[1..])
  }

  lemma {:induction false} RunKeepsInvariant(s: State, steps: seq<Step>)
    requires Invariant(s) && IsRun(s, steps)
    ensures Invariant(DoAll(s, steps))
    decreases |steps|
  {
    if steps != [] {
      StepKeepsInvariant(s, steps[0]);
      RunKeepsInvariant(Do(s, steps[0]), steps[1..]);
    }
  }

  /**
   * In no reachable state does a task wait while all workers sleep and no
   * notification is on its way.
   */
  lemma {:induction false} NoLostWakeUp(n: nat, steps: seq<Step>)
    requires n > 0 && IsRun(Init(n), steps)
    ensures var s := DoAll(Init(n), steps);
      !(s.tasks != [] && (forall w | w in s.workers :: w == Asleep) && s.notifyOne == 0 && !s.notifyAll)
  {
    InitInvariant(n);
    RunKeepsInvariant(Init(n), steps);
    var s := DoAll(Init(n), steps);
    if s.tasks != [] && s.notifyOne == 0 {
      var i :| 0 <= i < |s.workers| && Awake(s.workers[i]);
      assert s.workers[i] in s.workers;
    }
  }

  // ---------- what a run's own steps say ----------

  /** How often enqueue was called, told by the steps alone. */
  function Enqueues(steps: seq<Step>): nat {
    if steps == [] then 0 else (if steps[0] == Enqueue then 1 else 0) + Enqueues(steps[1..])
  }

  /** Each call of enqueue is accepted, and the destructor sets stop. */
  lemma {:induction false} StepsTell(s: State, steps: seq<Step>)
    requires IsRun(s, steps)
    ensures DoAll(s, steps).accepted == s.accepted + Enqueues(steps)
    ensures DoAll(s, steps).stop <==> s.stop || Stop in steps
    ensures |DoAll(s, steps).workers| == |s.workers|
    decreases |steps|
  {
    if steps != [] {
      assert steps == [steps[0]] + steps[1..];
      StepsTell(Do(s, steps[0]), steps[1..]);
    }
  }

  /**
   * The tasks of a run are those given to enqueue in it, numbered as they came:
   * in this order they were started or still wait, and each started one is in
   * hand or has ended, as often as it was started, which is once.
   */
  lemma {:induction false} TasksAreThoseEnqueued(n: nat, steps: seq<Step>)
    requires n > 0 && IsRun(Init(n), steps)
    ensures var s := DoAll(Init(n), steps);
      && s.started + s.tasks == UpTo(Enqueues(steps))
      && (forall t: nat :: multiset(s.started)[t] == multiset(s.finished)[t] + Count(s.workers, Running(t)))
      && (s.stop <==> Stop in steps)
  {
    InitInvariant(n);
    RunKeepsInvariant(Init(n), steps);
    StepsTell(Init(n), steps);
    var s := DoAll(Init(n), steps);
    forall t: nat ensures multiset(s.started)[t] == multiset(s.finished)[t] + Count(s.workers, Running(t)) {
      assert Balanced(s, t);
    }
  }

  // ---------- measures ----------

  function WeightOf(w: Worker, asleep: nat): nat {
    match w
    case Ready => 1
    case Asleep => asleep
    case Running(_) => 2
    case Exited => 0
  }

  function Weight(ws: seq<Worker>, asleep: nat): nat {
    if ws == [] then 0 else Weight(ws[..|ws| - 1], asleep) + WeightOf(ws[|ws| - 1], asleep)
  }

  lemma {:induction false} WeightUpdate(ws: seq<Worker>, w: nat, x: Worker, asleep: nat)
    requires w < |ws|
    ensures Weight(ws[w := x], asleep) == Weight(ws, asleep) - WeightOf(ws[w], asleep) + WeightOf(x, asleep)
  {
    var n := |ws| - 1;
    if w == n {
      assert ws[w := x][..n] == ws[..n];
    } else {
      assert ws[w := x][..n] == ws[..n][w := x];
      WeightUpdate(ws[..n], w, x, asleep);
    }
  }

  lemma {:induction false} WeightWake(ws: seq<Worker>, ws': seq<Worker>)
    requires |ws| == |ws'| && forall i | 0 <= i < |ws| :: ws'[i] == Wake(ws[i])
    ensures Weight(ws', 2) <= Weight(ws, 2) && Weight(ws', 0) <= Weight(ws, 0) + |ws|
  {
    if ws != [] {
      WeightWake(ws[..|ws| - 1], ws'[..|ws| - 1]);
    }
  }

  // ---------- a running pool comes to rest ----------

  /** Falls with every step but enqueue, the destructor and a spurious wake-up. */
  function Work(s: State): nat {
    Weight(s.workers, 0) + 2 * |s.tasks| + 2 * s.notifyOne + (if s.notifyAll then |s.workers| + 1 else 0)
  }

  /** A step that the pool takes by itself. */
  predicate OwnStep(step: Step) { !(step.Enqueue? || step.Stop? || step.Spurious?) }

  lemma {:induction false} WorkFalls(s: State, step: Step)
    requires Enabled(s, step) && OwnStep(step)
    ensures Work(Do(s, step)) < Work(s)
  {
    var t := Do(s, step);
    match step
    case Acquire(w) => WeightUpdate(s.workers, w, t.workers[w], 0);
    case Finish(w) => WeightUpdate(s.workers, w, Ready, 0);
    case NotifyOne(w) => if Sleeps(s) { WeightUpdate(s.workers, w, Ready, 0); }
    case NotifyAll => WeightWake(s.workers, t.workers);
  }

  /** Between calls from outside and without spurious wake-ups a run is bounded. */
  lemma {:induction false} OwnRunsEnd(s: State, steps: seq<Step>)
    requires IsRun(s, steps) && forall step | step in steps :: OwnStep(step)
    ensures |steps| <= Work(s)
    decreases |steps|
  {
    if steps != [] {
      WorkFalls(s, steps[0]);
      OwnRunsEnd(Do(s, steps[0]), steps[1..]);
    }
  }

  /** The pool has nothing to do by itself. */
  ghost predicate AtRest(s: State) {
    forall step :: Enabled(s, step) ==> !OwnStep(step)
  }

  /** Every accepted task was run and ended exactly once. */
  ghost predicate AllRun(s: State, n: nat) {
    s.tasks == [] && s.started == UpTo(n) && multiset(s.finished) == multiset(UpTo(n))
  }

  lemma {:induction false} NobodyRuns(s: State)
    requires Invariant(s) && s.tasks == [] && forall w | w in s.workers :: !w.Running?
    ensures AllRun(s, s.accepted)
  {
    assert s.started + [] == s.started;
    forall t ensures multiset(s.finished)[t] == multiset(s.started)[t] {
      assert Balanced(s, t);
      CountNone(s.workers, Running(t));
    }
  }

  /** A running pool at rest has all workers asleep, and has run what it was given. */
  lemma {:induction false} RestIsIdle(n: nat, steps: seq<Step>)
    requires n > 0 && IsRun(Init(n), steps) && Stop !in steps && AtRest(DoAll(Init(n), steps))
    ensures var s := DoAll(Init(n), steps);
      (forall w | w in s.workers :: w == Asleep) && AllRun(s, Enqueues(steps))
  {
    InitInvariant(n);
    RunKeepsInvariant(Init(n), steps);
    StepsTell(Init(n), steps);
    var s := DoAll(Init(n), steps);
    forall w | w in s.workers ensures w == Asleep {
      var i :| 0 <= i < |s.workers| && s.workers[i] == w;
      assert !Enabled(s, Acquire(i)) && !Enabled(s, Finish(i));
    }
    assert forall i | 0 <= i < |s.workers| :: s.workers[i] in s.workers;
    assert s.notifyOne == 0 || Enabled(s, NotifyOne(0));
    assert s.tasks == [];
    NobodyRuns(s);
  }

  // ---------- shutdown ----------

  /** Falls with every step once the pool is stopped, spurious wake-ups included. */
  function Measure(s: State): nat {
    Weight(s.workers, 2) + 2 * |s.tasks| + s.notifyOne + (if s.notifyAll then 1 else 0)
  }

  lemma {:induction false} MeasureFalls(s: State, step: Step)
    requires Invariant(s) && s.stop && Enabled(s, step)
    ensures Do(s, step).stop && Do(s, step).accepted == s.accepted
    ensures Measure(Do(s, step)) < Measure(s)
  {
    var t := Do(s, step);
    match step
    case Acquire(w) => WeightUpdate(s.workers, w, t.workers[w], 2);
    case Spurious(w) => WeightUpdate(s.workers, w, Ready, 2);
    case Finish(w) => WeightUpdate(s.workers, w, Ready, 2);
    case NotifyOne(w) => if Sleeps(s) { WeightUpdate(s.workers, w, Ready, 2); }
    case NotifyAll => WeightWake(s.workers, t.workers);
  }

  /** Nothing can happen any more, except spurious wake-ups. */
  ghost predicate Quiet(s: State) {
    forall step :: Enabled(s, step) ==> step.Spurious?
  }

  /** Everybody has left, nothing is queued, and the n tasks were run and ended exactly once. */
  ghost predicate Drained(s: State, n: nat) {
    (forall w | w in s.workers :: w == Exited) && AllRun(s, n)
  }

  lemma {:induction false} QuietIsDrained(s: State)
    requires Invariant(s) && s.stop && Quiet(s)
    ensures Drained(s, s.accepted)
  {
    assert !Enabled(s, NotifyAll);
    forall w | w in s.workers ensures w == Exited {
      var i :| 0 <= i < |s.workers| && s.workers[i] == w;
      assert !Enabled(s, Acquire(i)) && !Enabled(s, Finish(i));
    }
    assert s.workers[0] in s.workers;
    NobodyRuns(s);
  }

  /** From the moment stop is set, a run has at most Measure many steps. */
  lemma {:induction false} StoppedRunsEnd(s: State, steps: seq<Step>)
    requires Invariant(s) && s.stop && IsRun(s, steps)
    ensures |steps| <= Measure(s)
    decreases |steps|
  {
    if steps != [] {
      StepKeepsInvariant(s, steps[0]);
      MeasureFalls(s, steps[0]);
      StoppedRunsEnd(Do(s, steps[0]), steps[1..]);
    }
  }

  /**
   * Shutdown: once the destructor has set stop, a run from there is bounded,
   * and where it cannot go on, all workers have left, and all tasks ever given
   * to enqueue have been run to their end exactly once.
   */
  lemma {:induction false} ShutdownDrains(n: nat, steps: seq<Step>, more: seq<Step>)
    requires n > 0 && IsRun(Init(n), steps) && Stop in steps && IsRun(DoAll(Init(n), steps), more)
    ensures |more| <= Measure(DoAll(Init(n), steps))
    ensures Quiet(DoAll(DoAll(Init(n), steps), more)) ==> Drained(DoAll(DoAll(Init(n), steps), more), Enqueues(steps))
  {
    InitInvariant(n);
    RunKeepsInvariant(Init(n), steps);
    StepsTell(Init(n), steps);
    var s := DoAll(Init(n), steps);
    StoppedRunsEnd(s, more);
    RunKeepsInvariant(s, more);
    StepsTell(s, more);
    NoEnqueueWhenStopped(s, more);
    if Quiet(DoAll(s, more)) {
      QuietIsDrained(DoAll(s, more));
    }
  }

  lemma {:induction false} NoEnqueueWhenStopped(s: State, steps: seq<Step>)
    requires s.stop && IsRun(s, steps)
    ensures Enqueues(steps) == 0
    decreases |steps|
  {
    if steps != [] {
      NoEnqueueWhenStopped(Do(s, steps[0]), steps[1..]);
    }
  }

  // ---------- such runs exist ----------

  /** A stopped pool can always be run until nothing more can happen. */
  lemma {:induction false} RunsOut(s: State) returns (steps: seq<Step>)
    requires Invariant(s) && s.stop
    ensures IsRun(s, steps) && Quiet(DoAll(s, steps))
    decreases Measure(s)
  {
    steps := [];
    if !Quiet(s) {
      var step :| Enabled(s, step) && !step.Spurious?;
      StepKeepsInvariant(s, step);
      MeasureFalls(s, step);
      var rest := RunsOut(Do(s, step));
      steps := [step] + rest;
      assert steps[1..] == rest;
    }
  }

  /** Any number of tasks can be given to a running pool. */
  lemma {:induction false} EnqueuesRun(s: State, k: nat) returns (steps: seq<Step>)
    requires !s.stop
    ensures IsRun(s, steps) && Enqueues(steps) == k && |steps| == k && !DoAll(s, steps).stop
    decreases k
  {
    steps := [];
    if k > 0 {
      var rest := EnqueuesRun(Do(s, Enqueue), k - 1);
      steps := [Enqueue] + rest;
      assert steps[1..] == rest;
    }
  }

  lemma {:induction false} RunThenStop(s: State, steps: seq<Step>)
    requires IsRun(s, steps) && !DoAll(s, steps).stop
    ensures IsRun(s, steps + [Stop]) && Enqueues(steps + [Stop]) == Enqueues(steps) && Stop in steps + [Stop]
    decreases |steps|
  {
    var all := steps + [Stop];
    if steps == [] {
      assert all[1..] == [];
    } else {
      assert all[1..] == steps[1..] + [Stop];
      RunThenStop(Do(s, steps[0]), steps[1..]);
    }
  }

  /** For any number of workers and tasks there is a run that takes the tasks, stops and has run them all. */
  lemma {:induction false} AnyLoadIsServed(n: nat, k: nat) returns (steps: seq<Step>, more: seq<Step>)
    requires n > 0
    ensures IsRun(Init(n), steps) && Enqueues(steps) == k && Stop in steps
    ensures IsRun(DoAll(Init(n), steps), more) && Drained(DoAll(DoAll(Init(n), steps), more), k)
  {
    InitInvariant(n);
    var first := EnqueuesRun(Init(n), k);
    RunThenStop(Init(n), first);
    steps := first + [Stop];
    RunKeepsInvariant(Init(n), steps);
    StepsTell(Init(n), steps);
    more := RunsOut(DoAll(Init(n), steps));
    ShutdownDrains(n, steps, more);
  }
}
