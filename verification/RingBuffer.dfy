// One producer, one consumer, a ring of LEN places and two semaphores, with
// every shared access a step of its own.

module RingBuffer {

  const LEN: nat := 10

  /** Where the producer is in its loop: the statement it executes next. */
  datatype ProducerAt = WaitBlank | Put | PrintPut | PostFull | NextPlace

  datatype ConsumerAt = WaitFull | Take | Clear | PostBlank | NextTaken

  /** produced and consumed list the values put and the values taken; rounds count finished turns. */
  datatype State = State(
    places: seq<int>,
    blank: nat,
    full: nat,
    producer: ProducerAt,
    p: nat,
    consumer: ConsumerAt,
    c: nat,
    produced: seq<int>,
    consumed: seq<int>,
    puts: nat,
    takes: nat)

  datatype Step = Produce(value: int) | Consume

  function Init(): (s: State)
    ensures Invariant(s)
  {
    State(seq(LEN, _ => 0), LEN, 0, WaitBlank, 0, WaitFull, 0, [], [], 0, 0)
  }

  predicate Shaped(s: State) { |s.places| == LEN && s.p < LEN && s.c < LEN }

  /** A semaphore wait is the only statement that may block. */
  predicate Enabled(s: State, step: Step) {
    match step
    case Produce(_) => s.producer == WaitBlank ==> s.blank > 0
    case Consume => s.consumer == WaitFull ==> s.full > 0
  }

  function Do(s: State, step: Step): State
    requires Shaped(s) && Enabled(s, step)
  {
    match step
    case Produce(value) => (
      match s.producer
      case WaitBlank => s.(blank := s.blank - 1, producer := Put)
      case Put => s.(places := s.places[s.p := value], produced := s.produced + [value], producer := PrintPut)
      case PrintPut => s.(producer := PostFull)
      case PostFull => s.(full := s.full + 1, producer := NextPlace)
      case NextPlace => s.(p := (s.p + 1) % LEN, puts := s.puts + 1, producer := WaitBlank))
    case Consume => (
      match s.consumer
      case WaitFull => s.(full := s.full - 1, consumer := Take)
      case Take => s.(consumed := s.consumed + [s.places[s.c]], consumer := Clear)
      case Clear => s.(places := s.places[s.c := 0], consumer := PostBlank)
      case PostBlank => s.(blank := s.blank + 1, consumer := NextTaken)
      case NextTaken => s.(c := (s.c + 1) % LEN, takes := s.takes + 1, consumer := WaitFull))
  }

  // ---------- the invariant ----------

  function Bit(b: bool): nat { if b then 1 else 0 }

  /** Inside an operation: past its wait and before its post. */
  predicate Producing(s: State) { s.producer in {Put, PrintPut, PostFull} }

  predicate Consuming(s: State) { s.consumer in {Take, Clear, PostBlank} }

  /** How many places have been cleared. */
  function Cleared(s: State): nat { s.takes + Bit(s.consumer in {PostBlank, NextTaken}) }

  ghost predicate Invariant(s: State) {
    && Shaped(s)
    && s.p == s.puts % LEN && s.c == s.takes % LEN
    && |s.produced| == s.puts + Bit(s.producer in {PrintPut, PostFull, NextPlace})
    && |s.consumed| == s.takes + Bit(s.consumer in {Clear, PostBlank, NextTaken})
    && s.blank + (s.puts + Bit(s.producer != WaitBlank)) == LEN + (s.takes + Bit(s.consumer == NextTaken))
    && s.full + (s.takes + Bit(s.consumer != WaitFull)) == s.puts + Bit(s.producer == NextPlace)
    && (forall k | Cleared(s) <= k < |s.produced| :: s.places[k % LEN] == s.produced[k])
    && |s.consumed| <= |s.produced|
    && (forall k | 0 <= k < |s.consumed| :: s.consumed[k] == s.produced[k])
  }

  /** Places less than LEN turns apart are different places. */
  lemma {:induction false} PlacesDiffer(j: nat, k: nat)
    requires j < k < j + LEN
    ensures j % LEN != k % LEN
  {
  }

  lemma {:induction false} PutKeeps(s: State, value: int)
    requires Invariant(s) && s.producer == Put
    ensures Invariant(Do(s, Produce(value)))
  {
    var t := Do(s, Produce(value));
    forall k | Cleared(t) <= k < |t.produced| ensures t.places[k % LEN] == t.produced[k] {
      if k < s.puts {
        PlacesDiffer(k, s.puts);
      }
    }
  }

  lemma {:induction false} ClearKeeps(s: State)
    requires Invariant(s) && s.consumer == Clear
    ensures Invariant(Do(s, Consume))
  {
    var t := Do(s, Consume);
    forall k | Cleared(t) <= k < |t.produced| ensures t.places[k % LEN] == t.produced[k] {
      PlacesDiffer(s.takes, k);
    }
  }

  lemma {:induction false} NextRemainder(n: nat)
    ensures (n + 1) % LEN == (n % LEN + 1) % LEN
  {
  }

  lemma {:induction false} ProducerKeeps(s: State, value: int)
    requires Invariant(s) && Enabled(s, Produce(value)) && s.producer in {WaitBlank, PrintPut, PostFull}
    ensures Invariant(Do(s, Produce(value)))
  {
    assert Cleared(Do(s, Produce(value))) == Cleared(s);
  }

  lemma {:induction false} ConsumerKeeps(s: State)
    requires Invariant(s) && Enabled(s, Consume) && s.consumer in {WaitFull, PostBlank}
    ensures Invariant(Do(s, Consume))
  {
    assert Cleared(Do(s, Consume)) == Cleared(s);
  }

  lemma {:induction false} TurnKeeps(s: State, value: int)
    requires Invariant(s)
    ensures s.producer == NextPlace ==> Invariant(Do(s, Produce(value)))
    ensures s.consumer == NextTaken ==> Invariant(Do(s, Consume))
  {
    NextRemainder(s.puts);
    NextRemainder(s.takes);
    if s.producer == NextPlace { assert Cleared(Do(s, Produce(value))) == Cleared(s); }
    if s.consumer == NextTaken { assert Cleared(Do(s, Consume)) == Cleared(s); }
  }

  lemma {:induction false} TakeKeeps(s: State)
    requires Invariant(s) && s.consumer == Take
    ensures Invariant(Do(s, Consume))
  {
    assert s.places[s.takes % LEN] == s.produced[s.takes];
  }

  lemma {:induction false} StepKeepsInvariant(s: State, step: Step)
    requires Invariant(s) && Enabled(s, step)
    ensures Invariant(Do(s, step))
  {
    hide Invariant;
    assert Shaped(s) by { IsShaped(s); }
    match step
    case Produce(value) =>
      if s.producer == Put { PutKeeps(s, value); }
      else if s.producer == NextPlace { TurnKeeps(s, value); }
      else { ProducerKeeps(s, value); }
    case Consume =>
      if s.consumer == Clear { ClearKeeps(s); }
      else if s.consumer == Take { TakeKeeps(s); }
      else if s.consumer == NextTaken { TurnKeeps(s, 0); }
      else { ConsumerKeeps(s); }
  }

  lemma IsShaped(s: State)
    requires Invariant(s)
    ensures Shaped(s)
  {
  }

  ghost predicate IsRun(s: State, steps: seq<Step>)
    requires Invariant(s)
    decreases |steps|
  {
    steps == [] ||
    (Enabled(s, steps[0]) && (StepKeepsInvariant(s, steps[0]); IsRun(Do(s, steps[0]), steps[1..])))
  }

  ghost function DoAll(s: State, steps: seq<Step>): (t: State)
    requires Invariant(s) && IsRun(s, steps)
    ensures Invariant(t)
    decreases |steps|
  {
    if steps == [] then s else
      StepKeepsInvariant(s, steps[0]);
      DoAll(Do(s, steps[0]), steps[1..])
  }

  /**
   * Over every interleaving: what was consumed is a prefix of what was
   * produced, the semaphores and the operations in progress add up to LEN, at
   * most LEN values are in the ring, and when both threads are at a place it
   * is not the same place.
   */
  lemma {:induction false} EveryInterleaving(steps: seq<Step>)
    requires IsRun(Init(), steps)
    ensures var s := DoAll(Init(), steps);
      && s.consumed <= s.produced
      && |s.produced| - |s.consumed| <= LEN
      && s.blank + s.full + Bit(Producing(s)) + Bit(Consuming(s)) == LEN
      && (s.producer in {Put, PrintPut} && s.consumer in {Take, Clear} ==> s.p != s.c)
  {
    var s := DoAll(Init(), steps);
    if s.producer in {Put, PrintPut} && s.consumer in {Take, Clear} {
      PlacesDiffer(s.takes, s.puts);
    }
  }

  /** The value printed is the value put: nobody changes the place in between. */
  lemma {:induction false} PrintsWhatWasPut(steps: seq<Step>)
    requires IsRun(Init(), steps)
    ensures var s := DoAll(Init(), steps);
      s.producer == PrintPut ==> s.produced != [] && s.places[s.p] == s.produced[|s.produced| - 1]
  {
    var s := DoAll(Init(), steps);
    if s.producer == PrintPut {
      assert s.places[s.puts % LEN] == s.produced[s.puts];
    }
  }

  /** The threads never block each other for good: one of them can always go on. */
  lemma {:induction false} NeverStuck(steps: seq<Step>, value: int)
    requires IsRun(Init(), steps)
    ensures Enabled(DoAll(Init(), steps), Produce(value)) || Enabled(DoAll(Init(), steps), Consume)
  {
    var s := DoAll(Init(), steps);
    assert Invariant(s);
  }

  // ---------- what a run's own steps say ----------

  /** The value that a step offers, if the producer is at its store. */
  function OfferedBy(s: State, step: Step): seq<int> {
    if step.Produce? && s.producer == Put then [step.value] else []
  }

  /** The values that the producer put, told by the steps and where the producer was. */
  ghost function Offered(s: State, steps: seq<Step>): seq<int>
    requires Invariant(s) && IsRun(s, steps)
    decreases |steps|
  {
    if steps == [] then [] else
      StepKeepsInvariant(s, steps[0]);
      OfferedBy(s, steps[0]) + Offered(Do(s, steps[0]), steps[1..])
  }

  /** How many statements of its turn a thread has behind it. */
  function ProducerDone(at: ProducerAt): nat {
    match at case WaitBlank => 0 case Put => 1 case PrintPut => 2 case PostFull => 3 case NextPlace => 4
  }

  function ConsumerDone(at: ConsumerAt): nat {
    match at case WaitFull => 0 case Take => 1 case Clear => 2 case PostBlank => 3 case NextTaken => 4
  }

  /** Statements executed so far. */
  function Executed(s: State): nat {
    5 * s.puts + ProducerDone(s.producer) + (5 * s.takes + ConsumerDone(s.consumer))
  }

  lemma {:induction false} StepTells(s: State, step: Step)
    requires Shaped(s) && Enabled(s, step)
    ensures Executed(Do(s, step)) == Executed(s) + 1
    ensures Do(s, step).produced == s.produced + OfferedBy(s, step)
  {
  }

  /** Every step executes one statement, and what is produced is what the steps offer. */
  lemma {:induction false} StepsTell(s: State, steps: seq<Step>)
    requires Invariant(s) && IsRun(s, steps)
    ensures Executed(DoAll(s, steps)) == Executed(s) + |steps|
    ensures DoAll(s, steps).produced == s.produced + Offered(s, steps)
    decreases |steps|
  {
    hide Invariant, Do, Enabled, Executed, OfferedBy, Shaped;
    if steps != [] {
      StepKeepsInvariant(s, steps[0]);
      IsShaped(s);
      StepTells(s, steps[0]);
      StepsTell(Do(s, steps[0]), steps[1..]);
    }
  }

  /**
   * Over every interleaving: the values consumed are the first of those put,
   * and every step gets one of the threads one statement further; since at most
   * LEN values are ahead, consuming goes on as the run does.
   */
  lemma {:induction false} ConsumesWhatWasPut(steps: seq<Step>)
    requires IsRun(Init(), steps)
    ensures var s := DoAll(Init(), steps);
      && |s.consumed| <= |Offered(Init(), steps)| && s.consumed == Offered(Init(), steps)[..|s.consumed|]
      && |steps| <= 10 * |s.consumed| + 5 * LEN + 8
  {
    hide Invariant, IsRun, DoAll, Offered, Executed;
    StepsTell(Init(), steps);
    NothingExecuted();
    assert [] + Offered(Init(), steps) == Offered(Init(), steps);
    EveryInterleaving(steps);
    AheadAtMost(DoAll(Init(), steps));
  }

  lemma NothingExecuted()
    ensures Executed(Init()) == 0 && Init().produced == []
  {
  }

  lemma {:induction false} AheadAtMost(s: State)
    requires Invariant(s)
    ensures Executed(s) <= 10 * |s.consumed| + 5 * LEN + 8
  {
    assert |s.produced| - |s.consumed| <= LEN;
  }

  // ---------- places that hold nothing ----------

  /** A place that no value is waiting at, or being taken from, is 0. */
  ghost predicate EmptyIsZero(s: State)
    requires Shaped(s)
  {
    forall i | 0 <= i < LEN ::
      s.places[i] == 0 || exists k :: Cleared(s) <= k < |s.produced| && k % LEN == i
  }

  lemma {:induction false} StepKeepsEmpty(s: State, step: Step)
    requires Invariant(s) && EmptyIsZero(s) && Enabled(s, step)
    ensures Shaped(Do(s, step)) && EmptyIsZero(Do(s, step))
  {
    StepKeepsInvariant(s, step);
    var t := Do(s, step);
    forall i | 0 <= i < LEN
      ensures t.places[i] == 0 || exists k :: Cleared(t) <= k < |t.produced| && k % LEN == i
    {
      if step.Produce? && s.producer == Put && i == s.p {
        assert s.puts % LEN == i && Cleared(t) <= s.puts < |t.produced|;
      } else if s.places[i] != 0 {
        var k :| Cleared(s) <= k < |s.produced| && k % LEN == i;
        assert k >= Cleared(t) || (k == s.takes && i == s.c);
      }
    }
  }

  lemma {:induction false} RunKeepsEmpty(s: State, steps: seq<Step>)
    requires Invariant(s) && EmptyIsZero(s) && IsRun(s, steps)
    ensures EmptyIsZero(DoAll(s, steps))
    decreases |steps|
  {
    hide Invariant, EmptyIsZero;
    if steps != [] {
      IsShaped(s);
      StepKeepsInvariant(s, steps[0]);
      StepKeepsEmpty(s, steps[0]);
      RunKeepsEmpty(Do(s, steps[0]), steps[1..]);
    }
  }

  /** In every interleaving, each place is 0 or holds a value that is not cleared yet. */
  lemma {:induction false} EmptyPlacesAreZero(steps: seq<Step>)
    requires IsRun(Init(), steps)
    ensures var s := DoAll(Init(), steps);
      forall i | 0 <= i < LEN ::
        s.places[i] == 0 ||
        exists k :: |s.consumed| - (if s.consumer == Clear then 1 else 0) <= k < |s.produced| &&
                    k % LEN == i && s.places[i] == s.produced[k]
  {
    RunKeepsEmpty(Init(), steps);
    var s := DoAll(Init(), steps);
    forall i | 0 <= i < LEN && s.places[i] != 0
      ensures exists k :: |s.consumed| - (if s.consumer == Clear then 1 else 0) <= k < |s.produced| &&
                          k % LEN == i && s.places[i] == s.produced[k]
    {
      var k :| Cleared(s) <= k < |s.produced| && k % LEN == i;
      assert s.places[k % LEN] == s.produced[k];
    }
  }
}
