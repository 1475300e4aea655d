/**
 Whether stop returns, and whether a notified status is sent. Both are counted in steps of
 the worker, so neither needs a clock or fairness.
 */
module WatchdogStop {
  import opened Watchdog

  // ----- a stop that is too early -----

  /** The worker's first store came after stop's: the loop goes on. */
  ghost predicate Overwritten(s: State) {
    && s.localWorks && GlobalWorks(s) && s.main == Joining
    && s.worker != Ended && s.worker != SetLocal && s.worker != TestSendOne
  }

  lemma StopTooEarly(s: State)
    requires s.main == Working && s.worker == SetLocal && (s.ownFlag || s.globalWorks)
    ensures CanRun(Stop(s), [WorkerStep(false)])
    ensures Overwritten(Run(Stop(s), [WorkerStep(false)]))
  {
    RunNone(Apply(Stop(s), WorkerStep(false)));
    RunCons(Stop(s), WorkerStep(false), []);
    assert [WorkerStep(false)] + [] == [WorkerStep(false)];
  }

  /** Then the worker never ends and stop waits for it for ever, in every interleaving,
      unless the external flag is cleared. */
  lemma {:induction false} StopWaitsForEver(s: State, steps: seq<Step>)
    requires Overwritten(s) && CanRun(s, steps)
    requires s.ownFlag || forall i :: 0 <= i < |steps| ==> steps[i] != SetGlobal(false)
    ensures Overwritten(Run(s, steps))
    decreases steps
  {
    if steps != [] {
      var s' := Apply(s, steps[0]);
      assert Overwritten(s');
      StopWaitsForEver(s', steps[1..]);
    }
  }

  // ----- a stop that is in time -----

  /** stop's store came after the worker's first one, and so is there to stay. */
  predicate Stopping(s: State) {
    !s.localWorks && s.main != Working && s.worker != SetLocal
  }

  /** The worker's steps to its end when nothing is pending. */
  function Rank(w: WorkerAt): (r: nat) {
    match w
    case SetLocal => 5
    case OpeningReset => 4
    case Create => 8
    case Reset => 7
    case Send => 6
    case Sleep => 5
    case TimeOut => 4
    case TestGlobal => 3
    case TestLocal => 2
    case TestSendOne => 1
    case Ended => 0
  }

  /** A pending notification costs one more round, unless a reset is about to erase it. */
  function StepsLeft(s: State): (r: nat)
    ensures r == 0 <==> s.worker == Ended
  {
    Rank(s.worker) +
    if s.sendOne && s.worker !in {OpeningReset, Create, Reset, Ended} then 8 else 0
  }

  function WorkerSteps(steps: seq<Step>): (r: nat) {
    if steps == [] then 0 else (if steps[0].WorkerStep? then 1 else 0) + WorkerSteps(steps[1..])
  }

  function FlagStores(steps: seq<Step>): (r: nat) {
    if steps == [] then 0 else (if steps[0] == NotifyFlag then 1 else 0) + FlagStores(steps[1..])
  }

  lemma StoppingStep(s: State, step: Step)
    requires Stopping(s) && Enabled(s, step)
    ensures var s' := Apply(s, step);
            && Stopping(s')
            && StepsLeft(s') + (if step.WorkerStep? then 1 else 0) <=
               StepsLeft(s) + (if step == NotifyFlag then 8 else 0)
  {
  }

  /** In every interleaving the worker's steps use up what was left, at most one round
      more for each notification. */
  lemma {:induction false} WorkerRunsDown(s: State, steps: seq<Step>)
    requires Stopping(s) && CanRun(s, steps)
    ensures Stopping(Run(s, steps))
    ensures WorkerSteps(steps) + StepsLeft(Run(s, steps)) <= StepsLeft(s) + 8 * FlagStores(steps)
    decreases steps
  {
    hide StepsLeft, Stopping, Apply, Enabled;
    if steps != [] {
      StoppingStep(s, steps[0]);
      WorkerRunsDown(Apply(s, steps[0]), steps[1..]);
    }
  }

  /** After `n` steps of the worker, and eight more for each notification, it has ended,
      whatever else happens in between. */
  ghost predicate EndsWithin(s: State, n: nat) {
    forall steps :: CanRun(s, steps) && WorkerSteps(steps) >= n + 8 * FlagStores(steps) ==>
      Run(s, steps).worker == Ended
  }

  lemma StopInTime(s: State)
    requires s.main == Working && s.worker != SetLocal
    ensures EndsWithin(Stop(s), StepsLeft(Stop(s)))
  {
    hide StepsLeft;
    var s' := Stop(s);
    forall steps | CanRun(s', steps) && WorkerSteps(steps) >= StepsLeft(s') + 8 * FlagStores(steps)
      ensures Run(s', steps).worker == Ended
    {
      WorkerRunsDown(s', steps);
      NothingLeft(Run(s', steps));
    }
  }

  lemma NothingLeft(s: State)
    ensures StepsLeft(s) == 0 <==> s.worker == Ended
  {
  }

  function Go(n: nat): (r: seq<Step>) {
    if n == 0 then [] else [WorkerStep(false)] + Go(n - 1)
  }

  lemma {:induction false} GoCounts(n: nat)
    ensures WorkerSteps(Go(n)) == n && FlagStores(Go(n)) == 0
  {
    if n > 0 { GoCounts(n - 1); }
  }

  /** A worker that does not see the stop can take any number of steps. */
  lemma {:induction false} GoesOn(s: State, n: nat)
    requires Overwritten(s)
    ensures CanRun(s, Go(n)) && Run(s, Go(n)).worker != Ended
    decreases n
  {
    hide CanRun, Run;
    if n == 0 {
      RunNone(s);
    } else {
      var s' := Apply(s, WorkerStep(false));
      assert Overwritten(s');
      GoesOn(s', n - 1);
      RunCons(s, WorkerStep(false), Go(n - 1));
    }
  }

  /** The run of a stop that is too early, with the external flag set. */
  function TooEarly(n: nat): (r: seq<Step>) { [SetGlobal(true)] + ([WorkerStep(false)] + Go(n)) }

  lemma TooEarlyRuns(s: State, n: nat)
    requires s.main == Working && s.worker == SetLocal
    ensures CanRun(Stop(s), TooEarly(n)) && Run(Stop(s), TooEarly(n)).worker != Ended
    ensures WorkerSteps(TooEarly(n)) == n + 1 && FlagStores(TooEarly(n)) == 0
  {
    hide CanRun, Run, Go, WorkerSteps, FlagStores;
    var s0 := Stop(s);
    var s1 := Apply(s0, SetGlobal(true));
    var s2 := Apply(s1, WorkerStep(false));
    GoesOn(s2, n);
    RunCons(s1, WorkerStep(false), Go(n));
    RunCons(s0, SetGlobal(true), [WorkerStep(false)] + Go(n));
    GoCounts(n);
    CountStep(WorkerStep(false), Go(n));
    CountStep(SetGlobal(true), [WorkerStep(false)] + Go(n));
  }

  lemma CountStep(step: Step, steps: seq<Step>)
    ensures WorkerSteps([step] + steps) == (if step.WorkerStep? then 1 else 0) + WorkerSteps(steps)
    ensures FlagStores([step] + steps) == (if step == NotifyFlag then 1 else 0) + FlagStores(steps)
  {
    assert ([step] + steps)[1..] == steps;
  }

  /** From every state in which stop may be called: the worker is sure to end, so that stop
      can return, if and only if it has made its first store. */
  lemma StopReturnsIff(s: State)
    requires s.main == Working
    ensures (exists n :: EndsWithin(Stop(s), n)) <==> s.worker != SetLocal
  {
    if s.worker != SetLocal {
      StopInTime(s);
    } else {
      forall n: nat ensures !EndsWithin(Stop(s), n) { TooEarlyRuns(s, n); }
    }
  }

  /** Once the worker has ended nothing keeps stop from its last message. */
  lemma EndedThenStopped(s: State)
    requires s.main == Joining && s.worker == Ended
    ensures CanRun(s, [StopStep, StopStep])
    ensures var r := Run(s, [StopStep, StopStep]); r.main == Stopped && r.log == s.log + [MainSent(StopText)]
  {
    hide CanRun, Run;
    var s1 := Apply(s, StopStep);
    StopSends(s);
    RunNone(Apply(s1, StopStep));
    RunCons(s1, StopStep, []);
    assert [StopStep] + [] == [StopStep];
    RunCons(s, StopStep, [StopStep]);
    assert [StopStep] + [StopStep] == [StopStep, StopStep];
  }
}
