/**
 The watchdog's two threads as interleaved atomic steps over shared flags. The state right
 after a successful start is the beginning; notifications may come from any thread at any
 time, and the external "is working" flag may change at any time.
 */
module Watchdog {

  datatype Status =
    | Off | Ok | Startup | StreamOpening | StreamInfo | StreamLookup | FrameReceiving | DiskWrite
    | FrameTimeout | FrameTimeoutFifo | OutputReconnect | OutputHeader | OutputFrame | AsyncTimeout
    | BadFrameHead

  datatype Option<T> = None | Some(value: T)

  /** The worker's switch; a status without a case leaves the client's message as it is. */
  function Message(s: Status): (r: Option<string>) {
    match s
    case Ok => Some("OK")
    case StreamOpening => Some("ERROR: Stream Opening")
    case StreamInfo => Some("ERROR: Stream Info")
    case StreamLookup => Some("ERROR: Stream Lookup")
    case FrameReceiving => Some("ERROR: Frame Receiving")
    case DiskWrite => Some("FATAL: Disk Write")
    case FrameTimeout => Some("ERROR: Frame Receiving Timeout")
    case FrameTimeoutFifo => Some("FATAL: Frame Receiving Timeout")
    case OutputReconnect => Some("FATAL: Output Reconnect")
    case OutputHeader => Some("FATAL: Output Header Send")
    case OutputFrame => Some("FATAL: Output Frame Send")
    case AsyncTimeout => Some("ERROR: Async Timeout")
    case BadFrameHead => Some("FATAL: Invalid input frame header length")
    case Off => None
    case Startup => None
  }

  const StartText := "Module Start"
  const StopText := "Module Stop"

  /** Where each thread is; the worker's names say what it does next. */
  datatype WorkerAt =
    | SetLocal | OpeningReset | TestGlobal | TestLocal | TestSendOne
    | Create | Reset | Send | Sleep | TimeOut | Ended

  datatype MainAt = Working | Joining | SendingStop | Stopped

  /** What the log keeps: sends by either thread, stores to the send-one flag, the worker's
      opening reset of it and the loop test that ends the worker. */
  datatype Event = MainSent(text: string) | WorkerSent(text: string) | FlagStored | ResetDone | LoopEnded

  datatype State = State(
    ownFlag: bool, globalWorks: bool, localWorks: bool, sendOne: bool, status: Status,
    message: string, worker: WorkerAt, main: MainAt, log: seq<Event>)

  datatype Step =
    | WorkerStep(late: bool)
    | NotifyStatus(status: Status)
    | NotifyFlag
    | SetGlobal(works: bool)
    | StopStep

  /** After start: the start message is sent and one notification made; `localWorks` holds
      whatever was in memory. With no external flag given the worker tests its own. */
  predicate Initial(s: State) {
    && s.sendOne && s.status == Ok && s.message == StartText
    && s.worker == SetLocal && s.main == Working
    && s.log == [MainSent(StartText), FlagStored]
  }

  predicate GlobalWorks(s: State) { if s.ownFlag then s.localWorks else s.globalWorks }

  /** The next atomic action of the worker; `late` is what its clock says. */
  function Worker(s: State, late: bool): (r: State)
    requires s.worker != Ended
  {
    match s.worker
    case SetLocal => s.(localWorks := true, worker := OpeningReset)
    case OpeningReset => s.(sendOne := false, worker := TestGlobal, log := s.log + [ResetDone])
    case TestGlobal => s.(worker := if GlobalWorks(s) then TestLocal else TestSendOne)
    case TestLocal => s.(worker := if s.localWorks then Create else TestSendOne)
    case TestSendOne =>
      if s.sendOne then s.(worker := Create) else s.(worker := Ended, log := s.log + [LoopEnded])
    case Create =>
      s.(message := if Message(s.status).Some? then Message(s.status).value else s.message, worker := Reset)
    case Reset => s.(sendOne := false, worker := Send)
    case Send => s.(worker := Sleep, log := s.log + [WorkerSent(s.message)])
    case Sleep => s.(worker := if s.status != Off && late then TimeOut else TestGlobal)
    case TimeOut => s.(status := AsyncTimeout, worker := TestGlobal)
  }

  /** stop: clear the flag, wait for the worker, send the last message. */
  function Stop(s: State): (r: State) {
    match s.main
    case Working => s.(localWorks := false, main := Joining)
    case Joining => s.(main := SendingStop)
    case SendingStop => s.(message := StopText, main := Stopped, log := s.log + [MainSent(StopText)])
    case Stopped => s
  }

  predicate Enabled(s: State, step: Step) {
    match step
    case WorkerStep(_) => s.worker != Ended
    case StopStep => s.main != Stopped && (s.main == Joining ==> s.worker == Ended)
    case NotifyStatus(_) => true
    case NotifyFlag => true
    case SetGlobal(_) => true
  }

  function Apply(s: State, step: Step): (r: State)
    requires Enabled(s, step)
  {
    match step
    case WorkerStep(late) => Worker(s, late)
    case StopStep => Stop(s)
    case NotifyStatus(status) => s.(status := status)
    case NotifyFlag => s.(sendOne := true, log := s.log + [FlagStored])
    case SetGlobal(works) => s.(globalWorks := works)
  }

  predicate CanRun(s: State, steps: seq<Step>)
    decreases steps
  {
    steps == [] || (Enabled(s, steps[0]) && CanRun(Apply(s, steps[0]), steps[1..]))
  }

  function Run(s: State, steps: seq<Step>): (r: State)
    requires CanRun(s, steps)
    decreases steps
  {
    if steps == [] then s else Run(Apply(s, steps[0]), steps[1..])
  }

  // ----- order of the sends -----

  predicate WorkerText(t: string) {
    t == StartText || exists st :: Message(st) == Some(t)
  }

  /** The start message first, worker messages after it, the stop message last of all. */
  ghost predicate Ordered(log: seq<Event>, stopped: bool) {
    && log != [] && log[0] == MainSent(StartText)
    && (forall i :: 0 < i < |log| && log[i].MainSent? ==> stopped && log[i] == MainSent(StopText))
    && (forall i, j :: 0 < i < j < |log| && log[i].MainSent? ==> !log[j].MainSent? && !log[j].WorkerSent?)
    && (forall i :: 0 <= i < |log| && log[i].WorkerSent? ==> WorkerText(log[i].text))
    && (stopped ==> exists i :: 0 < i < |log| && log[i] == MainSent(StopText))
  }

  /** A store of the flag after the worker's opening reset and before its last loop test. */
  ghost predicate InWindow(log: seq<Event>, i: nat) {
    && i < |log| && log[i] == FlagStored
    && (exists r :: 0 <= r < i && log[r] == ResetDone)
    && (forall f :: 0 <= f < i ==> log[f] != LoopEnded)
  }

  ghost predicate SentAfter(log: seq<Event>, i: nat) {
    exists j :: i < j < |log| && log[j].WorkerSent?
  }

  /** What holds after every step. */
  ghost predicate Inv(s: State) {
    && Ordered(s.log, s.main == Stopped)
    && (s.main == Stopped || s.main == SendingStop ==> s.worker == Ended)
    && (s.main != Stopped ==> WorkerText(s.message))
    && (s.worker in {SetLocal, OpeningReset} ==> ResetDone !in s.log)
    && (s.worker == Ended <==> LoopEnded in s.log)
    && (forall i: nat :: InWindow(s.log, i) ==>
          SentAfter(s.log, i) || (s.worker != Ended && (s.sendOne || s.worker == Send)))
  }

  // ----- one more event in the log -----

  lemma WindowSnoc(log: seq<Event>, e: Event, i: nat)
    requires InWindow(log + [e], i)
    ensures i < |log| ==> InWindow(log, i)
    ensures i == |log| ==> e == FlagStored && ResetDone in log && LoopEnded !in log
  {
    var log' := log + [e];
    var r :| 0 <= r < i && log'[r] == ResetDone;
    assert log[r] == ResetDone;
    forall f | 0 <= f < i ensures log[f] != LoopEnded { assert log'[f] == log[f]; }
  }

  lemma SentSnoc(log: seq<Event>, e: Event, i: nat)
    requires SentAfter(log, i) || (i < |log| && e.WorkerSent?)
    ensures SentAfter(log + [e], i)
  {
    var log' := log + [e];
    if j :| i < j < |log| && log[j].WorkerSent? {
      assert log'[j].WorkerSent?;
    } else {
      assert log'[|log|].WorkerSent?;
    }
  }

  lemma OrderedSnoc(log: seq<Event>, stopped: bool, e: Event)
    requires Ordered(log, stopped)
    requires e.MainSent? ==> !stopped && e == MainSent(StopText)
    requires e.WorkerSent? ==> !stopped && WorkerText(e.text)
    ensures Ordered(log + [e], stopped || e.MainSent?)
  {
    hide WorkerText;
    var log' := log + [e];
    assert log'[0] == log[0];
    if stopped {
      var i :| 0 < i < |log| && log[i] == MainSent(StopText);
      assert log'[i] == MainSent(StopText);
    } else if e.MainSent? {
      assert log'[|log|] == MainSent(StopText);
    }
  }

  /** The window part of the invariant, carried over one event. */
  lemma WindowKept(s: State, s': State, e: Event)
    requires Inv(s) && s'.log == s.log + [e]
    requires e == FlagStored ==> s'.sendOne && (s'.worker == Ended <==> s.worker == Ended)
    requires e != FlagStored && !e.WorkerSent? ==>
               s.sendOne == s'.sendOne && s'.worker != Send && s.worker != Send &&
               (s'.worker == Ended ==> s.worker == Ended || !s.sendOne)
    ensures forall i: nat :: InWindow(s'.log, i) ==>
              SentAfter(s'.log, i) || (s'.worker != Ended && (s'.sendOne || s'.worker == Send))
  {
    hide InWindow, SentAfter, Ordered, WorkerText;
    forall i: nat | InWindow(s'.log, i)
      ensures SentAfter(s'.log, i) || (s'.worker != Ended && (s'.sendOne || s'.worker == Send))
    {
      WindowSnoc(s.log, e, i);
      WindowBound(s'.log, i);
      if i < |s.log| && (SentAfter(s.log, i) || e.WorkerSent?) { SentSnoc(s.log, e, i); }
    }
  }

  lemma WindowBound(log: seq<Event>, i: nat)
    requires InWindow(log, i)
    ensures i < |log| && log[i] == FlagStored
  {
  }

  /** No flag store is in the window before the opening reset. */
  lemma NoWindowYet(log: seq<Event>, i: nat)
    requires ResetDone !in log
    ensures !InWindow(log, i)
  {
  }

  // ----- every step keeps the invariant -----

  lemma WorkerKeeps(s: State, late: bool)
    requires Inv(s) && s.worker != Ended
    ensures Inv(Worker(s, late))
  {
    hide InWindow, SentAfter, Ordered;
    var s' := Worker(s, late);
    match s.worker
    case OpeningReset =>
      OrderedSnoc(s.log, s.main == Stopped, ResetDone);
      forall i: nat ensures !InWindow(s'.log, i) {
        if InWindow(s'.log, i) {
          WindowSnoc(s.log, ResetDone, i);
          NoWindowYet(s.log, i);
          WindowBound(s'.log, i);
        }
      }
    case TestSendOne =>
      if !s.sendOne {
        OrderedSnoc(s.log, s.main == Stopped, LoopEnded);
        WindowKept(s, s', LoopEnded);
      }
    case Send =>
      OrderedSnoc(s.log, s.main == Stopped, WorkerSent(s.message));
      WindowKept(s, s', WorkerSent(s.message));
    case Create => NewText(s);
    case _ =>
  }

  lemma NewText(s: State)
    requires WorkerText(s.message)
    ensures WorkerText(if Message(s.status).Some? then Message(s.status).value else s.message)
  {
  }

  lemma StepKeeps(s: State, step: Step)
    requires Inv(s) && Enabled(s, step)
    ensures Inv(Apply(s, step))
  {
    match step
    case WorkerStep(late) => WorkerKeeps(s, late);
    case NotifyFlag =>
      OrderedSnoc(s.log, s.main == Stopped, FlagStored);
      WindowKept(s, Apply(s, step), FlagStored);
    case StopStep =>
      if s.main == SendingStop {
        OrderedSnoc(s.log, false, MainSent(StopText));
        WindowKept(s, Apply(s, step), MainSent(StopText));
      }
    case _ =>
  }

  lemma InitialInv(s: State)
    requires Initial(s)
    ensures Inv(s)
  {
    forall i: nat ensures !InWindow(s.log, i) { NoWindowYet(s.log, i); }
  }

  lemma {:induction false} RunKeeps(s: State, steps: seq<Step>)
    requires Inv(s) && CanRun(s, steps)
    ensures Inv(Run(s, steps))
    decreases steps
  {
    if steps != [] {
      StepKeeps(s, steps[0]);
      RunKeeps(Apply(s, steps[0]), steps[1..]);
    }
  }

  // ----- the results -----

  /** In every interleaving after a successful start the sends are the start message, then
      only the worker's, then the stop message last. */
  lemma SendsInOrder(s: State, steps: seq<Step>)
    requires Initial(s) && CanRun(s, steps)
    ensures var r := Run(s, steps); Ordered(r.log, r.main == Stopped)
  {
    InitialInv(s);
    RunKeeps(s, steps);
  }

  /** In every interleaving, a notification whose flag store falls between the opening reset
      and the last loop test is followed by a worker's send before the stop message. */
  lemma WindowNotifySent(s: State, steps: seq<Step>, i: nat, k: nat)
    requires Initial(s) && CanRun(s, steps)
    requires var log := Run(s, steps).log; InWindow(log, i) && 0 < k < |log| && log[k] == MainSent(StopText)
    ensures exists j :: i < j < k && Run(s, steps).log[j].WorkerSent?
  {
    InitialInv(s);
    RunKeeps(s, steps);
    var r := Run(s, steps);
    assert r.main == Stopped && r.worker == Ended;
    assert SentAfter(r.log, i);
    var j :| i < j < |r.log| && r.log[j].WorkerSent?;
    assert j < k;
  }

  lemma RunCons(s: State, step: Step, steps: seq<Step>)
    requires Enabled(s, step) && CanRun(Apply(s, step), steps)
    ensures CanRun(s, [step] + steps) && Run(s, [step] + steps) == Run(Apply(s, step), steps)
  {
    assert ([step] + steps)[1..] == steps;
  }

  /** stop comes right after the worker's first store; the worker then tests its flags,
      the external one first when there is one, and ends. */
  function StoppedAtOnce(s: State): (r: seq<Step>) {
    [WorkerStep(false), StopStep, WorkerStep(false), WorkerStep(false), WorkerStep(false)] +
    (if !s.ownFlag && s.globalWorks then [WorkerStep(false)] else [])
  }

  const EndedLog: seq<Event> := [MainSent(StartText), FlagStored, ResetDone, LoopEnded]

  function EndedAtOnce(s: State): (r: State) {
    s.(localWorks := false, sendOne := false, worker := Ended, main := Joining, log := EndedLog)
  }

  /** From the last test but one: the flags say stop, and no notification is pending. */
  lemma LastTests(s: State, rest: seq<Step>)
    requires s.worker == TestGlobal && !s.localWorks && !s.sendOne
    requires CanRun(s.(worker := Ended, log := s.log + [LoopEnded]), rest)
    ensures var go := WorkerStep(false);
            var steps := [go, go] + (if !s.ownFlag && s.globalWorks then [go] else []) + rest;
            CanRun(s, steps) && Run(s, steps) == Run(s.(worker := Ended, log := s.log + [LoopEnded]), rest)
  {
    hide CanRun, Run;
    var go := WorkerStep(false);
    var s1 := Apply(s, go);
    if !s.ownFlag && s.globalWorks {
      var s2 := Apply(s1, go);
      RunCons(s2, go, rest);
      RunCons(s1, go, [go] + rest);
      RunCons(s, go, [go] + ([go] + rest));
      assert [go, go] + [go] + rest == [go] + ([go] + ([go] + rest));
    } else {
      RunCons(s1, go, rest);
      RunCons(s, go, [go] + rest);
      assert [go, go] + [] + rest == [go] + ([go] + rest);
    }
  }

  lemma StopsAtOnce(s: State, rest: seq<Step>)
    requires Initial(s) && CanRun(EndedAtOnce(s), rest)
    ensures CanRun(s, StoppedAtOnce(s) + rest) && Run(s, StoppedAtOnce(s) + rest) == Run(EndedAtOnce(s), rest)
  {
    hide CanRun, Run;
    var go, stop := WorkerStep(false), StopStep;
    var s1 := Apply(s, go);
    var s2 := Apply(s1, stop);
    var s3 := Apply(s2, go);
    assert s3.log + [LoopEnded] == EndedLog;
    assert s3.(worker := Ended, log := s3.log + [LoopEnded]) == EndedAtOnce(s);
    LastTests(s3, rest);
    var tests := [go, go] + (if !s.ownFlag && s.globalWorks then [go] else []) + rest;
    RunCons(s2, go, tests);
    RunCons(s1, stop, [go] + tests);
    RunCons(s, go, [stop] + ([go] + tests));
    assert StoppedAtOnce(s) + rest == [go] + ([stop] + ([go] + tests));
  }

  /** Outside the window a notification can be lost. The one that start itself makes always
      comes before the opening reset; when stop comes right after the worker's first store no
      message of the worker is sent at all. One made after the last loop test is lost as well. */
  lemma OutsideWindowLost(s: State)
    requires Initial(s)
    ensures var early, late := StoppedAtOnce(s) + [StopStep, StopStep], StoppedAtOnce(s) + [NotifyFlag, StopStep, StopStep];
            && CanRun(s, early) && Run(s, early).log == EndedLog + [MainSent(StopText)]
            && CanRun(s, late) && Run(s, late).log == EndedLog + [FlagStored, MainSent(StopText)]
  {
    hide StoppedAtOnce;
    var e := EndedAtOnce(s);
    StopSends(e);
    StopsAtOnce(s, [StopStep, StopStep]);
    var n := Apply(e, NotifyFlag);
    StopSends(n);
    RunCons(e, NotifyFlag, [StopStep, StopStep]);
    assert [NotifyFlag] + [StopStep, StopStep] == [NotifyFlag, StopStep, StopStep];
    StopsAtOnce(s, [NotifyFlag, StopStep, StopStep]);
    assert EndedLog + [FlagStored] + [MainSent(StopText)] == EndedLog + [FlagStored, MainSent(StopText)];
  }

  lemma StopSends(s: State)
    requires s.main == Joining && s.worker == Ended
    ensures CanRun(s, [StopStep, StopStep])
    ensures Run(s, [StopStep, StopStep]).log == s.log + [MainSent(StopText)]
  {
    hide CanRun, Run;
    var s1 := Apply(s, StopStep);
    var s2 := Apply(s1, StopStep);
    RunNone(s2);
    RunCons(s1, StopStep, []);
    assert [StopStep] + [] == [StopStep];
    RunCons(s, StopStep, [StopStep]);
    assert [StopStep] + [StopStep] == [StopStep, StopStep];
  }

  lemma RunNone(s: State)
    ensures CanRun(s, []) && Run(s, []) == s
  {
  }
}
