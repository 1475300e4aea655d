/**
 Which status a notification gets sent. The source means the send-one flag to guarantee
 that a message gets through even when the end is asked for; this says when it does.
 */
module WatchdogNotify {
  import opened Watchdog
  import opened WatchdogStop

  const TimeOutText := "ERROR: Async Timeout"

  /** Steps in which nobody notifies another status; the worker may still time out. */
  predicate NoOther(steps: seq<Step>) {
    forall i :: 0 <= i < |steps| ==> !steps[i].NotifyStatus?
  }

  /** Right after a notification's flag store, wherever the worker is, with a stop still to
      come or already there to stay. */
  predicate JustNotified(s: State, text: string) {
    && s.sendOne && Message(s.status) == Some(text)
    && (s.main == Working || (s.main == Joining && !s.localWorks && s.worker != SetLocal))
  }

  /** The log of `r` has a send of `text` that the log of `s` has not. */
  ghost predicate Carries(s: State, r: State, text: string) {
    exists j :: |s.log| <= j < |r.log| && r.log[j] == WorkerSent(text)
  }

  /** Every such run in which the worker ends sends the text. */
  ghost predicate GetsThrough(s: State, text: string) {
    forall steps :: NoOther(steps) && CanRun(s, steps) && Run(s, steps).worker == Ended ==>
      Carries(s, Run(s, steps), text)
  }

  // ----- when it gets through -----

  /** The worker is bound to send `text` before it ends. */
  predicate BoundToSend(s: State, text: string) {
    && (s.main == Working || s.main == Joining)
    && match s.worker
       case Create => Message(s.status) == Some(text)
       case Reset => s.message == text
       case Send => s.message == text || (text == TimeOutText && s.sendOne && Message(s.status) == Some(text))
       case Sleep => text == TimeOutText && s.sendOne && Message(s.status) == Some(text)
       case TimeOut => text == TimeOutText && s.sendOne
       case TestGlobal => s.sendOne && Message(s.status) == Some(text)
       case TestLocal => s.sendOne && Message(s.status) == Some(text)
       case TestSendOne => s.sendOne && Message(s.status) == Some(text)
       case _ => false
  }

  lemma TimeOutMessage()
    ensures Message(AsyncTimeout) == Some(TimeOutText)
  {
  }

  lemma BoundWorkerStep(s: State, late: bool, text: string)
    requires BoundToSend(s, text) && s.worker != Ended
    ensures BoundToSend(Worker(s, late), text) || Carries(s, Worker(s, late), text)
  {
    hide Message;
    TimeOutMessage();
    if s.worker == Send && s.message == text {
      assert Worker(s, late).log[|s.log|] == WorkerSent(text);
    }
  }

  lemma BoundStep(s: State, step: Step, text: string)
    requires BoundToSend(s, text) && Enabled(s, step) && !step.NotifyStatus?
    ensures var s' := Apply(s, step);
            s.log <= s'.log && (BoundToSend(s', text) || Carries(s, s', text))
  {
    hide Message, Worker, Carries;
    LogGrows(s, step);
    if step.WorkerStep? { BoundWorkerStep(s, step.late, text); }
  }

  lemma LogGrows(s: State, step: Step)
    requires Enabled(s, step)
    ensures s.log <= Apply(s, step).log
  {
  }

  lemma {:induction false} RunGrows(s: State, steps: seq<Step>)
    requires CanRun(s, steps)
    ensures s.log <= Run(s, steps).log
    decreases steps
  {
    hide Apply, Enabled;
    if steps != [] {
      LogGrows(s, steps[0]);
      RunGrows(Apply(s, steps[0]), steps[1..]);
    }
  }

  lemma CarriesOn(s: State, s': State, r: State, text: string)
    requires s.log <= s'.log <= r.log
    requires Carries(s, s', text) || Carries(s', r, text)
    ensures Carries(s, r, text)
  {
    if Carries(s, s', text) {
      var j :| |s.log| <= j < |s'.log| && s'.log[j] == WorkerSent(text);
      assert r.log[j] == WorkerSent(text);
    } else {
      var j :| |s'.log| <= j < |r.log| && r.log[j] == WorkerSent(text);
      assert |s.log| <= j;
    }
  }

  /** In every such run a worker that is bound to send has sent, or still is. */
  lemma {:induction false} BoundRuns(s: State, steps: seq<Step>, text: string)
    requires BoundToSend(s, text) && CanRun(s, steps) && NoOther(steps)
    ensures BoundToSend(Run(s, steps), text) || Carries(s, Run(s, steps), text)
    decreases steps
  {
    hide BoundToSend, Apply, Enabled, Carries;
    if steps != [] {
      var s', rest := Apply(s, steps[0]), steps[1..];
      BoundStep(s, steps[0], text);
      RunGrows(s', rest);
      if BoundToSend(s', text) { BoundRuns(s', rest, text); }
      if Carries(s, s', text) || Carries(s', Run(s', rest), text) { CarriesOn(s, s', Run(s', rest), text); }
    }
  }

  // ----- when it can be lost -----

  /** A step that does not send the text takes a loss after it back to before it. */
  lemma LossBefore(s: State, step: Step, text: string)
    requires Enabled(s, step) && !step.NotifyStatus?
    requires Apply(s, step).log == s.log ||
             exists e :: Apply(s, step).log == s.log + [e] && e != WorkerSent(text)
    requires !GetsThrough(Apply(s, step), text)
    ensures !GetsThrough(s, text)
  {
    hide Apply, Enabled, CanRun, Run;
    var s' := Apply(s, step);
    var steps :| NoOther(steps) && CanRun(s', steps) && Run(s', steps).worker == Ended &&
                 !Carries(s', Run(s', steps), text);
    RunCons(s, step, steps);
    RunGrows(s', steps);
    var all, r := [step] + steps, Run(s', steps);
    assert NoOther(all);
    forall j | |s.log| <= j < |r.log| ensures r.log[j] != WorkerSent(text) {
      if j < |s'.log| { assert r.log[j] == s'.log[j]; }
    }
  }

  lemma EndedLoses(s: State, text: string)
    requires s.worker == Ended
    ensures !GetsThrough(s, text)
  {
    hide CanRun, Run;
    RunNone(s);
    assert NoOther([]) && !Carries(s, Run(s, []), text);
  }

  /** Both flags say stop. */
  predicate Halted(s: State) { !s.localWorks && !GlobalWorks(s) && s.main == Joining }

  /** The worker can end without sending `text`: nothing is pending, or a time-out has
      replaced the status that is. */
  predicate Doomed(s: State, text: string) {
    match s.worker
    case Ended => true
    case OpeningReset => true
    case TestGlobal => s.sendOne ==> s.status == AsyncTimeout && text != TimeOutText
    case TestSendOne => s.sendOne ==> s.status == AsyncTimeout && text != TimeOutText
    case Create => s.status == AsyncTimeout && text != TimeOutText
    case Reset => s.message != text
    case Send => s.message != text && (s.sendOne ==> s.status != Off && text != TimeOutText)
    case Sleep => s.sendOne ==> s.status != Off && text != TimeOutText
    case TimeOut => s.sendOne ==> text != TimeOutText
    case _ => false
  }

  /** The worker's next step on a losing run; its clock is late when something is pending. */
  function LosingStep(s: State): (r: Step) { WorkerStep(s.worker == Sleep && s.sendOne) }

  lemma DoomedStep(s: State, text: string)
    requires Halted(s) && Doomed(s, text) && s.worker != Ended
    ensures var s' := Apply(s, LosingStep(s));
            && Enabled(s, LosingStep(s)) && Halted(s') && Doomed(s', text)
            && (s'.log == s.log || exists e :: s'.log == s.log + [e] && e != WorkerSent(text))
  {
    hide Message;
    TimeOutMessage();
    var s' := Apply(s, LosingStep(s));
    if s.worker == Send { assert s'.log == s.log + [WorkerSent(s.message)]; }
  }

  lemma {:induction false} DoomedLoses(s: State, text: string)
    requires Halted(s) && Doomed(s, text)
    ensures !GetsThrough(s, text)
    decreases StepsLeft(s)
  {
    hide GetsThrough, Apply, Enabled, StepsLeft, Doomed;
    if s.worker == Ended {
      EndedLoses(s, text);
    } else {
      DoomedStep(s, text);
      assert s.worker != SetLocal by { NotAtStart(s, text); }
      StoppingStep(s, LosingStep(s));
      DoomedLoses(Apply(s, LosingStep(s)), text);
      LossBefore(s, LosingStep(s), text);
    }
  }

  lemma NotAtStart(s: State, text: string)
    requires Doomed(s, text)
    ensures s.worker != SetLocal
  {
  }

  /** The places in which the loss of a notified status can begin. */
  predicate AtRisk(s: State, text: string) {
    match s.worker
    case Reset => s.message != text
    case Send => s.message != text && text != TimeOutText
    case Sleep => text != TimeOutText
    case TimeOut => text != TimeOutText
    case Ended => true
    case OpeningReset => true
    case _ => false
  }

  lemma RiskIsDoom(s: State, text: string)
    requires AtRisk(s, text) && s.status != Off
    ensures Doomed(s, text)
  {
  }

  /** With stop's store made, the external flag is cleared and the worker left to end. */
  lemma LosesWhenStopped(s: State, text: string)
    requires s.main == Joining && !s.localWorks && AtRisk(s, text) && s.status != Off
    ensures !GetsThrough(s, text)
  {
    hide GetsThrough, AtRisk, Doomed;
    var s' := Apply(s, SetGlobal(false));
    assert AtRisk(s', text) by { RiskElsewhere(s, s', text); }
    RiskIsDoom(s', text);
    DoomedLoses(s', text);
    LossBefore(s, SetGlobal(false), text);
  }

  lemma RiskElsewhere(s: State, s': State, text: string)
    requires AtRisk(s, text) && s'.worker == s.worker && s'.message == s.message
    ensures AtRisk(s', text)
  {
  }

  lemma LosesWhenWorking(s: State, text: string)
    requires s.main == Working && s.status != Off && (AtRisk(s, text) || s.worker == SetLocal)
    ensures !GetsThrough(s, text)
  {
    hide GetsThrough, AtRisk;
    if s.worker == SetLocal {
      var s1 := Apply(s, WorkerStep(false));
      assert AtRisk(s1, text) by { OpeningRisk(s1, text); }
      LosesByStop(s1, text);
      LossBefore(s, WorkerStep(false), text);
    } else {
      LosesByStop(s, text);
    }
  }

  lemma OpeningRisk(s: State, text: string)
    requires s.worker == OpeningReset
    ensures AtRisk(s, text)
  {
  }

  lemma LosesByStop(s: State, text: string)
    requires s.main == Working && s.status != Off && AtRisk(s, text)
    ensures !GetsThrough(s, text)
  {
    hide GetsThrough, AtRisk;
    var s' := Apply(s, StopStep);
    RiskElsewhere(s, s', text);
    LosesWhenStopped(s', text);
    LossBefore(s, StopStep, text);
  }

  // ----- the result -----

  /** The worker is yet to make its message, or has made the right one, or what would
      replace the status says the same. */
  predicate Safe(s: State, text: string) {
    || s.worker in {TestGlobal, TestLocal, TestSendOne, Create}
    || (s.worker in {Reset, Send} && s.message == text)
    || (text == TimeOutText && s.worker in {Send, Sleep, TimeOut})
  }

  lemma SafeIsBound(s: State, text: string)
    requires JustNotified(s, text) && Safe(s, text)
    ensures BoundToSend(s, text)
  {
  }

  lemma UnsafeIsAtRisk(s: State, text: string)
    requires !Safe(s, text)
    ensures s.worker == SetLocal || AtRisk(s, text)
  {
  }

  /** The status of a notification gets through, whenever stop comes, whatever other flags
      are stored and whatever the worker's clock says, if and only if the worker is in a
      safe place when the flag is stored. */
  lemma StatusGetsThroughIff(s: State, text: string)
    requires JustNotified(s, text)
    ensures GetsThrough(s, text) <==> Safe(s, text)
  {
    hide Safe, BoundToSend, AtRisk;
    if Safe(s, text) {
      SafeIsBound(s, text);
      forall steps | NoOther(steps) && CanRun(s, steps) && Run(s, steps).worker == Ended
        ensures Carries(s, Run(s, steps), text)
      {
        BoundRuns(s, steps, text);
        NotBoundAtEnd(Run(s, steps), text);
      }
    } else {
      UnsafeIsAtRisk(s, text);
      if s.main == Working {
        LosesWhenWorking(s, text);
      } else {
        LosesWhenStopped(s, text);
      }
    }
  }

  lemma NotBoundAtEnd(s: State, text: string)
    requires s.worker == Ended
    ensures !BoundToSend(s, text)
  {
  }

  // ----- two runs that lose a fatal error -----

  /** The worker has made its first "OK" and is about to reset the flag. */
  function FirstOk(s: State): (r: State) {
    s.(localWorks := true, sendOne := false, message := "OK", worker := Reset, log := s.log + [ResetDone])
  }

  const ToReset: seq<Step> :=
    [WorkerStep(false), WorkerStep(false), WorkerStep(false), WorkerStep(false), WorkerStep(false)]

  lemma RunsToReset(s: State, rest: seq<Step>)
    requires Initial(s) && (s.ownFlag || s.globalWorks) && CanRun(FirstOk(s), rest)
    ensures CanRun(s, ToReset + rest) && Run(s, ToReset + rest) == Run(FirstOk(s), rest)
  {
    hide CanRun, Run;
    var go := WorkerStep(false);
    var s1 := Apply(s, go);
    var s2 := Apply(s1, go);
    var s3 := Apply(s2, go);
    var s4 := Apply(s3, go);
    assert s4.status == Ok && Apply(s4, go) == FirstOk(s);
    RunCons(s4, go, rest);
    RunCons(s3, go, [go] + rest);
    RunCons(s2, go, [go] + ([go] + rest));
    RunCons(s1, go, [go] + ([go] + ([go] + rest)));
    RunCons(s, go, [go] + ([go] + ([go] + ([go] + rest))));
    assert ToReset + rest == [go] + ([go] + ([go] + ([go] + ([go] + rest))));
  }

  const DiskError: seq<Step> := [NotifyStatus(DiskWrite), NotifyFlag]

  lemma Notifies(s: State)
    ensures CanRun(s, DiskError)
    ensures Run(s, DiskError) == s.(status := DiskWrite, sendOne := true, log := s.log + [FlagStored])
  {
    hide CanRun, Run;
    var s1 := Apply(s, NotifyStatus(DiskWrite));
    RunNone(Apply(s1, NotifyFlag));
    RunCons(s1, NotifyFlag, []);
    assert [NotifyFlag] + [] == [NotifyFlag];
    RunCons(s, NotifyStatus(DiskWrite), [NotifyFlag]);
    assert [NotifyStatus(DiskWrite)] + [NotifyFlag] == DiskError;
  }

  /** From start: a disk error notified right after the worker made its first "OK". */
  lemma DiskErrorLost(s: State)
    requires Initial(s) && (s.ownFlag || s.globalWorks)
    ensures var steps := ToReset + DiskError;
            CanRun(s, steps) && !GetsThrough(Run(s, steps), "FATAL: Disk Write")
  {
    hide CanRun, Run, GetsThrough, ToReset, DiskError;
    Notifies(FirstOk(s));
    RunsToReset(s, DiskError);
    StatusGetsThroughIff(Run(FirstOk(s), DiskError), "FATAL: Disk Write");
  }

  /** On from there: reset, send, and a sleep after which the worker finds itself late. */
  const ToTimeOut: seq<Step> := [WorkerStep(false), WorkerStep(false), WorkerStep(true)]

  function Late(s: State): (r: State) {
    s.(sendOne := false, worker := TimeOut, log := s.log + [WorkerSent(s.message)])
  }

  lemma RunsToTimeOut(s: State, rest: seq<Step>)
    requires s.worker == Reset && s.status != Off && CanRun(Late(s), rest)
    ensures CanRun(s, ToTimeOut + rest) && Run(s, ToTimeOut + rest) == Run(Late(s), rest)
  {
    hide CanRun, Run;
    var go, late := WorkerStep(false), WorkerStep(true);
    var s1 := Apply(s, go);
    var s2 := Apply(s1, go);
    assert Apply(s2, late) == Late(s);
    RunCons(s2, late, rest);
    RunCons(s1, go, [late] + rest);
    RunCons(s, go, [go] + ([late] + rest));
    assert ToTimeOut + rest == [go] + ([go] + ([late] + rest));
  }

  /** From start: a disk error notified between the worker's test of its clock and its
      store of the time-out, which replaces it. */
  lemma DiskErrorTimedOut(s: State)
    requires Initial(s) && (s.ownFlag || s.globalWorks)
    ensures var steps := ToReset + (ToTimeOut + DiskError);
            CanRun(s, steps) && !GetsThrough(Run(s, steps), "FATAL: Disk Write")
  {
    hide CanRun, Run, GetsThrough, ToReset, ToTimeOut, DiskError;
    var late := Late(FirstOk(s));
    Notifies(late);
    RunsToTimeOut(FirstOk(s), DiskError);
    RunsToReset(s, ToTimeOut + DiskError);
    StatusGetsThroughIff(Run(late, DiskError), "FATAL: Disk Write");
  }
}
