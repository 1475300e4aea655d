/**
 What the watchdog's messages say, and what its flags do: the text sent for each status, the
 external flag, and the status that never times out.
 */
module WatchdogTexts {
  import opened Watchdog
  import opened WatchdogStop

  /** The messages of start and stop. */
  lemma MainTexts()
    ensures StartText == "Module Start" && StopText == "Module Stop"
  {
  }

  /** start once the client is open: make and send its message, notify that all is well, and
      set the worker going. */
  function Start(s: State): (r: State) {
    var made := s.(message := "Module Start");
    var sent := made.(log := [MainSent(made.message)]);
    var notified := sent.(status := Ok, sendOne := true, log := sent.log + [FlagStored]);
    notified.(worker := SetLocal, main := Working)
  }

  /** The states that runs begin in are those that start leaves. */
  lemma StartLeaves(s: State)
    ensures Initial(Start(s)) && (Initial(s) <==> s == Start(s))
  {
    MainTexts();
  }

  const Reported: seq<Status> := [
    Ok, StreamOpening, StreamInfo, StreamLookup, FrameReceiving, DiskWrite, FrameTimeout,
    FrameTimeoutFifo, OutputReconnect, OutputHeader, OutputFrame, AsyncTimeout, BadFrameHead]

  const Texts: seq<string> := [
    "OK", "ERROR: Stream Opening", "ERROR: Stream Info", "ERROR: Stream Lookup", "ERROR: Frame Receiving",
    "FATAL: Disk Write", "ERROR: Frame Receiving Timeout", "FATAL: Frame Receiving Timeout",
    "FATAL: Output Reconnect", "FATAL: Output Header Send", "FATAL: Output Frame Send", "ERROR: Async Timeout",
    "FATAL: Invalid input frame header length"]

  /** Each status has its own text; off and startup have none. */
  lemma TextTable(i: nat)
    requires i < 13
    ensures Message(Reported[i]) == Some(Texts[i])
  {
  }

  lemma NoText(st: Status)
    ensures Message(st) == None <==> st == Off || st == Startup
    ensures st in Reported <==> st != Off && st != Startup
  {
    assert Reported[0] == Ok && Reported[1] == StreamOpening && Reported[2] == StreamInfo && Reported[3] == StreamLookup;
    assert Reported[4] == FrameReceiving && Reported[5] == DiskWrite && Reported[6] == FrameTimeout;
    assert Reported[7] == FrameTimeoutFifo && Reported[8] == OutputReconnect && Reported[9] == OutputHeader;
    assert Reported[10] == OutputFrame && Reported[11] == AsyncTimeout && Reported[12] == BadFrameHead;
  }

  const OneSend: seq<Step> := [WorkerStep(false), WorkerStep(false), WorkerStep(false)]

  /** A worker about to make its message sends the text of the status, and for a status
      without one the message it sent before. */
  lemma RoundSends(s: State, i: nat)
    requires s.worker == Create && i < 13
    ensures CanRun(s, OneSend)
    ensures s.status == Reported[i] ==> Run(s, OneSend).log == s.log + [WorkerSent(Texts[i])]
    ensures s.status == Off || s.status == Startup ==> Run(s, OneSend).log == s.log + [WorkerSent(s.message)]
  {
    hide CanRun, Run, Message, Reported, Texts;
    var go := WorkerStep(false);
    var s1 := Apply(s, go);
    var s2 := Apply(s1, go);
    RunNone(Apply(s2, go));
    RunCons(s2, go, []);
    RunCons(s1, go, [go] + []);
    RunCons(s, go, [go] + ([go] + []));
    assert OneSend == [go] + ([go] + ([go] + []));
    NoText(s.status);
    TextTable(i);
  }

  // ----- the external flag -----

  predicate Cleared(s: State) { !s.ownFlag && !s.globalWorks }

  /** A worker that has already seen the flag set may go once more round. */
  function RoundsLeft(s: State): (r: nat)
    ensures r == 0 <==> s.worker == Ended
  {
    StepsLeft(s) + if s.worker == TestLocal && s.localWorks then 8 else 0
  }

  lemma ClearedStep(s: State, step: Step)
    requires Cleared(s) && Enabled(s, step) && step != SetGlobal(true)
    ensures var s' := Apply(s, step);
            && Cleared(s')
            && RoundsLeft(s') + (if step.WorkerStep? then 1 else 0) <=
               RoundsLeft(s) + (if step == NotifyFlag then 8 else 0)
  {
  }

  /** Clearing the external flag ends the worker as stop does, in every interleaving in which
      it is not set again. */
  lemma {:induction false} ClearedEnds(s: State, steps: seq<Step>)
    requires Cleared(s) && CanRun(s, steps) && forall i :: 0 <= i < |steps| ==> steps[i] != SetGlobal(true)
    ensures Cleared(Run(s, steps))
    ensures WorkerSteps(steps) + RoundsLeft(Run(s, steps)) <= RoundsLeft(s) + 8 * FlagStores(steps)
    decreases steps
  {
    hide RoundsLeft, Cleared, Apply, Enabled;
    if steps != [] {
      ClearedStep(s, steps[0]);
      ClearedEnds(Apply(s, steps[0]), steps[1..]);
    }
  }

  // ----- time-outs -----

  /** A status stays until somebody notifies another, provided that it is off or the worker
      is never late. */
  lemma {:induction false} StatusStays(s: State, steps: seq<Step>)
    requires s.worker != TimeOut && CanRun(s, steps)
    requires forall i :: 0 <= i < |steps| ==> !steps[i].NotifyStatus?
    requires s.status == Off || forall i :: 0 <= i < |steps| ==> steps[i] != WorkerStep(true)
    ensures Run(s, steps).status == s.status && Run(s, steps).worker != TimeOut
    decreases steps
  {
    if steps != [] {
      var s' := Apply(s, steps[0]);
      assert s'.status == s.status && s'.worker != TimeOut;
      StatusStays(s', steps[1..]);
    }
  }

  /** A late worker replaces any other status by the time-out. */
  lemma LateTimesOut(s: State)
    requires s.worker == Sleep && s.status != Off
    ensures var steps := [WorkerStep(true), WorkerStep(false)];
            CanRun(s, steps) && Run(s, steps) == s.(status := AsyncTimeout, worker := TestGlobal)
  {
    hide CanRun, Run;
    var late, go := WorkerStep(true), WorkerStep(false);
    var s1 := Apply(s, late);
    RunNone(Apply(s1, go));
    RunCons(s1, go, []);
    assert [go] + [] == [go];
    RunCons(s, late, [go]);
    assert [late] + [go] == [late, go];
  }
}
