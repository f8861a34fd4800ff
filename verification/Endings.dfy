/** When the two loops of the program end, read off the last event and the pass it belongs to. */
module Endings {
  import opened Wrappers
  import opened Protocol
  import opened NodeSafety
  import opened PassOutcome

  // ----- The reboot loop -----

  predicate HandedOn(pass: seq<Event>) {
    exists e | e in pass :: e.Hooked?
  }

  predicate ReadyResult(result: PassResult) {
    result.Done? && result.status == Ready
  }

  /** Whether the pass has been handed on is a matter of the place; a ready outcome that owns nothing is one that does not reboot. */
  ghost predicate Placed(c: NodeConfig, pc: Pc, pass: seq<Event>) {
    match pc
    case Idle => true
    case Stopped => true
    case HealthAt(run, _) => !run.HeartbeatRun? && !HandedOn(pass)
    case HeartbeatIdle => false
    case HeartbeatSleeping => false
    case Returned(result) => !HandedOn(pass) && (ReadyResult(result) ==> !c.Reboots())
    case Unlocking(_, PassEnds(result)) => !HandedOn(pass) && (ReadyResult(result) ==> !c.Reboots())
    case Closing(_, PassEnds(result), _) => !HandedOn(pass) && (ReadyResult(result) ==> !c.Reboots())
    case Unlocking(_, AcquireFails) => !HandedOn(pass)
    case Closing(_, AcquireFails, _) => !HandedOn(pass)
    case Unlocking(_, LoopEnds) => HandedOn(pass)
    case Closing(_, LoopEnds, _) => HandedOn(pass)
    case Handled(_) => HandedOn(pass)
    case Putting(_, _) => HandedOn(pass)
    case Revoking(_, _) => HandedOn(pass)
    case Starting(_) => HandedOn(pass)
    case Executing(_) => HandedOn(pass)
    case Rebooting(_) => HandedOn(pass)
    case _ => !HandedOn(pass)
  }

  /**
   The loop ends with this event, the last of its pass: cancelled before a pass or while it waits, with a ready outcome that is not
   to reboot, with a reboot command that succeeded, or with the lease given back after a pass was handed on.
   */
  predicate EndsLoop(c: NodeConfig, pass: seq<Event>, e: Event) {
    match e
    case Began(cancelled) => cancelled
    case Slept(_, ok) => !ok
    case ErrorSlept(_, ok) => !ok
    case Hooked(status) => status == Ready && !c.Reboots()
    case ExecEnded(ok) => ok
    case Closed(_, _) => HandedOn(pass)
    case _ => false
  }

  /** A step keeps the places, and leads to the end exactly with such an event. */
  ghost predicate Kept(c: NodeConfig, pc': Pc, pass: seq<Event>, e: Event) {
    Placed(c, pc', Extended(pass, e)) && (Ended(pc') <==> EndsLoop(c, Extended(pass, e), e))
  }

  lemma OneMoreHandedOn(pass: seq<Event>, e: Event)
    ensures HandedOn(Extended(pass, e)) <==> e.Hooked? || (!e.Began? && HandedOn(pass))
  {
    assert forall f :: f in pass + [e] <==> f in pass || f == e;
  }

  lemma KeptBeforeLock(c: NodeConfig, pc: Pc, e: Event, pass: seq<Event>)
    requires Placed(c, pc, pass)
    ensures NextBeforeLock(c, pc, e).Some? ==> Kept(c, NextBeforeLock(c, pc, e).value, pass, e)
  {
    OneMoreHandedOn(pass, e);
    hide HandedOn, Extended, Allows, WindowEvaluator.Decide, NodeConfig.Reboots;
  }

  lemma KeptAcquiring(c: NodeConfig, pc: Pc, e: Event, pass: seq<Event>)
    requires Placed(c, pc, pass)
    ensures NextAcquiring(c, pc, e).Some? ==> Kept(c, NextAcquiring(c, pc, e).value, pass, e)
  {
    OneMoreHandedOn(pass, e);
    hide HandedOn, Extended, NodeConfig.LockBackoffCeiling, NodeConfig.LockBackoffMin, NodeConfig.Reboots;
  }

  lemma KeptUnderLock(c: NodeConfig, pc: Pc, e: Event, pass: seq<Event>)
    requires Placed(c, pc, pass)
    ensures NextUnderLock(c, pc, e).Some? ==> Kept(c, NextUnderLock(c, pc, e).value, pass, e)
  {
    OneMoreHandedOn(pass, e);
    hide HandedOn, Extended, Allows, NodeConfig.Reboots;
  }

  lemma KeptInLoop(c: NodeConfig, pc: Pc, e: Event, pass: seq<Event>)
    requires Placed(c, pc, pass) && Fits(c, pc)
    ensures NextInLoop(c, pc, e).Some? ==> Kept(c, NextInLoop(c, pc, e).value, pass, e)
  {
    OneMoreHandedOn(pass, e);
    hide HandedOn, Extended, NodeConfig.CooldownSeconds, NodeConfig.RoundInterval, NodeConfig.Reboots;
  }

  lemma KeptHealth(c: NodeConfig, pc: Pc, e: Event, pass: seq<Event>)
    requires Placed(c, pc, pass) && pc.HealthAt?
    ensures NextHealth(c, pc.run, pc.stage, e).Some? ==> Kept(c, NextHealth(c, pc.run, pc.stage, e).value, pass, e)
  {
    OneMoreHandedOn(pass, e);
    hide HandedOn, Extended, NodeConfig.PublishesHealth, NodeConfig.Reboots;
  }

  lemma NoHeartbeat(c: NodeConfig, pc: Pc, e: Event, pass: seq<Event>)
    requires Placed(c, pc, pass)
    ensures NextHeartbeat(c, pc, e) == None
  {
  }

  lemma KeptStep(c: NodeConfig, pc: Pc, e: Event, pass: seq<Event>)
    requires Placed(c, pc, pass) && Fits(c, pc) && Next(c, pc, e).Some?
    ensures Kept(c, Next(c, pc, e).value, pass, e)
  {
    hide *;
    NextCases(c, pc, e);
    KeptBeforeLock(c, pc, e, pass);
    KeptAcquiring(c, pc, e, pass);
    KeptUnderLock(c, pc, e, pass);
    KeptInLoop(c, pc, e, pass);
    NoHeartbeat(c, pc, e, pass);
    if pc.HealthAt? {
      KeptHealth(c, pc, e, pass);
    }
  }

  /** The loop has ended exactly when its last event is such an event. */
  lemma {:induction false} LoopEndsExactly(c: NodeConfig, trace: seq<Event>)
    requires After(c, Idle, trace).Some?
    ensures Fits(c, After(c, Idle, trace).value) && Placed(c, After(c, Idle, trace).value, CurrentPass(trace))
    ensures Ended(After(c, Idle, trace).value)
       <==> trace != [] && EndsLoop(c, CurrentPass(trace), trace[|trace| - 1])
  {
    hide Next, Placed, Fits, EndsLoop, Ended;
    if trace == [] {
      AtIdle(c);
    } else {
      var before, e := trace[..|trace| - 1], trace[|trace| - 1];
      LoopEndsExactly(c, before);
      var pc := After(c, Idle, before).value;
      GateStep(c, pc, e);
      KeptStep(c, pc, e, CurrentPass(before));
    }
  }

  lemma AtIdle(c: NodeConfig)
    ensures Fits(c, Idle) && Placed(c, Idle, []) && !Ended(Idle)
  {
  }

  // ----- The heartbeat -----

  /**
   The heartbeat ends with this event: cancelled before a round, while it waits, while it writes its report, or while the script
   runs, which is seen when the mutex is released. Any other failure it survives.
   */
  predicate EndsHeartbeat(round: seq<Event>, e: Event) {
    match e
    case Began(cancelled) => cancelled
    case Slept(_, ok) => !ok
    case Reported(_, _, write) => write == WriteFailed(true)
    case MutexReleased => LastReading(round).Some? && LastReading(round).value.ScriptRan?
                          && LastReading(round).value.script == ScriptFailed(true)
    case _ => false
  }

  predicate Beats(pc: Pc) {
    pc.HeartbeatIdle? || pc.HeartbeatSleeping? || pc.Stopped? || (pc.HealthAt? && pc.run.HeartbeatRun?)
  }

  lemma BeatStep(c: NodeConfig, pc: Pc, e: Event, round: seq<Event>)
    requires Beats(pc) && Told(c, pc, round) && Next(c, pc, e).Some?
    ensures Beats(Next(c, pc, e).value)
    ensures Next(c, pc, e).value.Stopped? <==> EndsHeartbeat(Extended(round, e), e)
  {
    hide HasFailure, HasLock, LastReading, Tries, Untold, NodeConfig.PublishesHealth, ClusterPolicy.Blocks, WindowEvaluator.Decide;
    hide NodeConfig.LockBackoffCeiling, NodeConfig.LockBackoffMin;
    if !e.Began? {
      OneMore(round, e);
    }
  }

  /** The heartbeat has ended exactly when its last event is such an event. */
  lemma {:induction false} HeartbeatEndsExactly(c: NodeConfig, trace: seq<Event>)
    requires c.maxLockTries > 0 && After(c, HeartbeatIdle, trace).Some?
    ensures Beats(After(c, HeartbeatIdle, trace).value)
    ensures After(c, HeartbeatIdle, trace) == Some(Stopped)
       <==> trace != [] && EndsHeartbeat(CurrentPass(trace), trace[|trace| - 1])
  {
    hide Next, Told, Fits, ReportsFit, EndsHeartbeat;
    if trace != [] {
      var before, e := trace[..|trace| - 1], trace[|trace| - 1];
      HeartbeatEndsExactly(c, before);
      TraceIsTold(c, HeartbeatIdle, before);
      BeatStep(c, After(c, HeartbeatIdle, before).value, e, CurrentPass(before));
    }
  }
}
