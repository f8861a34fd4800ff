/**
 What a pass comes to, read off its events alone: which reading decides which status, and which answers make a pass fail. The
 protocol says the same of every trace.
 */
module PassOutcome {
  import opened Wrappers
  import opened ClusterPolicy
  import opened WindowEvaluator
  import opened WindowLanguage
  import opened Protocol
  import opened NodeSafety

  // ----- Events of a pass -----

  /** An answer that a check is decided by. */
  predicate IsReading(e: Event) {
    || e.KillRead? || e.WindowRead? || e.Detected? || e.Inspected? || e.ScriptRan? || e.CooldownRead? || e.TtlRead?
    || e.TryLocked?
  }

  /** An answer that ends a pass with an error. */
  predicate IsFailure(e: Event) {
    match e
    case KillRead(_, kill) => kill.KillFailed?
    case Detected(_, detect) => detect.DetectFailed?
    case Inspected(_, records) => records.None?
    case ScriptRan(_, _, _, script) => script.ScriptFailed?
    case Reported(_, _, write) => write.WriteFailed?
    case CooldownRead(cooldown) => cooldown.CooldownUnread?
    case TtlRead(_, ttl) => ttl.None?
    case TryLocked(lock) => lock.TryFailed?
    case Annotated(_, ok) => !ok
    case BackedOff(_, ok) => !ok
    case Unlocked(_, ok) => !ok
    case Closed(_, ok) => !ok
    case _ => false
  }

  predicate HasFailure(pass: seq<Event>) {
    exists e | e in pass :: IsFailure(e)
  }

  predicate HasLock(pass: seq<Event>) {
    exists e | e in pass :: e.Annotated? && e.ok
  }

  function LastReading(pass: seq<Event>): Option<Event> {
    if pass == [] then None
    else if IsReading(pass[|pass| - 1]) then Some(pass[|pass| - 1])
    else LastReading(pass[..|pass| - 1])
  }

  function Tries(pass: seq<Event>): nat {
    if pass == [] then 0 else Tries(pass[..|pass| - 1]) + if pass[|pass| - 1].TryLocked? then 1 else 0
  }

  /** The verdict of the last script run, if it has not been reported since. */
  function Untold(pass: seq<Event>): Option<(Phase, int)> {
    if pass == [] then None
    else
      var e := pass[|pass| - 1];
      if e.ScriptRan? && e.script.Exit? then Some((e.phase, e.script.code))
      else if e.Reported? then None
      else Untold(pass[..|pass| - 1])
  }

  /** Where verdicts are told, a report tells the one that is still to be told, and no script runs before it is; else nothing is. */
  ghost predicate ReportsFit(c: NodeConfig, pass: seq<Event>) {
    forall i | 0 <= i < |pass| :: EventFits(c, pass[..i], pass[i])
  }

  predicate EventFits(c: NodeConfig, before: seq<Event>, e: Event) {
    && (e.Reported? ==> c.PublishesHealth() && Untold(before) == Some((e.phase, e.code)))
    && (e.ScriptRan? && c.PublishesHealth() ==> Untold(before) == None)
  }

  /** The last reading of the pass decides for this status. */
  ghost predicate Decides(c: NodeConfig, pass: seq<Event>, status: Status) {
    var last := LastReading(pass);
    last.Some? &&
    match status
    case NoAction =>
      last.value == ScriptRan(MonitorPhase, false, 0, Exit(0)) && Detected(PreLock, NothingNeeded) in pass
    case KillSwitchActive => last.value.KillRead? && last.value.kill == KillOn
    case HealthBlocked =>
      || (last.value.ScriptRan? && last.value.script.Exit? && last.value.script.code != 0)
      || (last.value.Inspected? && last.value.records.Some? && Blocks(c.name, c.policies, last.value.records.value))
    case WindowDenied => last.value.WindowRead? && ReadAgainst(c, last.value.second, true)
    case WindowOutside => last.value.WindowRead? && ReadAgainst(c, last.value.second, false)
    case LockUnavailable => last.value == TryLocked(Busy) && Tries(pass) == c.maxLockTries
    case LockSkipped => !c.lockEnabled && PassesTo(c, last.value)
    case RecheckCleared => last.value == Detected(PostLock, NothingNeeded)
    case CooldownActive =>
      || last.value == CooldownRead(Present(None))
      || (last.value.TtlRead? && last.value.ttl.Some? && last.value.ttl.value > 0)
    case Ready => last.value == ScriptRan(PostLock, true, Tries(pass), Exit(0))
  }

  /** The windows forbid the second, by a deny window or for want of an allow window. */
  ghost predicate ReadAgainst(c: NodeConfig, second: nat, denied: bool) {
    c.windows.Some? && second < WEEK && !Decide(c.windows.value, second).allowed
    && (Decide(c.windows.value, second).matchedDeny.Some? <==> denied)
  }

  /** The last check before the lock came out in favour. */
  predicate PassesTo(c: NodeConfig, e: Event) {
    if c.cooldown == 0 then e == ScriptRan(PreLock, false, 0, Exit(0))
    else e == CooldownRead(Absent) || (e.TtlRead? && e.ttl.Some? && e.ttl.value <= 0)
  }

  /** No reading decides for two statuses. */
  lemma DecidesOne(c: NodeConfig, pass: seq<Event>, s: Status, t: Status)
    requires Decides(c, pass, s) && Decides(c, pass, t)
    ensures s == t
  {
    hide Blocks, Decide;
  }

  // ----- What holds at each place of a pass -----

  ghost predicate Smooth(pass: seq<Event>, locked: bool, tries: nat) {
    !HasFailure(pass) && HasLock(pass) == locked && Tries(pass) == tries
  }

  ghost predicate Settled(c: NodeConfig, pass: seq<Event>) {
    c.PublishesHealth() ==> Untold(pass) == None
  }

  ghost predicate Called(c: NodeConfig, run: HealthRun, pass: seq<Event>) {
    (run.MonitorRun? ==> Detected(PreLock, NothingNeeded) in pass) && (run.HeartbeatRun? ==> c.PublishesHealth())
  }

  function AttemptsOf(run: HealthRun): nat {
    if run.PostLockRun? then run.attempts else 0
  }

  ghost predicate InHealth(c: NodeConfig, run: HealthRun, stage: HealthStage, pass: seq<Event>) {
    Called(c, run, pass) && HasLock(pass) == run.PostLockRun? && Tries(pass) == AttemptsOf(run)
    && match stage
       case WaitingMutex => !HasFailure(pass) && Settled(c, pass)
       case InScript => !HasFailure(pass) && Settled(c, pass)
       case InMutex(script) =>
         && HasFailure(pass) == script.ScriptFailed?
         && LastReading(pass) == Some(ScriptRan(run.Phase(), run.PostLockRun?, AttemptsOf(run), script))
         && (if script.Exit? then Untold(pass) == Some((run.Phase(), script.code)) else Settled(c, pass))
       case Reporting(code) =>
         && !HasFailure(pass) && c.PublishesHealth()
         && LastReading(pass) == Some(ScriptRan(run.Phase(), run.PostLockRun?, AttemptsOf(run), Exit(code)))
         && Untold(pass) == Some((run.Phase(), code))
  }

  ghost predicate CameTo(c: NodeConfig, result: PassResult, pass: seq<Event>) {
    match result
    case Failed => HasFailure(pass)
    case Done(status, locked) => !HasFailure(pass) && Decides(c, pass, status) && locked == HasLock(pass)
    case Holding(_) => !HasFailure(pass) && Decides(c, pass, Ready) && HasLock(pass) && c.Reboots()
  }

  /** The cooldown was granted for its time, and is kept under that grant. */
  ghost predicate CooldownBegun(c: NodeConfig, pass: seq<Event>) {
    exists lease :: LeaseGranted(c.CooldownSeconds(), Some(lease)) in pass && CooldownPut(lease, true) in pass
  }

  /** What the events of a pass say where it is. */
  ghost predicate Told(c: NodeConfig, pc: Pc, pass: seq<Event>) {
    match pc
    case HealthAt(run, stage) => InHealth(c, run, stage, pass)
    case KillPre => Smooth(pass, false, 0) && Settled(c, pass)
    case WindowPre => Smooth(pass, false, 0) && Settled(c, pass)
    case DetectPre => Smooth(pass, false, 0) && Settled(c, pass)
    case InspectPre => Smooth(pass, false, 0) && Settled(c, pass)
    case CooldownPre => Smooth(pass, false, 0) && Settled(c, pass) && c.cooldown > 0
    case TtlPre(_) => Smooth(pass, false, 0) && Settled(c, pass) && c.cooldown > 0
    case Trying(attempt) => Smooth(pass, false, attempt) && Settled(c, pass) && attempt < c.maxLockTries
    case Annotating(attempt, _) => Smooth(pass, false, attempt + 1) && Settled(c, pass)
    case BackingOff(attempt) => Smooth(pass, false, attempt + 1) && Settled(c, pass) && attempt + 1 < c.maxLockTries
    case KillPost(_, attempts) => Smooth(pass, true, attempts) && Settled(c, pass)
    case InspectPost(_, attempts) => Smooth(pass, true, attempts) && Settled(c, pass)
    case DetectPost(_, attempts) => Smooth(pass, true, attempts) && Settled(c, pass)
    case Unlocking(_, PassEnds(result)) => Settled(c, pass) && CameTo(c, result, pass)
    case Unlocking(_, AcquireFails) => Settled(c, pass) && HasFailure(pass)
    case Closing(_, PassEnds(result), unlocked) => Settled(c, pass) && CameTo(c, if unlocked then result else Failed, pass)
    case Closing(_, AcquireFails, _) => Settled(c, pass) && HasFailure(pass)
    case Returned(result) => Settled(c, pass) && CameTo(c, result, pass)
    case Putting(_, lease) => LeaseGranted(c.CooldownSeconds(), Some(lease)) in pass
    case Starting(_) => CooldownBegun(c, pass)
    case HeartbeatSleeping =>
      && Settled(c, pass)
      && (if c.PublishesHealth() then LastReading(pass).Some? && LastReading(pass).value.ScriptRan?
                                      && LastReading(pass).value.phase == HeartbeatPhase
          else LastReading(pass) == None)
    case _ => true
  }

  // ----- Each step -----

  /** What one more event adds. */
  lemma OneMore(pass: seq<Event>, e: Event)
    ensures HasFailure(pass + [e]) <==> HasFailure(pass) || IsFailure(e)
    ensures HasLock(pass + [e]) <==> HasLock(pass) || (e.Annotated? && e.ok)
    ensures LastReading(pass + [e]) == if IsReading(e) then Some(e) else LastReading(pass)
    ensures Tries(pass + [e]) == Tries(pass) + if e.TryLocked? then 1 else 0
    ensures Untold(pass + [e])
         == if e.ScriptRan? && e.script.Exit? then Some((e.phase, e.script.code)) else if e.Reported? then None else Untold(pass)
    ensures forall f :: f in pass + [e] <==> f in pass || f == e
  {
    assert (pass + [e])[..|pass|] == pass;
    hide IsFailure, IsReading;
    assert forall f :: f in pass + [e] <==> f in pass || f == e;
  }

  lemma Beginning(cancelled: bool)
    ensures var pass := [Began(cancelled)];
      && !HasFailure(pass) && !HasLock(pass) && Tries(pass) == 0 && Untold(pass) == None && LastReading(pass) == None
  {
    assert [] + [Began(cancelled)] == [Began(cancelled)];
    OneMore([], Began(cancelled));
  }

  lemma ToldBeforeLock(c: NodeConfig, pc: Pc, e: Event, pass: seq<Event>)
    requires Told(c, pc, pass) && !e.Began? && c.maxLockTries > 0
    ensures NextBeforeLock(c, pc, e).Some? ==> Told(c, NextBeforeLock(c, pc, e).value, pass + [e])
  {
    OneMore(pass, e);
    hide HasFailure, HasLock, LastReading, Tries, Untold, Blocks, Decide;
  }

  lemma ToldAcquiring(c: NodeConfig, pc: Pc, e: Event, pass: seq<Event>)
    requires Told(c, pc, pass) && !e.Began? && c.maxLockTries > 0
    ensures NextAcquiring(c, pc, e).Some? ==> Told(c, NextAcquiring(c, pc, e).value, pass + [e])
  {
    OneMore(pass, e);
    hide HasFailure, HasLock, LastReading, Tries, Untold, NodeConfig.LockBackoffCeiling, NodeConfig.LockBackoffMin;
  }

  lemma ToldUnderLock(c: NodeConfig, pc: Pc, e: Event, pass: seq<Event>)
    requires Told(c, pc, pass) && !e.Began?
    ensures NextUnderLock(c, pc, e).Some? ==> Told(c, NextUnderLock(c, pc, e).value, pass + [e])
  {
    OneMore(pass, e);
    hide HasFailure, HasLock, LastReading, Tries, Untold, Blocks;
  }

  lemma ToldInLoop(c: NodeConfig, pc: Pc, e: Event, pass: seq<Event>)
    requires Told(c, pc, pass)
    ensures NextInLoop(c, pc, e).Some? ==> Told(c, NextInLoop(c, pc, e).value, pass + [e])
  {
    hide HasFailure, HasLock, LastReading, Tries, Untold, Decides, NodeConfig.CooldownSeconds, NodeConfig.Reboots;
  }

  lemma ToldHeartbeat(c: NodeConfig, pc: Pc, e: Event, pass: seq<Event>)
    requires !e.Began?
    ensures NextHeartbeat(c, pc, e).Some? ==> Told(c, NextHeartbeat(c, pc, e).value, pass + [e])
  {
  }

  lemma ToldHealth(c: NodeConfig, pc: Pc, e: Event, pass: seq<Event>)
    requires pc.HealthAt? && Fits(c, pc) && Told(c, pc, pass) && !e.Began? && c.maxLockTries > 0
    ensures NextHealth(c, pc.run, pc.stage, e).Some? ==> Told(c, NextHealth(c, pc.run, pc.stage, e).value, pass + [e])
  {
    OneMore(pass, e);
    hide HasFailure, HasLock, LastReading, Tries, Untold, Blocks, Decide, NodeConfig.PublishesHealth;
  }

  lemma ToldBegan(c: NodeConfig, pc: Pc, cancelled: bool)
    ensures Next(c, pc, Began(cancelled)).Some? ==>
      Told(c, Next(c, pc, Began(cancelled)).value, [Began(cancelled)]) && (pc.Idle? || pc.HeartbeatIdle?)
  {
    Beginning(cancelled);
    hide HasFailure, HasLock, LastReading, Tries, Untold, Blocks, Decide, NodeConfig.LockBackoffCeiling, NodeConfig.LockBackoffMin;
  }

  lemma ToldStep(c: NodeConfig, pc: Pc, e: Event, pass: seq<Event>)
    requires Told(c, pc, pass) && Fits(c, pc) && Next(c, pc, e).Some? && c.maxLockTries > 0
    ensures Told(c, Next(c, pc, e).value, Extended(pass, e))
  {
    if e.Began? {
      ToldBegan(c, pc, e.cancelled);
    } else {
      hide Next, NextHealth, NextBeforeLock, NextAcquiring, NextUnderLock, NextHeartbeat, NextInLoop, Told, Fits;
      NextCases(c, pc, e);
      ToldBeforeLock(c, pc, e, pass);
      ToldAcquiring(c, pc, e, pass);
      ToldUnderLock(c, pc, e, pass);
      ToldInLoop(c, pc, e, pass);
      ToldHeartbeat(c, pc, e, pass);
      if pc.HealthAt? {
        ToldHealth(c, pc, e, pass);
      }
    }
  }

  // ----- Reports -----

  /** A report comes where the verdict of the script is still to be told, and tells it. */
  lemma ReportFits(c: NodeConfig, pc: Pc, e: Event, pass: seq<Event>)
    requires Told(c, pc, pass) && Next(c, pc, e).Some?
    ensures EventFits(c, pass, e)
  {
    hide HasFailure, HasLock, LastReading, Tries, Untold, Blocks, Decide, NodeConfig.PublishesHealth;
    hide NodeConfig.LockBackoffCeiling, NodeConfig.LockBackoffMin;
  }

  lemma ReportsStep(c: NodeConfig, pc: Pc, e: Event, pass: seq<Event>)
    requires Told(c, pc, pass) && Next(c, pc, e).Some? && ReportsFit(c, pass)
    ensures ReportsFit(c, Extended(pass, e))
  {
    hide Told, Next, EventFits;
    if e.Began? {
      BeganFits(c, e.cancelled);
    } else {
      ReportFits(c, pc, e, pass);
      forall i | 0 <= i < |pass + [e]|
        ensures EventFits(c, (pass + [e])[..i], (pass + [e])[i])
      {
        assert (pass + [e])[..i] == if i == |pass| then pass else pass[..i];
      }
    }
  }

  lemma BeganFits(c: NodeConfig, cancelled: bool)
    ensures ReportsFit(c, [Began(cancelled)])
  {
  }

  // ----- Over a trace -----

  predicate Starts(pc: Pc) {
    pc == Idle || pc == HeartbeatIdle
  }

  lemma AtStart(c: NodeConfig, start: Pc)
    requires Starts(start)
    ensures Told(c, start, []) && Fits(c, start) && ReportsFit(c, [])
  {
  }

  lemma {:induction false} TraceIsTold(c: NodeConfig, start: Pc, trace: seq<Event>)
    requires c.maxLockTries > 0 && Starts(start) && After(c, start, trace).Some?
    ensures var pc := After(c, start, trace).value;
      Fits(c, pc) && Told(c, pc, CurrentPass(trace)) && ReportsFit(c, CurrentPass(trace))
  {
    hide Next, Told, Fits, ReportsFit;
    if trace == [] {
      AtStart(c, start);
    } else {
      var before, e := trace[..|trace| - 1], trace[|trace| - 1];
      TraceIsTold(c, start, before);
      var pc := After(c, start, before).value;
      GateStep(c, pc, e);
      ToldStep(c, pc, e, CurrentPass(before));
      ReportsStep(c, pc, e, CurrentPass(before));
    }
  }

  lemma BeforeEvent(c: NodeConfig, trace: seq<Event>, i: nat)
    requires c.maxLockTries > 0 && After(c, Idle, trace).Some? && i < |trace|
    ensures After(c, Idle, trace[..i]).Some?
    ensures var pc := After(c, Idle, trace[..i]).value;
      Next(c, pc, trace[i]).Some? && Told(c, pc, CurrentPass(trace[..i])) && ReportsFit(c, CurrentPass(trace[..i]))
  {
    hide Next, Told, ReportsFit;
    PrefixRuns(c, Idle, trace, i + 1);
    assert trace[..i + 1][..i] == trace[..i];
    TraceIsTold(c, Idle, trace[..i]);
  }

  /** The result of a pass is the one that is handed on, or a failure. */
  predicate Returns(result: PassResult, e: Event) {
    match e
    case Hooked(status) => result == Done(status, true) || result == Done(status, false) || (result.Holding? && status == Ready)
    case ErrorSlept(_, _) => result == Failed
    case _ => false
  }

  lemma ReturnedBefore(c: NodeConfig, pc: Pc, e: Event)
    requires Next(c, pc, e).Some? && (e.Hooked? || e.ErrorSlept?)
    ensures pc.Returned? && Returns(pc.result, e)
  {
    hide Allows, Decide, NodeConfig.LockBackoffCeiling, NodeConfig.LockBackoffMin, NodeConfig.CooldownSeconds;
  }

  lemma ToldAtReturn(c: NodeConfig, pc: Pc, pass: seq<Event>)
    requires Told(c, pc, pass) && pc.Returned?
    ensures Settled(c, pass) && CameTo(c, pc.result, pass)
  {
    hide Settled, CameTo;
  }

  lemma PassBehind(c: NodeConfig, trace: seq<Event>, i: nat) returns (result: PassResult)
    requires c.maxLockTries > 0 && After(c, Idle, trace).Some? && i < |trace| && (trace[i].Hooked? || trace[i].ErrorSlept?)
    ensures Returns(result, trace[i])
    ensures var pass := CurrentPass(trace[..i]);
      Settled(c, pass) && CameTo(c, result, pass) && ReportsFit(c, pass)
  {
    hide *;
    BeforeEvent(c, trace, i);
    var pc := After(c, Idle, trace[..i]).value;
    ReturnedBefore(c, pc, trace[i]);
    ToldAtReturn(c, pc, CurrentPass(trace[..i]));
    result := pc.result;
  }

  /**
   When a pass is handed on, its events have no failure among them, and the status handed on is the one, and the only one, its
   last reading decides for.
   */
  lemma StatusIsDecided(c: NodeConfig, trace: seq<Event>, i: nat)
    requires c.maxLockTries > 0 && After(c, Idle, trace).Some? && i < |trace| && trace[i].Hooked?
    ensures !HasFailure(CurrentPass(trace[..i]))
    ensures forall s :: Decides(c, CurrentPass(trace[..i]), s) <==> s == trace[i].status
  {
    hide After, Decides, HasFailure, HasLock, CurrentPass, ReportsFit, Settled, NodeConfig.Reboots;
    var result := PassBehind(c, trace, i);
    forall s | Decides(c, CurrentPass(trace[..i]), s)
      ensures s == trace[i].status
    {
      DecidesOne(c, CurrentPass(trace[..i]), s, trace[i].status);
    }
  }

  /** The loop waits as after an error exactly after a pass with a failure among its events. */
  lemma FailureIsTold(c: NodeConfig, trace: seq<Event>, i: nat)
    requires c.maxLockTries > 0 && After(c, Idle, trace).Some? && i < |trace| && (trace[i].Hooked? || trace[i].ErrorSlept?)
    ensures trace[i].ErrorSlept? <==> HasFailure(CurrentPass(trace[..i]))
  {
    hide After, Decides, HasFailure, HasLock, CurrentPass, ReportsFit, Settled, NodeConfig.Reboots;
    var result := PassBehind(c, trace, i);
  }

  /** When a pass ends, the verdict of each script run in it has been reported, if verdicts are, by one report and as it was. */
  lemma VerdictsAreReported(c: NodeConfig, trace: seq<Event>, i: nat)
    requires c.maxLockTries > 0 && After(c, Idle, trace).Some? && i < |trace| && (trace[i].Hooked? || trace[i].ErrorSlept?)
    ensures ReportsFit(c, CurrentPass(trace[..i]))
    ensures c.PublishesHealth() ==> Untold(CurrentPass(trace[..i])) == None
  {
    hide After, CameTo, CurrentPass, ReportsFit, Untold, NodeConfig.PublishesHealth;
    var result := PassBehind(c, trace, i);
  }

  /**
   Every round of the heartbeat that is followed by a wait has run the health script in its own phase and reported what it said,
   if health is published, and has done nothing at all otherwise.
   */
  lemma HeartbeatIsTold(c: NodeConfig, trace: seq<Event>)
    requires c.maxLockTries > 0 && After(c, HeartbeatIdle, trace) == Some(HeartbeatSleeping)
    ensures var pass := CurrentPass(trace);
      && ReportsFit(c, pass)
      && (if c.PublishesHealth()
          then Untold(pass) == None && LastReading(pass).Some? && LastReading(pass).value.ScriptRan?
               && LastReading(pass).value.phase == HeartbeatPhase
          else LastReading(pass) == None)
  {
    hide After, CurrentPass, ReportsFit, Fits;
    TraceIsTold(c, HeartbeatIdle, trace);
    hide Untold, LastReading;
  }

  /** Before a reboot command that has a cooldown to start, one was granted for its time and put under that grant, in the pass. */
  lemma CooldownIsBegun(c: NodeConfig, trace: seq<Event>, i: nat)
    requires c.maxLockTries > 0 && After(c, Idle, trace).Some? && i < |trace| && trace[i].ExecStarted? && c.cooldown > 0
    ensures CooldownBegun(c, CurrentPass(trace[..i]))
  {
    hide *;
    BeforeEvent(c, trace, i);
    var pc := After(c, Idle, trace[..i]).value;
    ExecutedAfter(c, pc, trace[i]);
    BegunWhenStarting(c, pc, CurrentPass(trace[..i]));
  }

  lemma BegunWhenStarting(c: NodeConfig, pc: Pc, pass: seq<Event>)
    requires Told(c, pc, pass) && pc.Starting?
    ensures CooldownBegun(c, pass)
  {
    hide CooldownBegun;
  }

  lemma ExecutedAfter(c: NodeConfig, pc: Pc, e: Event)
    requires Next(c, pc, e).Some? && e.ExecStarted? && c.cooldown > 0
    ensures pc.Starting?
  {
    hide Allows, Decide, NodeConfig.LockBackoffCeiling, NodeConfig.LockBackoffMin, NodeConfig.CooldownSeconds;
  }

  /** The delay after a contended attempt on the lock lies within the bounds for the number of attempts the pass has made. */
  lemma DelayFitsTries(c: NodeConfig, trace: seq<Event>, i: nat)
    requires c.maxLockTries > 0 && After(c, Idle, trace).Some? && i < |trace| && trace[i].BackedOff?
    ensures var tries := Tries(CurrentPass(trace[..i]));
      0 < tries < c.maxLockTries && c.LockBackoffMin() <= trace[i].delay <= c.LockBackoffCeiling(tries - 1)
  {
    hide *;
    BeforeEvent(c, trace, i);
    var pc := After(c, Idle, trace[..i]).value;
    BackedOffAfter(c, pc, trace[i]);
    TriesWhileBackingOff(c, pc, CurrentPass(trace[..i]));
  }

  lemma TriesWhileBackingOff(c: NodeConfig, pc: Pc, pass: seq<Event>)
    requires Told(c, pc, pass) && pc.BackingOff?
    ensures Tries(pass) == pc.attempt + 1 < c.maxLockTries
  {
    hide Settled, HasFailure, HasLock, Tries;
  }

  lemma BackedOffAfter(c: NodeConfig, pc: Pc, e: Event)
    requires Next(c, pc, e).Some? && e.BackedOff?
    ensures pc.BackingOff? && c.LockBackoffMin() <= e.delay <= c.LockBackoffCeiling(pc.attempt)
  {
    hide Allows, Decide, NodeConfig.LockBackoffCeiling, NodeConfig.LockBackoffMin, NodeConfig.CooldownSeconds;
  }
}
