/**
 The reboot protocol of one node as a transition system over its external observations. Every read, write and
 call that leaves the process is one event, with whatever answer the environment gives; what a node may do next is
 a function of where it is and of that answer.
 */
module Protocol {
  import opened Wrappers
  import opened Backoff
  import opened ClusterPolicy
  import opened WindowEvaluator
  import opened WindowLanguage

  datatype NodeConfig = NodeConfig(
    name: string,
    policies: Policies,
    windows: Option<Evaluator>,
    inspects: bool,
    reports: bool,
    lockEnabled: bool,
    maxLockTries: nat,
    backoffMinSeconds: int,
    backoffMaxSeconds: int,
    cooldown: nat,
    dryRun: bool,
    command: seq<string>,
    errorMinDelay: int,
    errorMaxDelay: int,
    checkInterval: int,
    publishInterval: int)
  {
    predicate Valid() {
      maxLockTries > 0 && Bounds(errorMinDelay, errorMaxDelay)
    }

    predicate PublishesHealth() {
      inspects && reports
    }

    /** Whether a ready pass hands its lease on for a reboot. */
    predicate Reboots() {
      !dryRun && command != []
    }

    function LockBackoffCeiling(attempt: nat): int {
      BackoffCeiling(attempt, LockBounds(backoffMinSeconds, backoffMaxSeconds).0, LockBounds(backoffMinSeconds, backoffMaxSeconds).1)
    }

    /** How long the loop waits between passes: as asked for, where that is any time at all. */
    function RoundInterval(): (t: int)
      ensures t > 0
    {
      if checkInterval > 0 then checkInterval else 60 * SECOND
    }

    function LockBackoffMin(): int {
      LockBounds(backoffMinSeconds, backoffMaxSeconds).0
    }

    /** The cooldown in whole seconds, rounded up, as the shared store grants it. */
    function CooldownSeconds(): nat {
      (cooldown + SECOND - 1) / SECOND
    }
  }

  datatype Status =
    | NoAction | KillSwitchActive | HealthBlocked | WindowDenied | WindowOutside
    | LockUnavailable | LockSkipped | RecheckCleared | CooldownActive | Ready

  datatype Phase = MonitorPhase | PreLock | PostLock | HeartbeatPhase

  // ----- Events -----

  datatype KillReading = KillOff | KillOn | KillFailed
  datatype DetectReading = RebootNeeded | NothingNeeded | DetectFailed
  datatype ScriptReading = Exit(code: int) | ScriptFailed(cancelled: bool)
  datatype WriteReading = Written | WriteFailed(cancelled: bool)
  datatype CooldownReading = Absent | Present(lease: Option<nat>) | CooldownUnread
  datatype TryReading = Granted(session: nat) | Busy | TryFailed

  datatype Event =
    | Began(cancelled: bool)
    | KillRead(phase: Phase, kill: KillReading)
    | WindowRead(second: nat)
    | Detected(phase: Phase, detect: DetectReading)
    | Inspected(phase: Phase, records: Option<seq<Record>>)
    | MutexTaken
    | ScriptRan(phase: Phase, lockHeld: bool, attempts: nat, script: ScriptReading)
    | MutexReleased
    | Reported(phase: Phase, code: int, write: WriteReading)
    | CooldownRead(cooldown: CooldownReading)
    | TtlRead(lease: nat, ttl: Option<int>)
    | TryLocked(lock: TryReading)
    | Annotated(session: nat, ok: bool)
    | BackedOff(delay: int, ok: bool)
    | Unlocked(session: nat, ok: bool)
    | Closed(session: nat, ok: bool)
    | Hooked(status: Status)
    | LeaseGranted(seconds: nat, granted: Option<nat>)
    | CooldownPut(lease: nat, ok: bool)
    | LeaseRevoked(lease: nat, ok: bool)
    | ExecStarted(command: seq<string>)
    | ExecEnded(ok: bool)
    | ErrorSlept(delay: int, ok: bool)
    | Slept(delay: int, ok: bool)

  // ----- Where a node is -----

  /** What one pass came to: an error, an outcome without a lease, or a ready outcome that owns one. */
  datatype PassResult = Failed | Done(status: Status, locked: bool) | Holding(session: nat)

  /** Which of its four purposes a health run serves. */
  datatype HealthRun = MonitorRun | PreLockRun | PostLockRun(session: nat, attempts: nat) | HeartbeatRun {
    function Phase(): Phase {
      match this
      case MonitorRun => MonitorPhase
      case PreLockRun => PreLock
      case PostLockRun(_, _) => PostLock
      case HeartbeatRun => HeartbeatPhase
    }
  }

  datatype HealthStage = WaitingMutex | InScript | InMutex(script: ScriptReading) | Reporting(code: int)

  /** What follows the release of a lease. */
  datatype Then = PassEnds(result: PassResult) | AcquireFails | LoopEnds

  datatype Pc =
    | Idle
    | KillPre | WindowPre | DetectPre | InspectPre
    | HealthAt(run: HealthRun, stage: HealthStage)
    | CooldownPre | TtlPre(lease: nat)
    | Trying(attempt: nat) | Annotating(attempt: nat, session: nat) | BackingOff(attempt: nat)
    | KillPost(session: nat, attempts: nat) | InspectPost(session: nat, attempts: nat) | DetectPost(session: nat, attempts: nat)
    | Unlocking(session: nat, next: Then) | Closing(session: nat, next: Then, unlocked: bool)
    | Returned(result: PassResult) | Handled(result: PassResult)
    | Putting(session: nat, lease: nat) | Revoking(session: nat, lease: nat)
    | Starting(session: nat) | Executing(session: nat) | Rebooting(session: nat)
    | Stopped
    | HeartbeatIdle | HeartbeatSleeping

  /** The lock session a node owns, from being granted the lock to trying to give it back. */
  function Holds(pc: Pc): Option<nat> {
    match pc
    case Annotating(_, s) => Some(s)
    case KillPost(s, _) => Some(s)
    case InspectPost(s, _) => Some(s)
    case DetectPost(s, _) => Some(s)
    case HealthAt(PostLockRun(s, _), _) => Some(s)
    case Unlocking(s, _) => Some(s)
    case Returned(Holding(s)) => Some(s)
    case Handled(Holding(s)) => Some(s)
    case Putting(s, _) => Some(s)
    case Revoking(s, _) => Some(s)
    case Starting(s) => Some(s)
    case Executing(s) => Some(s)
    case Rebooting(s) => Some(s)
    case _ => None
  }

  // ----- One transition -----

  function AfterKill(c: NodeConfig): Pc {
    if c.windows.Some? then WindowPre else DetectPre
  }

  function BeforeLock(c: NodeConfig): Pc {
    if c.lockEnabled then Trying(0) else Returned(Done(LockSkipped, false))
  }

  function AfterPreHealth(c: NodeConfig): Pc {
    if c.cooldown > 0 then CooldownPre else BeforeLock(c)
  }

  /** A pass that holds the lock gives it back before it ends, unless it hands it on. */
  function Leave(session: nat, result: PassResult): Pc {
    Unlocking(session, PassEnds(result))
  }

  function AfterHealth(c: NodeConfig, run: HealthRun, code: int): Pc {
    match run
    case MonitorRun => Returned(Done(if code == 0 then NoAction else HealthBlocked, false))
    case PreLockRun => if code == 0 then AfterPreHealth(c) else Returned(Done(HealthBlocked, false))
    case PostLockRun(s, _) =>
      if code != 0 then Leave(s, Done(HealthBlocked, true))
      else if c.Reboots() then Returned(Holding(s))
      else Leave(s, Done(Ready, true))
    case HeartbeatRun => HeartbeatSleeping
  }

  function HealthFailed(run: HealthRun, cancelled: bool): Pc {
    match run
    case PostLockRun(s, _) => Leave(s, Failed)
    case HeartbeatRun => if cancelled then Stopped else HeartbeatSleeping
    case _ => Returned(Failed)
  }

  function NextHealth(c: NodeConfig, run: HealthRun, stage: HealthStage, e: Event): Option<Pc> {
    match stage
    case WaitingMutex => if e.MutexTaken? then Some(HealthAt(run, InScript)) else None
    case InScript =>
      if e.ScriptRan? && e.phase == run.Phase() && e.lockHeld == run.PostLockRun?
         && e.attempts == (if run.PostLockRun? then run.attempts else 0)
      then Some(HealthAt(run, InMutex(e.script))) else None
    case InMutex(script) =>
      if !e.MutexReleased? then None
      else Some(
        match script
        case ScriptFailed(cancelled) => HealthFailed(run, cancelled)
        case Exit(code) => if c.PublishesHealth() then HealthAt(run, Reporting(code)) else AfterHealth(c, run, code))
    case Reporting(code) =>
      if e.Reported? && e.phase == run.Phase() && e.code == code
      then Some(if e.write.Written? then AfterHealth(c, run, code) else HealthFailed(run, e.write.cancelled)) else None
  }

  /** The policies are evaluated on what the inspection listed; a node that inspects nothing evaluates them on no records. */
  ghost predicate Allows(c: NodeConfig, records: seq<Record>) {
    !Blocks(c.name, c.policies, records)
  }

  ghost function NextBeforeLock(c: NodeConfig, pc: Pc, e: Event): Option<Pc> {
    match (pc, e)
    case (Idle, Began(cancelled)) => Some(if cancelled then Stopped else KillPre)
    case (KillPre, KillRead(PreLock, kill)) => Some(
      match kill
      case KillOff => AfterKill(c)
      case KillOn => Returned(Done(KillSwitchActive, false))
      case KillFailed => Returned(Failed))
    case (WindowPre, WindowRead(second)) =>
      if c.windows == None || second >= WEEK then None
      else
        var d := Decide(c.windows.value, second);
        Some(if d.allowed then DetectPre
             else Returned(Done(if d.matchedDeny.Some? then WindowDenied else WindowOutside, false)))
    case (DetectPre, Detected(PreLock, detect)) => Some(
      match detect
      case RebootNeeded => InspectPre
      case NothingNeeded => HealthAt(MonitorRun, WaitingMutex)
      case DetectFailed => Returned(Failed))
    case (InspectPre, Inspected(PreLock, records)) =>
      if !c.inspects && records != Some([]) then None
      else Some(
        match records
        case None => Returned(Failed)
        case Some(listed) =>
          if Allows(c, listed) then HealthAt(PreLockRun, WaitingMutex) else Returned(Done(HealthBlocked, false)))
    case (CooldownPre, CooldownRead(reading)) => Some(
      match reading
      case Absent => BeforeLock(c)
      case Present(Some(lease)) => TtlPre(lease)
      case Present(None) => Returned(Done(CooldownActive, false))
      case CooldownUnread => Returned(Failed))
    case (TtlPre(lease), TtlRead(read, ttl)) =>
      if read != lease then None
      else Some(
        match ttl
        case None => Returned(Failed)
        case Some(seconds) => if seconds <= 0 then BeforeLock(c) else Returned(Done(CooldownActive, false)))
    case _ => None
  }

  function NextAcquiring(c: NodeConfig, pc: Pc, e: Event): Option<Pc> {
    match (pc, e)
    case (Trying(attempt), TryLocked(reading)) => Some(
      match reading
      case Granted(s) => Annotating(attempt, s)
      case Busy =>
        if attempt + 1 >= c.maxLockTries then Returned(Done(LockUnavailable, false)) else BackingOff(attempt)
      case TryFailed => Returned(Failed))
    case (Annotating(attempt, s), Annotated(session, ok)) =>
      if session != s then None else Some(if ok then KillPost(s, attempt + 1) else Unlocking(s, AcquireFails))
    case (BackingOff(attempt), BackedOff(delay, ok)) =>
      if !(c.LockBackoffMin() <= delay <= c.LockBackoffCeiling(attempt)) then None
      else Some(if ok then Trying(attempt + 1) else Returned(Failed))
    case _ => None
  }

  ghost function NextUnderLock(c: NodeConfig, pc: Pc, e: Event): Option<Pc> {
    match (pc, e)
    case (KillPost(s, n), KillRead(PostLock, kill)) => Some(
      match kill
      case KillOff => InspectPost(s, n)
      case KillOn => Leave(s, Done(KillSwitchActive, true))
      case KillFailed => Leave(s, Failed))
    case (InspectPost(s, n), Inspected(PostLock, records)) =>
      if !c.inspects && records != Some([]) then None
      else Some(
        match records
        case None => Leave(s, Failed)
        case Some(listed) => if Allows(c, listed) then DetectPost(s, n) else Leave(s, Done(HealthBlocked, true)))
    case (DetectPost(s, n), Detected(PostLock, detect)) => Some(
      match detect
      case RebootNeeded => HealthAt(PostLockRun(s, n), WaitingMutex)
      case NothingNeeded => Leave(s, Done(RecheckCleared, true))
      case DetectFailed => Leave(s, Failed))
    case (Unlocking(s, next), Unlocked(session, ok)) => if session == s then Some(Closing(s, next, ok)) else None
    case (Closing(s, next, unlocked), Closed(session, ok)) =>
      if session != s then None
      else Some(
        match next
        case PassEnds(result) => Returned(if unlocked && ok then result else Failed)
        case AcquireFails => Returned(Failed)
        case LoopEnds => Stopped)
    case _ => None
  }

  /** What the loop does with a finished pass. */
  function NextInLoop(c: NodeConfig, pc: Pc, e: Event): Option<Pc> {
    match (pc, e)
    case (Returned(Failed), ErrorSlept(_, ok)) => Some(if ok then Idle else Stopped)
    case (Returned(Done(status, locked)), Hooked(s)) => if s == status then Some(Handled(Done(status, locked))) else None
    case (Returned(Holding(session)), Hooked(s)) => if s == Ready then Some(Handled(Holding(session))) else None
    case (Handled(Done(status, _)), Slept(delay, ok)) =>
      if status == Ready || delay != c.RoundInterval() then None else Some(if ok then Idle else Stopped)
    case (Handled(Holding(s)), LeaseGranted(seconds, granted)) =>
      if c.cooldown == 0 || seconds != c.CooldownSeconds() then None
      else Some(if granted.Some? then Putting(s, granted.value) else Unlocking(s, LoopEnds))
    case (Handled(Holding(s)), ExecStarted(command)) =>
      if c.cooldown == 0 && command == c.command then Some(Executing(s)) else None
    case (Putting(s, lease), CooldownPut(put, ok)) =>
      if put == lease then Some(if ok then Starting(s) else Revoking(s, lease)) else None
    case (Revoking(s, lease), LeaseRevoked(revoked, _)) => if revoked == lease then Some(Unlocking(s, LoopEnds)) else None
    case (Starting(s), ExecStarted(command)) => if command == c.command then Some(Executing(s)) else None
    case (Executing(s), ExecEnded(ok)) => Some(if ok then Rebooting(s) else Unlocking(s, LoopEnds))
    case _ => None
  }

  function NextHeartbeat(c: NodeConfig, pc: Pc, e: Event): Option<Pc> {
    match (pc, e)
    case (HeartbeatIdle, Began(cancelled)) => Some(
      if cancelled then Stopped
      else if c.PublishesHealth() then HealthAt(HeartbeatRun, WaitingMutex)
      else HeartbeatSleeping)
    case (HeartbeatSleeping, Slept(delay, ok)) =>
      if delay == c.publishInterval then Some(if ok then HeartbeatIdle else Stopped) else None
    case _ => None
  }

  /** Where a node is after an event, if the event is possible where it is. */
  ghost function Next(c: NodeConfig, pc: Pc, e: Event): Option<Pc> {
    match pc
    case HealthAt(run, stage) => NextHealth(c, run, stage, e)
    case Idle => NextBeforeLock(c, pc, e)
    case KillPre => NextBeforeLock(c, pc, e)
    case WindowPre => NextBeforeLock(c, pc, e)
    case DetectPre => NextBeforeLock(c, pc, e)
    case InspectPre => NextBeforeLock(c, pc, e)
    case CooldownPre => NextBeforeLock(c, pc, e)
    case TtlPre(_) => NextBeforeLock(c, pc, e)
    case Trying(_) => NextAcquiring(c, pc, e)
    case Annotating(_, _) => NextAcquiring(c, pc, e)
    case BackingOff(_) => NextAcquiring(c, pc, e)
    case KillPost(_, _) => NextUnderLock(c, pc, e)
    case InspectPost(_, _) => NextUnderLock(c, pc, e)
    case DetectPost(_, _) => NextUnderLock(c, pc, e)
    case Unlocking(_, _) => NextUnderLock(c, pc, e)
    case Closing(_, _, _) => NextUnderLock(c, pc, e)
    case HeartbeatIdle => NextHeartbeat(c, pc, e)
    case HeartbeatSleeping => NextHeartbeat(c, pc, e)
    case _ => NextInLoop(c, pc, e)
  }

  /** Each place belongs to one part of the protocol. */
  lemma NextCases(c: NodeConfig, pc: Pc, e: Event)
    ensures
      || (pc.HealthAt? && Next(c, pc, e) == NextHealth(c, pc.run, pc.stage, e))
      || Next(c, pc, e) == NextBeforeLock(c, pc, e)
      || Next(c, pc, e) == NextAcquiring(c, pc, e)
      || Next(c, pc, e) == NextUnderLock(c, pc, e)
      || Next(c, pc, e) == NextHeartbeat(c, pc, e)
      || Next(c, pc, e) == NextInLoop(c, pc, e)
  {
    hide NextHealth, NextBeforeLock, NextAcquiring, NextUnderLock, NextHeartbeat, NextInLoop;
  }

  /** Where a node is after a whole trace. */
  ghost function After(c: NodeConfig, start: Pc, trace: seq<Event>): Option<Pc> {
    if trace == [] then Some(start)
    else
      match After(c, start, trace[..|trace| - 1])
      case None => None
      case Some(pc) => Next(c, pc, trace[|trace| - 1])
  }

  lemma {:induction false} PrefixRuns(c: NodeConfig, start: Pc, trace: seq<Event>, n: nat)
    requires n <= |trace| && After(c, start, trace).Some?
    ensures After(c, start, trace[..n]).Some?
  {
    if n == |trace| {
      assert trace[..n] == trace;
    } else {
      assert trace[..|trace| - 1][..n] == trace[..n];
      PrefixRuns(c, start, trace[..|trace| - 1], n);
    }
  }
}
