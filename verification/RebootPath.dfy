/** The way of a node that is able to reboot: a pass in which every check comes out in favour, event by event. */
module RebootPath {
  import opened Wrappers
  import opened ClusterPolicy
  import WindowEvaluator
  import opened WindowLanguage
  import opened Protocol
  import opened NodeSafety
  import opened Ability

  /** A configuration that lets the node reboot at this second of the week when it is shown these records. */
  ghost predicate Goes(c: NodeConfig, second: nat, records: seq<Record>) {
    second < WEEK && c.lockEnabled && c.Reboots() && OpenAt(c, second) && ListingAllows(c, records)
  }

  function When(condition: bool, e: Event): seq<Event> {
    if condition then [e] else []
  }

  /** A health run that finds the node healthy. */
  function Healthy(c: NodeConfig, phase: Phase, lockHeld: bool, attempts: nat): seq<Event> {
    [MutexTaken, ScriptRan(phase, lockHeld, attempts, Exit(0)), MutexReleased]
    + When(c.PublishesHealth(), Reported(phase, 0, Written))
  }

  function ToInspection(c: NodeConfig, second: nat, records: seq<Record>): seq<Event> {
    [Began(false), KillRead(PreLock, KillOff)] + When(c.windows.Some?, WindowRead(second))
    + [Detected(PreLock, RebootNeeded), Inspected(PreLock, Some(records))]
  }

  /** Everything before the lock. */
  function BeforeTheLock(c: NodeConfig, second: nat, records: seq<Record>): seq<Event> {
    ToInspection(c, second, records) + Healthy(c, PreLock, false, 0) + When(c.cooldown > 0, CooldownRead(Absent))
  }

  function ChecksAgain(session: nat, records: seq<Record>): seq<Event> {
    [Annotated(session, true), KillRead(PostLock, KillOff)]
    + [Inspected(PostLock, Some(records)), Detected(PostLock, RebootNeeded)]
  }

  /** Everything under the lock. */
  function UnderTheLock(c: NodeConfig, session: nat, records: seq<Record>): seq<Event> {
    ChecksAgain(session, records) + (Healthy(c, PostLock, true, 1) + [Hooked(Ready)])
  }

  lemma {:induction false} AfterConcat(c: NodeConfig, from: Pc, a: seq<Event>, b: seq<Event>)
    requires After(c, from, a).Some?
    ensures After(c, from, a + b) == After(c, After(c, from, a).value, b)
  {
    hide Next;
    if b == [] {
      assert a + b == a;
    } else {
      assert (a + b)[..|a + b| - 1] == a + b[..|b| - 1];
      AfterConcat(c, from, a, b[..|b| - 1]);
    }
  }

  lemma OneEvent(c: NodeConfig, from: Pc, e: Event)
    ensures After(c, from, [e]) == Next(c, from, e)
  {
    hide Next;
    assert [e][..0] == [];
  }

  lemma NoEvents(c: NodeConfig, from: Pc)
    ensures After(c, from, []) == Some(from)
  {
  }

  lemma TwoEvents(c: NodeConfig, from: Pc, e: Event, mid: Pc, f: Event)
    requires Next(c, from, e) == Some(mid)
    ensures After(c, from, [e, f]) == Next(c, mid, f)
  {
    hide Next;
    OneEvent(c, from, e);
    assert [e, f][..1] == [e];
  }

  lemma InspectionPath(c: NodeConfig, second: nat, records: seq<Record>)
    requires Goes(c, second, records)
    ensures After(c, Idle, ToInspection(c, second, records)) == Some(HealthAt(PreLockRun, WaitingMutex))
  {
    var window := When(c.windows.Some?, WindowRead(second));
    BeginningSteps(c, second);
    InspectionSteps(c, records);
    hide Next, After, Goes;
    TwoEvents(c, Idle, Began(false), KillPre, KillRead(PreLock, KillOff));
    if c.windows.Some? {
      OneEvent(c, WindowPre, WindowRead(second));
    } else {
      NoEvents(c, DetectPre);
    }
    AfterConcat(c, Idle, [Began(false), KillRead(PreLock, KillOff)], window);
    TwoEvents(c, DetectPre, Detected(PreLock, RebootNeeded), InspectPre, Inspected(PreLock, Some(records)));
    AfterConcat(c, Idle, [Began(false), KillRead(PreLock, KillOff)] + window,
                [Detected(PreLock, RebootNeeded), Inspected(PreLock, Some(records))]);
  }

  lemma BeginningSteps(c: NodeConfig, second: nat)
    requires second < WEEK && OpenAt(c, second)
    ensures Next(c, Idle, Began(false)) == Some(KillPre)
    ensures Next(c, KillPre, KillRead(PreLock, KillOff)) == Some(AfterKill(c))
    ensures c.windows.Some? ==> Next(c, WindowPre, WindowRead(second)) == Some(DetectPre)
  {
    hide Allows, WindowEvaluator.Decide, NextHealth, NextAcquiring, NextUnderLock, NextHeartbeat, NextInLoop;
  }

  lemma InspectionSteps(c: NodeConfig, records: seq<Record>)
    requires ListingAllows(c, records)
    ensures Next(c, DetectPre, Detected(PreLock, RebootNeeded)) == Some(InspectPre)
    ensures Next(c, InspectPre, Inspected(PreLock, Some(records))) == Some(HealthAt(PreLockRun, WaitingMutex))
  {
    hide Allows, WindowEvaluator.Decide, NextHealth, NextAcquiring, NextUnderLock, NextHeartbeat, NextInLoop;
  }

  /** A healthy run of whatever purpose leads on. */
  lemma HealthPath(c: NodeConfig, run: HealthRun)
    ensures After(c, HealthAt(run, WaitingMutex),
                  Healthy(c, run.Phase(), run.PostLockRun?, if run.PostLockRun? then run.attempts else 0))
         == Some(AfterHealth(c, run, 0))
  {
    var attempts := if run.PostLockRun? then run.attempts else 0;
    var start, script := HealthAt(run, WaitingMutex), ScriptRan(run.Phase(), run.PostLockRun?, attempts, Exit(0));
    HealthSteps(c, run);
    hide Next, After, AfterHealth;
    TwoEvents(c, start, MutexTaken, HealthAt(run, InScript), script);
    OneEvent(c, HealthAt(run, InMutex(Exit(0))), MutexReleased);
    AfterConcat(c, start, [MutexTaken, script], [MutexReleased]);
    assert [MutexTaken, script] + [MutexReleased] == [MutexTaken, script, MutexReleased];
    if c.PublishesHealth() {
      OneEvent(c, HealthAt(run, Reporting(0)), Reported(run.Phase(), 0, Written));
    } else {
      NoEvents(c, AfterHealth(c, run, 0));
    }
    AfterConcat(c, start, [MutexTaken, script, MutexReleased], When(c.PublishesHealth(), Reported(run.Phase(), 0, Written)));
  }

  lemma HealthSteps(c: NodeConfig, run: HealthRun)
    ensures var attempts := if run.PostLockRun? then run.attempts else 0;
      && Next(c, HealthAt(run, WaitingMutex), MutexTaken) == Some(HealthAt(run, InScript))
      && Next(c, HealthAt(run, InScript), ScriptRan(run.Phase(), run.PostLockRun?, attempts, Exit(0)))
         == Some(HealthAt(run, InMutex(Exit(0))))
      && Next(c, HealthAt(run, InMutex(Exit(0))), MutexReleased)
         == Some(if c.PublishesHealth() then HealthAt(run, Reporting(0)) else AfterHealth(c, run, 0))
      && Next(c, HealthAt(run, Reporting(0)), Reported(run.Phase(), 0, Written)) == Some(AfterHealth(c, run, 0))
  {
    hide NextBeforeLock, NextAcquiring, NextUnderLock, NextHeartbeat, NextInLoop, AfterHealth, NodeConfig.PublishesHealth;
  }

  lemma BeforeTheLockPath(c: NodeConfig, second: nat, records: seq<Record>)
    requires Goes(c, second, records)
    ensures After(c, Idle, BeforeTheLock(c, second, records)) == Some(Trying(0))
  {
    var inspected, healthy := ToInspection(c, second, records), Healthy(c, PreLock, false, 0);
    assert c.lockEnabled;
    hide Next, After, ToInspection, Healthy, Goes, AfterHealth, ListingAllows, OpenAt, NodeConfig.Reboots;
    InspectionPath(c, second, records);
    HealthPath(c, PreLockRun);
    PastCooldown(c);
    AfterConcat(c, Idle, inspected, healthy);
    if c.cooldown > 0 {
      OneEvent(c, CooldownPre, CooldownRead(Absent));
    } else {
      NoEvents(c, Trying(0));
    }
    AfterConcat(c, Idle, inspected + healthy, When(c.cooldown > 0, CooldownRead(Absent)));
  }

  lemma PastCooldown(c: NodeConfig)
    requires c.lockEnabled
    ensures Next(c, CooldownPre, CooldownRead(Absent)) == Some(Trying(0))
    ensures AfterHealth(c, PreLockRun, 0) == if c.cooldown > 0 then CooldownPre else Trying(0)
  {
    hide Allows, WindowEvaluator.Decide, NextHealth, NextAcquiring, NextUnderLock, NextHeartbeat, NextInLoop;
  }

  lemma ChecksAgainPath(c: NodeConfig, session: nat, records: seq<Record>)
    requires ListingAllows(c, records)
    ensures After(c, Annotating(0, session), ChecksAgain(session, records)) == Some(HealthAt(PostLockRun(session, 1), WaitingMutex))
  {
    var taken, checked := [Annotated(session, true), KillRead(PostLock, KillOff)],
                          [Inspected(PostLock, Some(records)), Detected(PostLock, RebootNeeded)];
    AcquiringSteps(c, session);
    LockedSteps(c, session, records);
    hide Next, After, ListingAllows;
    TwoEvents(c, Annotating(0, session), taken[0], KillPost(session, 1), taken[1]);
    TwoEvents(c, InspectPost(session, 1), checked[0], DetectPost(session, 1), checked[1]);
    AfterConcat(c, Annotating(0, session), taken, checked);
  }

  lemma ReadyPath(c: NodeConfig, session: nat)
    requires c.Reboots()
    ensures After(c, HealthAt(PostLockRun(session, 1), WaitingMutex), Healthy(c, PostLock, true, 1) + [Hooked(Ready)])
         == Some(Handled(Holding(session)))
  {
    ReadySteps(c, session);
    HealthPath(c, PostLockRun(session, 1));
    hide Next, After, AfterHealth, Healthy, NodeConfig.Reboots;
    OneEvent(c, Returned(Holding(session)), Hooked(Ready));
    AfterConcat(c, HealthAt(PostLockRun(session, 1), WaitingMutex), Healthy(c, PostLock, true, 1), [Hooked(Ready)]);
  }

  lemma UnderTheLockPath(c: NodeConfig, session: nat, second: nat, records: seq<Record>)
    requires Goes(c, second, records)
    ensures After(c, Annotating(0, session), UnderTheLock(c, session, records)) == Some(Handled(Holding(session)))
  {
    ChecksAgainPath(c, session, records);
    ReadyPath(c, session);
    hide Next, After, Healthy, Goes, ChecksAgain;
    AfterConcat(c, Annotating(0, session), ChecksAgain(session, records), Healthy(c, PostLock, true, 1) + [Hooked(Ready)]);
  }

  lemma LockedSteps(c: NodeConfig, session: nat, records: seq<Record>)
    requires ListingAllows(c, records)
    ensures Next(c, KillPost(session, 1), KillRead(PostLock, KillOff)) == Some(InspectPost(session, 1))
    ensures Next(c, InspectPost(session, 1), Inspected(PostLock, Some(records))) == Some(DetectPost(session, 1))
    ensures Next(c, DetectPost(session, 1), Detected(PostLock, RebootNeeded))
         == Some(HealthAt(PostLockRun(session, 1), WaitingMutex))
  {
    hide Allows, NextHealth, NextBeforeLock, NextHeartbeat, NextAcquiring, NextInLoop;
  }

  lemma AcquiringSteps(c: NodeConfig, session: nat)
    ensures Next(c, Trying(0), TryLocked(Granted(session))) == Some(Annotating(0, session))
    ensures Next(c, Annotating(0, session), Annotated(session, true)) == Some(KillPost(session, 1))
  {
    hide NextHealth, NextBeforeLock, NextHeartbeat, NextUnderLock, NextInLoop;
    hide NodeConfig.LockBackoffCeiling, NodeConfig.LockBackoffMin;
  }

  lemma ReadySteps(c: NodeConfig, session: nat)
    requires c.Reboots()
    ensures AfterHealth(c, PostLockRun(session, 1), 0) == Returned(Holding(session))
    ensures Next(c, Returned(Holding(session)), Hooked(Ready)) == Some(Handled(Holding(session)))
  {
    hide NodeConfig.Reboots, NodeConfig.CooldownSeconds, NextHealth, NextBeforeLock, NextAcquiring, NextUnderLock, NextHeartbeat;
  }

  /** From a ready outcome to the command, through a cooldown if there is one. */
  lemma StartSteps(c: NodeConfig, session: nat, lease: nat)
    requires c.cooldown > 0
    ensures Next(c, Handled(Holding(session)), LeaseGranted(c.CooldownSeconds(), Some(lease))) == Some(Putting(session, lease))
    ensures Next(c, Putting(session, lease), CooldownPut(lease, true)) == Some(Starting(session))
  {
    hide NodeConfig.CooldownSeconds, NextHealth, NextBeforeLock, NextAcquiring, NextUnderLock, NextHeartbeat;
  }

  lemma FailedStartSteps(c: NodeConfig, session: nat, lease: nat)
    ensures Next(c, Putting(session, lease), CooldownPut(lease, false)) == Some(Revoking(session, lease))
    ensures Next(c, Revoking(session, lease), LeaseRevoked(lease, true)) == Some(Unlocking(session, LoopEnds))
  {
    hide NodeConfig.CooldownSeconds, NextHealth, NextBeforeLock, NextAcquiring, NextUnderLock, NextHeartbeat;
  }

  lemma GivingUpSteps(c: NodeConfig, session: nat)
    ensures Next(c, Unlocking(session, LoopEnds), Unlocked(session, true)) == Some(Closing(session, LoopEnds, true))
    ensures Next(c, Closing(session, LoopEnds, true), Closed(session, true)) == Some(Stopped)
  {
    hide NextHealth, NextBeforeLock, NextAcquiring, NextInLoop, NextHeartbeat;
  }

  /** Where the command can be started from. */
  function Armed(c: NodeConfig, session: nat): Pc {
    if c.cooldown > 0 then Starting(session) else Handled(Holding(session))
  }

  lemma CommandSteps(c: NodeConfig, session: nat)
    ensures Next(c, Armed(c, session), ExecStarted(c.command)) == Some(Executing(session))
    ensures Next(c, Executing(session), ExecEnded(true)) == Some(Rebooting(session))
  {
    hide NodeConfig.CooldownSeconds, NextHealth, NextBeforeLock, NextAcquiring, NextUnderLock, NextHeartbeat;
  }
}
