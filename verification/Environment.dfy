/**
 What one node sees of the world outside its process. Every call out is a method here: it may answer anything, it is
 recorded as an event, and it may only be made where the protocol allows it whatever the answer. Code verified against
 these methods therefore produces protocol traces and nothing else.
 */
module Environment {
  import opened Wrappers
  import opened Backoff
  import opened ClusterPolicy
  import opened WindowEvaluator
  import opened Protocol

  /** What the loop's own events tell: the outcomes handed on, the failed passes since the last of them, and their delays. */
  datatype Tally = Tally(hooked: seq<Status>, failures: nat, delaysFit: bool)

  function Counted(c: NodeConfig, t: Tally, e: Event): Tally {
    match e
    case Hooked(status) => Tally(t.hooked + [status], 0, t.delaysFit)
    case ErrorSlept(delay, _) =>
      Tally(t.hooked, t.failures + 1,
            t.delaysFit && c.errorMinDelay <= delay <= ErrorBackoffAfter(t.failures + 1, c.errorMinDelay, c.errorMaxDelay))
    case _ => t
  }

  function TallyOf(c: NodeConfig, trace: seq<Event>): Tally {
    if trace == [] then Tally([], 0, true) else Counted(c, TallyOf(c, trace[..|trace| - 1]), trace[|trace| - 1])
  }

  /** How many passes have failed since the last one that did not. */
  function FailuresInRow(trace: seq<Event>): nat {
    if trace == [] then 0
    else
      var n := |trace| - 1;
      if trace[n].Hooked? then 0 else FailuresInRow(trace[..n]) + if trace[n].ErrorSlept? then 1 else 0
  }

  /** A fitting tally says of every failed pass how long the loop may wait after it. */
  lemma {:induction false} DelaysFitMeaning(c: NodeConfig, trace: seq<Event>)
    ensures TallyOf(c, trace).failures == FailuresInRow(trace)
    ensures TallyOf(c, trace).delaysFit <==>
      forall i | 0 <= i < |trace| && trace[i].ErrorSlept? ::
        c.errorMinDelay <= trace[i].delay <= ErrorBackoffAfter(FailuresInRow(trace[..i + 1]), c.errorMinDelay, c.errorMaxDelay)
  {
    hide ErrorBackoffAfter;
    if trace != [] {
      var n := |trace| - 1;
      var before := trace[..n];
      DelaysFitMeaning(c, before);
      assert trace[..n + 1] == trace;
      assert forall i | 0 <= i < n :: before[i] == trace[i] && before[..i + 1] == trace[..i + 1];
    }
  }

  // ----- Random numbers and cancellation -----

  class Rand {
    /** Every draw so far: the bound asked for, and the number drawn. */
    ghost var drawn: seq<(int, int)>

    constructor ()
      ensures drawn == []
    {
      drawn := [];
    }

    /** The generator panics unless its bound is positive. */
    method Int63n(n: int) returns (v: int)
      requires 0 < n < TWO63
      modifies this
      ensures 0 <= v < n && drawn == old(drawn) + [(n, v)]
    {
      assert 0 <= 0 < n;
      v :| 0 <= v < n;
      drawn := drawn + [(n, v)];
    }
  }

  /** A context that is cancelled at some time. */
  class Context {
    var patience: nat

    constructor (patience: nat)
      ensures this.patience == patience
    {
      this.patience := patience;
    }

    method Done() returns (done: bool)
      modifies this
      ensures !done ==> patience < old(patience)
    {
      done := *;
      if patience == 0 {
        done := true;
      } else if !done {
        patience := patience - 1;
      }
    }
  }

  // ----- The outside of one thread -----

  /** Where a thread stands, and its tally there. */
  datatype Place = Place(pc: Pc, tally: Tally)

  /** A run: one place before each event and one after the last, each reached from the one before it by its event. */
  ghost predicate IsRun(c: NodeConfig, trace: seq<Event>, places: seq<Place>) {
    && |places| == |trace| + 1
    && places[0].tally == Tally([], 0, true)
    && forall i {:trigger trace[i]} | 0 <= i < |trace| ::
         Next(c, places[i].pc, trace[i]) == Some(places[i + 1].pc) && places[i + 1].tally == Counted(c, places[i].tally, trace[i])
  }

  /** A run is what the protocol allows from its first place, and leads where the protocol says. */
  lemma {:induction false} RunFollowsProtocol(c: NodeConfig, trace: seq<Event>, places: seq<Place>)
    requires IsRun(c, trace, places)
    ensures After(c, places[0].pc, trace) == Some(places[|trace|].pc)
    ensures TallyOf(c, trace) == places[|trace|].tally
  {
    hide Next, Counted;
    if trace != [] {
      var n := |trace| - 1;
      assert IsRun(c, trace[..n], places[..n + 1]);
      RunFollowsProtocol(c, trace[..n], places[..n + 1]);
    }
  }

  lemma CommandSteps(c: NodeConfig, pc: Pc, session: nat)
    requires pc == Starting(session) || (pc == Handled(Holding(session)) && c.cooldown == 0)
    ensures Next(c, pc, ExecStarted(c.command)) == Some(Executing(session))
    ensures Next(c, Executing(session), ExecEnded(true)) == Some(Rebooting(session))
    ensures Next(c, Executing(session), ExecEnded(false)) == Some(Unlocking(session, LoopEnds))
  {
    hide NextHealth, NextBeforeLock, NextAcquiring, NextUnderLock, NextHeartbeat;
  }

  class World {
    const config: NodeConfig
    const start: Pc
    ghost var trace: seq<Event>
    ghost var places: seq<Place>
    ghost var pc: Pc
    ghost var tally: Tally

    ghost predicate Valid()
      reads this
    {
      IsRun(config, trace, places) && places[0].pc == start && places[|trace|] == Place(pc, tally)
    }

    constructor (config: NodeConfig, start: Pc)
      ensures Valid() && this.config == config && this.start == start && pc == start && trace == []
    {
      this.config := config;
      this.start := start;
      trace := [];
      pc := start;
      tally := Tally([], 0, true);
      places := [Place(start, Tally([], 0, true))];
    }

    /** Whatever happens here is a trace of the protocol. */
    lemma TraceIsProtocol()
      requires Valid()
      ensures After(config, start, trace) == Some(pc) && tally == TallyOf(config, trace)
    {
      RunFollowsProtocol(config, trace, places);
    }

    /** Whether exactly this event has happened since. */
    twostate predicate Took(e: Event)
      reads this
    {
      Valid() && trace == old(trace) + [e] && tally == Counted(config, old(tally), e)
    }

    ghost method Take(e: Event)
      requires Valid() && Next(config, pc, e).Some?
      modifies this
      ensures Took(e) && Some(pc) == Next(config, old(pc), e)
    {
      hide Counted;
      var next := Next(config, pc, e).value;
      hide Next;
      var before := places;
      assert forall i | 0 <= i < |trace| :: (trace + [e])[i] == trace[i];
      tally := Counted(config, tally, e);
      places := places + [Place(next, tally)];
      trace := trace + [e];
      pc := next;
    }

    method CheckKillSwitch(phase: Phase) returns (kill: KillReading)
      requires Valid() && (if phase == PreLock then pc.KillPre? else phase == PostLock && pc.KillPost?)
      modifies this
      ensures Took(KillRead(phase, kill))
      ensures Some(pc) == if phase == PreLock then NextBeforeLock(config, old(pc), KillRead(PreLock, kill))
                          else NextUnderLock(config, old(pc), KillRead(PostLock, kill))
    {
      kill :| true;
      Take(KillRead(phase, kill));
    }

    method Now() returns (now: Moment)
      requires Valid() && pc.WindowPre? && config.windows.Some?
      modifies this
      ensures now.Valid() && Took(WindowRead(now.SecondsSinceWeekStart()))
      ensures Some(pc) == NextBeforeLock(config, old(pc), WindowRead(now.SecondsSinceWeekStart()))
    {
      var midnight := Moment(0, 0, 0, 0);
      assert midnight.Valid();
      now :| now.Valid();
      Take(WindowRead(now.SecondsSinceWeekStart()));
    }

    method EvaluateDetectors(phase: Phase) returns (detect: DetectReading)
      requires Valid() && (if phase == PreLock then pc.DetectPre? else phase == PostLock && pc.DetectPost?)
      modifies this
      ensures Took(Detected(phase, detect))
      ensures Some(pc) == if phase == PreLock then NextBeforeLock(config, old(pc), Detected(PreLock, detect))
                          else NextUnderLock(config, old(pc), Detected(PostLock, detect))
    {
      detect :| true;
      Take(Detected(phase, detect));
    }

    method ListHealth(phase: Phase) returns (records: Option<seq<Record>>)
      requires Valid() && config.inspects
      requires if phase == PreLock then pc.InspectPre? else phase == PostLock && pc.InspectPost?
      modifies this
      ensures Took(Inspected(phase, records))
      ensures Some(pc) == Next(config, old(pc), Inspected(phase, records))
    {
      records :| true;
      Take(Inspected(phase, records));
    }

    /** Nothing is listed when there is nothing to list it with. */
    ghost method SkipListing(phase: Phase)
      requires Valid() && !config.inspects
      requires if phase == PreLock then pc.InspectPre? else phase == PostLock && pc.InspectPost?
      modifies this
      ensures Took(Inspected(phase, Some([])))
      ensures Some(pc) == Next(config, old(pc), Inspected(phase, Some([])))
    {
      Take(Inspected(phase, Some([])));
    }

    /** The script runs between taking and releasing the mutex that all health runs of the process share. */
    method RunScript(phase: Phase, lockHeld: bool, attempts: nat, ghost run: HealthRun) returns (script: ScriptReading)
      requires Valid() && pc == HealthAt(run, WaitingMutex) && phase == run.Phase()
      requires lockHeld == run.PostLockRun? && attempts == (if run.PostLockRun? then run.attempts else 0)
      modifies this
      ensures Valid() && tally == old(tally)
      ensures trace == old(trace) + [MutexTaken] + [ScriptRan(phase, lockHeld, attempts, script)] + [MutexReleased]
      ensures Some(pc) == NextHealth(config, run, InMutex(script), MutexReleased)
    {
      script :| true;
      Take(MutexTaken);
      Take(ScriptRan(phase, lockHeld, attempts, script));
      Take(MutexReleased);
    }

    method PutHealth(phase: Phase, code: int, ghost run: HealthRun) returns (write: WriteReading)
      requires Valid() && pc == HealthAt(run, Reporting(code)) && phase == run.Phase()
      modifies this
      ensures Took(Reported(phase, code, write))
      ensures Some(pc) == NextHealth(config, run, Reporting(code), Reported(phase, code, write))
    {
      write :| true;
      Take(Reported(phase, code, write));
    }

    method GetCooldown() returns (cooldown: CooldownReading)
      requires Valid() && pc.CooldownPre?
      modifies this
      ensures Took(CooldownRead(cooldown)) && Some(pc) == NextBeforeLock(config, CooldownPre, CooldownRead(cooldown))
    {
      cooldown :| true;
      Take(CooldownRead(cooldown));
    }

    method TimeToLive(lease: nat) returns (ttl: Option<int>)
      requires Valid() && pc == TtlPre(lease)
      modifies this
      ensures Took(TtlRead(lease, ttl)) && Some(pc) == NextBeforeLock(config, TtlPre(lease), TtlRead(lease, ttl))
    {
      ttl :| true;
      Take(TtlRead(lease, ttl));
    }

    method TryLock() returns (lock: TryReading)
      requires Valid() && pc.Trying?
      modifies this
      ensures Took(TryLocked(lock)) && tally == old(tally)
      ensures pc == match lock
                    case Granted(session) => Annotating(old(pc).attempt, session)
                    case Busy =>
                      if old(pc).attempt + 1 >= config.maxLockTries then Returned(Done(LockUnavailable, false))
                      else BackingOff(old(pc).attempt)
                    case TryFailed => Returned(Failed)
    {
      lock :| true;
      Take(TryLocked(lock));
    }

    method Annotate(session: nat) returns (ok: bool)
      requires Valid() && pc.Annotating? && pc.session == session
      modifies this
      ensures Took(Annotated(session, ok)) && tally == old(tally)
      ensures pc == if ok then KillPost(session, old(pc).attempt + 1) else Unlocking(session, AcquireFails)
    {
      ok := *;
      Take(Annotated(session, ok));
    }

    method Unlock(session: nat) returns (ok: bool)
      requires Valid() && pc.Unlocking? && pc.session == session
      modifies this
      ensures Took(Unlocked(session, ok)) && tally == old(tally) && pc == Closing(session, old(pc.next), ok)
    {
      ok := *;
      Take(Unlocked(session, ok));
    }

    method CloseSession(session: nat) returns (ok: bool)
      requires Valid() && pc.Closing? && pc.session == session
      modifies this
      ensures Took(Closed(session, ok)) && tally == old(tally)
      ensures pc == match old(pc).next
                    case PassEnds(result) => Returned(if old(pc).unlocked && ok then result else Failed)
                    case AcquireFails => Returned(Failed)
                    case LoopEnds => Stopped
    {
      ok := *;
      Take(Closed(session, ok));
    }

    method GrantLease(seconds: nat) returns (granted: Option<nat>)
      requires Valid() && pc.Handled? && pc.result.Holding? && config.cooldown > 0 && seconds == config.CooldownSeconds()
      modifies this
      ensures Took(LeaseGranted(seconds, granted)) && tally == old(tally)
      ensures pc == var session := old(pc).result.session;
                    if granted.Some? then Putting(session, granted.value) else Unlocking(session, LoopEnds)
    {
      granted :| true;
      Take(LeaseGranted(seconds, granted));
    }

    method PutCooldown(lease: nat) returns (ok: bool)
      requires Valid() && pc.Putting? && pc.lease == lease
      modifies this
      ensures Took(CooldownPut(lease, ok)) && tally == old(tally)
      ensures pc == if ok then Starting(old(pc).session) else Revoking(old(pc).session, lease)
    {
      ok := *;
      Take(CooldownPut(lease, ok));
    }

    method RevokeLease(lease: nat) returns (ok: bool)
      requires Valid() && pc.Revoking? && pc.lease == lease
      modifies this
      ensures Took(LeaseRevoked(lease, ok)) && tally == old(tally)
      ensures pc == Unlocking(old(pc).session, LoopEnds)
    {
      ok := *;
      Take(LeaseRevoked(lease, ok));
    }

    /** The reboot command, from its start to its end. */
    method Execute(command: seq<string>, ghost session: nat) returns (ok: bool)
      requires Valid() && (pc == Starting(session) || (pc == Handled(Holding(session)) && config.cooldown == 0))
      requires command == config.command
      modifies this
      ensures Valid() && trace == old(trace) + [ExecStarted(command)] + [ExecEnded(ok)] && tally == old(tally)
      ensures pc == if ok then Rebooting(session) else Unlocking(session, LoopEnds)
    {
      CommandSteps(config, pc, session);
      hide World.Valid, Next;
      ok := *;
      Take(ExecStarted(command));
      Take(ExecEnded(ok));
    }

    /** The loop, or the publisher, looks whether it is cancelled before it begins a round. */
    ghost method Begin(cancelled: bool)
      requires Valid() && (pc.Idle? || pc.HeartbeatIdle?)
      modifies this
      ensures Took(Began(cancelled))
      ensures Some(pc) == if old(pc).Idle? then NextBeforeLock(config, Idle, Began(cancelled))
                          else NextHeartbeat(config, HeartbeatIdle, Began(cancelled))
    {
      Take(Began(cancelled));
    }

    /** The loop hands the outcome of a pass on. */
    ghost method Hook(status: Status)
      requires Valid() && pc.Returned?
      requires pc.result != Failed && status == if pc.result.Done? then pc.result.status else Ready
      modifies this
      ensures Took(Hooked(status)) && pc == Handled(old(pc).result)
    {
      Take(Hooked(status));
    }

    // The three waits: between attempts on the lock, after a failed pass, and between rounds. Each ends early when the
    // context is cancelled.

    method SleepBackoff(delay: int) returns (ok: bool)
      requires Valid() && pc.BackingOff? && config.LockBackoffMin() <= delay <= config.LockBackoffCeiling(pc.attempt)
      modifies this
      ensures Took(BackedOff(delay, ok)) && pc == if ok then Trying(old(pc).attempt + 1) else Returned(Failed)
    {
      ok := *;
      Take(BackedOff(delay, ok));
    }

    method SleepAfterError(delay: int) returns (ok: bool)
      requires Valid() && pc == Returned(Failed)
      modifies this
      ensures Took(ErrorSlept(delay, ok)) && pc == if ok then Idle else Stopped
    {
      ok := *;
      Take(ErrorSlept(delay, ok));
    }

    method SleepInterval(delay: int) returns (ok: bool)
      requires Valid()
      requires || (pc.Handled? && pc.result.Done? && pc.result.status != Ready && delay == config.RoundInterval())
               || (pc.HeartbeatSleeping? && delay == config.publishInterval)
      modifies this
      ensures Took(Slept(delay, ok))
      ensures pc == if !ok then Stopped else if old(pc).HeartbeatSleeping? then HeartbeatIdle else Idle
    {
      ok := *;
      Take(Slept(delay, ok));
    }
  }
}
