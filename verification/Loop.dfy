/** The loop over passes, the heartbeat beside it, and what the program does when the loop has ended. */
module Loop {
  import opened Wrappers
  import opened Backoff
  import opened Protocol
  import opened NodeSafety
  import opened Environment
  import opened Outcomes
  import opened Runner
  import OutcomeLog

  /** The executor that remembers whether a reboot command has succeeded. */
  class TrackingExecutor {
    const world: World
    var executed: bool

    constructor (world: World)
      ensures this.world == world && !executed
    {
      this.world := world;
      executed := false;
    }

    method Execute(command: seq<string>, ghost session: nat) returns (ok: bool)
      requires world.Valid()
      requires world.pc == Starting(session) || (world.pc == Handled(Holding(session)) && world.config.cooldown == 0)
      requires command == world.config.command
      modifies this`executed, world
      ensures world.trace == old(world.trace) + [ExecStarted(command)] + [ExecEnded(ok)]
      ensures world.Valid() && world.tally == old(world.tally)
      ensures world.pc == if ok then Rebooting(session) else Unlocking(session, LoopEnds)
      ensures executed == (old(executed) || ok)
    {
      hide World.Valid, Next;
      ok := world.Execute(command, session);
      if !ok {
        return;
      }
      executed := true;
    }
  }

  /** The hook of the main program: it keeps a copy of every outcome the loop hands on. */
  class IterationHook {
    var iteration: nat
    var lastOutcome: Outcome

    constructor ()
      ensures iteration == 0 && fresh(lastOutcome) && lastOutcome.IsZero()
    {
      iteration := 0;
      lastOutcome := new Outcome();
    }

    method Observe(outcome: Outcome)
      modifies this
      ensures iteration == old(iteration) + 1 && fresh(lastOutcome)
      ensures lastOutcome.status == outcome.status && lastOutcome.message == outcome.message
      ensures lastOutcome.dryRun == outcome.dryRun && lastOutcome.lockAcquired == outcome.lockAcquired
      ensures lastOutcome.command == outcome.command && lastOutcome.lockRelease == outcome.lockRelease
    {
      iteration := iteration + 1;
      lastOutcome := outcome.Copy();
    }
  }

  /** Durations that a loop can be given: 64-bit, of either sign. */
  predicate Duration(d: int) {
    -TWO63 <= d < TWO63
  }

  class Loop {
    const world: World
    const runner: Runner
    const executor: TrackingExecutor
    const hook: IterationHook
    const rnd: Rand
    const interval: int
    const errorMinDelay: int
    const errorMaxDelay: int
    var errorBackoff: int

    /** Whatever bounds are asked for, or none, the loop waits a positive time after every error and between passes. */
    constructor (runner: Runner, executor: TrackingExecutor, hook: IterationHook, rnd: Rand,
                 requestedInterval: Option<int>, requestedDelays: Option<(int, int)>)
      requires requestedDelays.Some? ==> Duration(requestedDelays.value.0) && Duration(requestedDelays.value.1)
      ensures this.world == runner.world && this.runner == runner && this.executor == executor && this.hook == hook && this.rnd == rnd
      ensures errorBackoff == 0 && interval > 0 && Bounds(errorMinDelay, errorMaxDelay)
      ensures if requestedInterval.Some? && requestedInterval.value > 0 then interval == requestedInterval.value
              else interval == runner.world.config.RoundInterval()
      ensures requestedDelays.None? ==> (errorMinDelay, errorMaxDelay) == (5 * SECOND, 60 * SECOND)
      ensures requestedDelays.Some? && Bounds(requestedDelays.value.0, requestedDelays.value.1) ==>
        (errorMinDelay, errorMaxDelay) == requestedDelays.value
    {
      this.world, this.runner, this.executor, this.hook, this.rnd := runner.world, runner, executor, hook, rnd;
      errorBackoff := 0;
      var checkInterval := runner.world.config.checkInterval;
      var every := requestedInterval.GetOr(checkInterval);
      if every <= 0 {
        every := checkInterval;
      }
      if every <= 0 {
        every := 60 * SECOND;
      }
      interval := every;
      var delays := requestedDelays.GetOr((5 * SECOND, 60 * SECOND));
      var min, max := delays.0, delays.1;
      if min <= 0 {
        min := 5 * SECOND;
      }
      if max <= 0 {
        max := min;
      }
      if max < min {
        max := min;
      }
      errorMinDelay, errorMaxDelay := min, max;
    }

    ghost predicate Valid()
      reads this, runner
    {
      && runner.Valid()
      && runner.world == world
      && executor.world == world
      && Bounds(errorMinDelay, errorMaxDelay)
      && (errorMinDelay, errorMaxDelay) == (world.config.errorMinDelay, world.config.errorMaxDelay)
      && interval == world.config.RoundInterval()
      && rnd != runner.rnd
    }

    /** Doubles the backoff, within its bounds, and draws a delay between the minimum and the new backoff. */
    method NextErrorDelay() returns (delay: int)
      requires Bounds(errorMinDelay, errorMaxDelay)
      modifies this`errorBackoff, rnd
      ensures errorBackoff == NextErrorBackoff(old(errorBackoff), errorMinDelay, errorMaxDelay)
      ensures 0 < errorMinDelay <= delay <= errorBackoff
      ensures if errorBackoff == errorMinDelay then delay == errorMinDelay && rnd.drawn == old(rnd.drawn)
              else rnd.drawn == old(rnd.drawn) + [(errorBackoff - errorMinDelay + 1, delay - errorMinDelay)]
    {
      hide Wrap;
      if errorBackoff <= 0 {
        errorBackoff := errorMinDelay;
      } else {
        errorBackoff := Wrap(errorBackoff * 2);
        if errorBackoff < errorMinDelay {
          errorBackoff := errorMinDelay;
        }
      }
      if errorBackoff > errorMaxDelay {
        errorBackoff := errorMaxDelay;
      }
      if errorBackoff <= errorMinDelay {
        return errorBackoff;
      }
      var jitterRange := errorBackoff - errorMinDelay;
      var jitter := rnd.Int63n(jitterRange + 1);
      return errorMinDelay + jitter;
    }

    method ResetErrorBackoff()
      modifies this`errorBackoff
      ensures errorBackoff == 0
    {
      errorBackoff := 0;
    }

    /** The backoff is that of the passes that failed since the last one that did not; one outcome is recorded per outcome handed on. */
    ghost predicate InStep()
      reads this, runner, world
    {
      && errorBackoff == ErrorBackoffAfter(world.tally.failures, errorMinDelay, errorMaxDelay)
      && world.tally.delaysFit
      && StatusesOf(runner.recorded) == world.tally.hooked
    }

    /** After an error the loop waits; it goes on unless it is cancelled meanwhile. */
    method Retry(outcome: Outcome) returns (verdict: Verdict)
      requires Valid() && world.Valid() && world.pc == Returned(Failed) && InStep() && outcome.lockRelease.None?
      modifies this`errorBackoff, outcome`lockRelease, world, rnd
      ensures Valid() && world.Valid() && InStep()
      ensures if verdict.Continue? then world.pc == Idle else verdict.Aborted? && world.pc == Stopped
    {
      hide World.Valid, Next, NextErrorBackoff;
      var released := outcome.ReleaseLock(runner.locker, LoopEnds);
      var delay := NextErrorDelay();
      var slept := world.SleepAfterError(delay);
      return if slept then Continue else Aborted;
    }

    /** The last thing that happened is that a command was executed, with success. */
    ghost predicate Executed(command: seq<string>)
      reads world
    {
      command != [] && exists before :: world.trace == before + [ExecStarted(command)] + [ExecEnded(true)]
    }

    /** A ready outcome ends the loop: as a dry run, or with its cooldown started and its reboot command executed. */
    method Reboot(outcome: Outcome) returns (verdict: Verdict)
      requires Valid() && world.Valid() && outcome.status == Some(Ready) && outcome.Coherent(world.config)
      requires world.pc == Handled(outcome.Result(false)) && !executor.executed
      modifies outcome, world, executor
      ensures Valid() && world.Valid() && world.tally == old(world.tally) && Ended(world.pc) && !verdict.Continue?
      ensures executor.executed <==> world.pc.Rebooting?
      ensures verdict.Finished? ==> world.pc.Rebooting? || old(outcome.lockRelease).None?
      ensures executor.executed ==> Executed(old(outcome.command))
    {
      hide World.Valid, Next;
      if outcome.dryRun || |outcome.command| == 0 {
        var released := outcome.ReleaseLock(runner.locker, LoopEnds);
        return if released then Finished else Aborted;
      }
      ghost var session := outcome.lockRelease.value;
      var started := outcome.StartCooldown(runner.cooldown, session);
      if !started {
        var released := outcome.ReleaseLock(runner.locker, LoopEnds);
        return Aborted;
      }
      var executed := executor.Execute(outcome.command, session);
      if !executed {
        var released := outcome.ReleaseLock(runner.locker, LoopEnds);
        return Aborted;
      }
      return Finished;
    }

    /** Any other outcome owns nothing; the loop waits before it begins again. */
    method Pause(outcome: Outcome) returns (verdict: Verdict)
      requires Valid() && world.Valid() && outcome.status.Some? && outcome.status != Some(Ready) && outcome.Coherent(world.config)
      requires world.pc == Handled(outcome.Result(false))
      modifies outcome`lockRelease, world
      ensures Valid() && world.Valid() && world.tally == old(world.tally)
      ensures if verdict.Continue? then world.pc == Idle else verdict.Aborted? && world.pc == Stopped
    {
      hide World.Valid, Next;
      var released := outcome.ReleaseLock(runner.locker, LoopEnds);
      var slept := world.SleepInterval(interval);
      return if slept then Continue else Aborted;
    }

    /** A pass without an error resets the backoff and goes to the hook. */
    method HandOn(outcome: Outcome)
      requires Valid() && world.Valid() && outcome.status.Some?
      requires world.pc == Returned(outcome.Result(false)) && outcome.Coherent(world.config)
      requires world.tally.delaysFit && runner.recorded != []
      requires runner.recorded[|runner.recorded| - 1] == outcome.ToSummary()
      requires StatusesOf(runner.recorded[..|runner.recorded| - 1]) == world.tally.hooked
      modifies this`errorBackoff, world, hook
      ensures Valid() && world.Valid() && InStep()
      ensures world.pc == Handled(outcome.Result(false))
      ensures fresh(hook.lastOutcome) && hook.lastOutcome.lockRelease == outcome.lockRelease
    {
      hide World.Valid, Next, StatusesOf, Runner.LogValid, Runner.PeersValid;
      ResetErrorBackoff();
      hook.Observe(outcome);
      world.Hook(outcome.status.value);
      StatusesGrow(runner.recorded);
    }

    /** One pass and what the loop does with it. */
    method Iterate() returns (verdict: Verdict)
      requires Valid() && world.Valid() && world.pc == KillPre && InStep() && !executor.executed
      modifies this`errorBackoff, runner, world, executor, hook, rnd, runner.rnd
      ensures Valid() && world.Valid() && InStep()
      ensures if verdict.Continue? then world.pc == Idle && !executor.executed else Ended(world.pc)
      ensures executor.executed <==> world.pc.Rebooting?
      ensures executor.executed ==> Executed(world.config.command)
      ensures verdict.Finished? && !executor.executed ==> hook.lastOutcome.lockRelease.None?
      ensures hook.lastOutcome == old(hook.lastOutcome) || fresh(hook.lastOutcome)
    {
      hide World.Valid, Next, NextErrorBackoff, ErrorBackoffAfter, StatusesOf, Runner.LogValid, Runner.PeersValid, Executed;
      var outcome, failed := runner.RunOnce();
      if failed {
        verdict := Retry(outcome);
        return;
      }
      HandOn(outcome);
      if outcome.status == Some(Ready) {
        verdict := Reboot(outcome);
      } else {
        verdict := Pause(outcome);
      }
    }

    /**
     Runs passes until the context is cancelled, a reboot or a dry run comes out, or an error ends it. It ends where the
     protocol ends; the executor has executed exactly if that is a reboot; and without an error or a reboot, the copy of
     the last outcome that the hook kept owns no lease.
     */
    method Run(ctx: Context) returns (err: bool)
      requires Valid() && world.Valid() && world.pc == Idle && InStep() && !executor.executed
      modifies this`errorBackoff, runner, world, executor, hook, rnd, runner.rnd, ctx
      ensures Valid() && world.Valid() && InStep() && Ended(world.pc)
      ensures executor.executed <==> world.pc.Rebooting?
      ensures executor.executed ==> Executed(world.config.command)
      ensures !err && !executor.executed ==> hook.lastOutcome.lockRelease.None?
      ensures hook.lastOutcome == old(hook.lastOutcome) || fresh(hook.lastOutcome)
    {
      hide World.Valid, Next;
      while true
        invariant Valid() && world.Valid() && world.pc == Idle && InStep() && !executor.executed
        invariant hook.lastOutcome == old(hook.lastOutcome) || fresh(hook.lastOutcome)
        decreases ctx.patience
      {
        var done := ctx.Done();
        world.Begin(done);
        if done {
          return true;
        }
        var verdict := Iterate();
        if !verdict.Continue? {
          return verdict.Aborted?;
        }
      }
    }
  }

  /** Whether the loop goes on, has come to its end, or ends with an error. */
  datatype Verdict = Continue | Finished | Aborted

  /** The heartbeat: beside the loop, it runs the health script and reports the result, round after round. */
  class HealthPublisher {
    const world: World
    const runner: Runner
    const interval: int

    constructor (world: World, runner: Runner, interval: int)
      requires world.config == runner.world.config
      ensures this.world == world && this.runner == runner && this.interval == interval
    {
      this.world, this.runner, this.interval := world, runner, interval;
    }

    /** Only cancellation ends it, whether seen at the start of a round, by the script or the report, or while waiting. */
    method Run(ctx: Context)
      requires world.Valid() && world.pc == HeartbeatIdle && world.config == runner.world.config
      requires interval == world.config.publishInterval
      modifies world, ctx
      ensures world.Valid() && world.pc == Stopped && world.tally.hooked == old(world.tally.hooked)
    {
      hide World.Valid, Next;
      while true
        invariant world.Valid() && world.pc == HeartbeatIdle && world.tally.hooked == old(world.tally.hooked)
        decreases ctx.patience
      {
        var done := ctx.Done();
        world.Begin(done);
        if done {
          return;
        }
        var health := runner.PublishHeartbeat(world);
        if health == Some(HealthError(true)) {
          return;
        }
        var slept := world.SleepInterval(interval);
        if !slept {
          return;
        }
      }
    }
  }

  /** Where the loop has ended, the protocol allows nothing more. */
  lemma EndAllowsNothing(c: NodeConfig, pc: Pc, e: Event)
    requires Ended(pc)
    ensures Next(c, pc, e) == None
  {
    hide NextHealth, NextBeforeLock, NextAcquiring, NextUnderLock, NextHeartbeat;
  }

  /** No trace goes on past the end of the loop: whatever was given back is not given back again. */
  lemma EndIsFinal(c: NodeConfig, trace: seq<Event>, more: seq<Event>)
    requires After(c, Idle, trace).Some? && Ended(After(c, Idle, trace).value) && After(c, Idle, trace + more).Some?
    ensures more == []
  {
    if more != [] {
      hide Next, Ended;
      var n := |trace|;
      PrefixRuns(c, Idle, trace + more, n + 1);
      assert (trace + more)[..n + 1][..n] == trace;
      EndAllowsNothing(c, After(c, Idle, trace).value, more[0]);
    }
  }

  /**
   The program around the loop. When the loop ends without an error and nothing was executed, the copy of the last outcome
   is asked to give its lease back; it has none, so nothing happens any more after the loop. When the program leaves,
   every lock session it was granted was given back exactly once, or its reboot command succeeded.
   */
  method RunCommand(loop: Loop, ctx: Context) returns (ok: bool)
    requires loop.Valid() && loop.world.Valid() && loop.world.start == loop.world.pc == Idle
    requires loop.InStep() && !loop.executor.executed
    modifies loop`errorBackoff, loop.runner, loop.world, loop.executor, loop.hook, loop.hook.lastOutcome
    modifies loop.rnd, loop.runner.rnd, ctx
    ensures loop.Valid() && loop.world.Valid() && loop.InStep() && Ended(loop.world.pc)
    ensures loop.executor.executed <==> loop.world.pc.Rebooting?
    ensures loop.executor.executed ||
      forall s :: CountGrants(loop.world.trace, s) == CountUnlocks(loop.world.trace, s) == CountCloses(loop.world.trace, s)
  {
    hide World.Valid, Next;
    var err := loop.Run(ctx);
    SettledAtEnd(loop);
    if err {
      return false;
    }
    if !loop.executor.executed {
      ghost var ended := loop.world.trace;
      ok := loop.hook.lastOutcome.ReleaseLock(loop.runner.locker, LoopEnds);
      assert loop.world.trace == ended;
      return;
    }
    return true;
  }

  /** What a command that has run to its end leaves behind: what it executed, and what happened. */
  ghost predicate Accounted(c: NodeConfig, executed: bool, trace: seq<Event>) {
    && After(c, Idle, trace).Some? && Ended(After(c, Idle, trace).value)
    && (executed <==> trace != [] && trace[|trace| - 1] == ExecEnded(true))
    && (!executed ==> forall s :: CountGrants(trace, s) == CountUnlocks(trace, s) == CountCloses(trace, s))
    && (forall i | 0 <= i < |trace| && trace[i].ExecStarted? ::
          GatesPassed(c, CurrentPass(trace[..i])) == AllGates(c) && trace[i].command == c.command != [])
    && (forall i | 0 <= i < |trace| && trace[i].ErrorSlept? ::
          c.errorMinDelay <= trace[i].delay <= ErrorBackoffAfter(FailuresInRow(trace[..i + 1]), c.errorMinDelay, c.errorMaxDelay))
  }

  /**
   The whole command, wired as the program wires it: whatever the outside answers, what it does is a trace of the protocol
   that leads to an end, with every reboot gated, every lease settled and every retry delayed as it should be, and the
   outcomes it logs are those of the passes that did not fail, without repetitions.
   */
  method CommandRun(config: NodeConfig, patience: nat, render: Message -> string)
    returns (executed: bool, events: seq<Summary>, ghost recorded: seq<Summary>, ghost trace: seq<Event>)
    requires config.Valid() && (config.errorMinDelay, config.errorMaxDelay) == (5 * SECOND, 60 * SECOND)
    ensures Accounted(config, executed, trace)
    ensures events == OutcomeLog.Destutter(recorded)
    ensures StatusesOf(recorded) == TallyOf(config, trace).hooked
  {
    hide World.Valid, Next;
    var world := new World(config, Idle);
    var runnerRandom := new Rand();
    var runner := new Runner(world, runnerRandom, render);
    var tracker := new TrackingExecutor(world);
    var hook := new IterationHook();
    var loopRandom := new Rand();
    var loop := new Loop(runner, tracker, hook, loopRandom, None, None);
    var ctx := new Context(patience);
    assert world.tally == Tally([], 0, true) by {
      world.TraceIsProtocol();
    }
    var ok := RunCommand(loop, ctx);
    executed, events := tracker.executed, runner.outcomeEvents;
    recorded, trace := runner.recorded, world.trace;
    world.TraceIsProtocol();
    AccountedAtEnd(config, trace, executed);
  }

  lemma AccountedAtEnd(c: NodeConfig, trace: seq<Event>, executed: bool)
    requires After(c, Idle, trace).Some? && Ended(After(c, Idle, trace).value)
    requires executed <==> After(c, Idle, trace).value.Rebooting?
    requires executed || forall s :: CountGrants(trace, s) == CountUnlocks(trace, s) == CountCloses(trace, s)
    requires TallyOf(c, trace).delaysFit
    ensures Accounted(c, executed, trace)
  {
    hide Next, TallyOf, GatesPassed, AllGates;
    DelaysFitMeaning(c, trace);
    forall i | 0 <= i < |trace| && trace[i].ExecStarted?
      ensures GatesPassed(c, CurrentPass(trace[..i])) == AllGates(c) && trace[i].command == c.command != []
    {
      RebootPassedAllGates(c, trace, i);
    }
    LastOfReboot(c, trace);
    assert !executed ==> forall s :: CountGrants(trace, s) == CountUnlocks(trace, s) == CountCloses(trace, s);
  }

  /** A trace ends in a reboot exactly when its last event is the success of the reboot command. */
  lemma LastOfReboot(c: NodeConfig, trace: seq<Event>)
    requires After(c, Idle, trace).Some?
    ensures After(c, Idle, trace).value.Rebooting? <==> trace != [] && trace[|trace| - 1] == ExecEnded(true)
  {
    if trace != [] {
      var n := |trace| - 1;
      var before := After(c, Idle, trace[..n]).value;
      hide After;
      NextCases(c, before, trace[n]);
    }
  }

  lemma SettledAtEnd(loop: Loop)
    requires loop.world.Valid() && loop.world.start == Idle && Ended(loop.world.pc)
    ensures !loop.world.pc.Rebooting? ==>
      forall s :: CountGrants(loop.world.trace, s) == CountUnlocks(loop.world.trace, s) == CountCloses(loop.world.trace, s)
  {
    hide World.Valid, Next;
    var w := loop.world;
    w.TraceIsProtocol();
    forall s: nat
      ensures !w.pc.Rebooting? ==> CountGrants(w.trace, s) == CountUnlocks(w.trace, s) == CountCloses(w.trace, s)
    {
      SessionsConserved(w.config, w.trace, s);
    }
  }

  function StatusesOf(recorded: seq<Summary>): seq<Status> {
    seq(|recorded|, i requires 0 <= i < |recorded| => recorded[i].status)
  }

  lemma StatusesGrow(recorded: seq<Summary>)
    requires recorded != []
    ensures StatusesOf(recorded) == StatusesOf(recorded[..|recorded| - 1]) + [recorded[|recorded| - 1].status]
  {
  }
}
