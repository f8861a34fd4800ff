/** One orchestration pass, as the runner carries it out, and what the runner keeps from pass to pass. */
module Runner {
  import opened Wrappers
  import opened Text
  import opened Backoff
  import opened ClusterPolicy
  import opened WindowEvaluator
  import opened Protocol
  import opened NodeSafety
  import opened PassOutcome
  import opened Environment
  import opened Managers
  import opened Outcomes
  import OutcomeLog
  import PeerLog

  /** The texts an outcome can carry; how they read is left to a rendering. */
  datatype Message =
    | KillSwitchPresent(phase: Phase)
    | DeniedBy(expr: string)
    | OutsideWindows
    | UnhealthyOnMonitoring(code: int)
    | NothingToDo
    | BlockedByPolicies(reasons: seq<Reason>)
    | UnhealthyBeforeLock(code: int)
    | CoolingDown(details: string)
    | LockDisabled
    | LockContended(tries: nat)
    | DetectorsCleared
    | UnhealthyUnderLock(code: int)
    | PrerequisitesMet

  datatype HealthResult = Exited(code: int) | HealthError(cancelled: bool)

  /** A script run inside the mutex, and the report after it, if the script ended and reports are published. */
  function RunAndReport(c: NodeConfig, phase: Phase, lockHeld: bool, attempts: nat, script: ScriptReading, write: WriteReading): seq<Event> {
    [MutexTaken] + [ScriptRan(phase, lockHeld, attempts, script)] + [MutexReleased]
    + (if script.Exit? && c.PublishesHealth() then [Reported(phase, script.code, write)] else [])
  }

  /** What they come to. */
  function HealthVerdict(c: NodeConfig, script: ScriptReading, write: WriteReading): HealthResult {
    match script
    case ScriptFailed(cancelled) => HealthError(cancelled)
    case Exit(code) => if c.PublishesHealth() && write.WriteFailed? then HealthError(write.cancelled) else Exited(code)
  }

  /** Every snapshot so far agrees with itself on each peer. */
  ghost predicate AllConsistent(snapshots: seq<seq<Record>>, self: string) {
    forall s | s in snapshots :: PeerLog.Consistent(s, self)
  }

  class Runner {
    const world: World
    const locker: LockManager
    const cooldown: CooldownManager
    const healthStore: HealthStore
    const rnd: Rand
    const render: Message -> string

    var lastOutcome: Option<Summary>
    var outcomesTotal: nat
    var outcomeEvents: seq<Summary>
    ghost var recorded: seq<Summary>

    var clusterPeers: map<string, PeerLog.PeerState>
    var peerEvents: seq<PeerLog.PeerEvent>
    ghost var snapshots: seq<seq<Record>>

    /** The emitted outcomes are the recorded ones without their repetitions; the counter counts every recorded one. */
    ghost predicate LogValid()
      reads `lastOutcome, `outcomesTotal, `outcomeEvents, `recorded
    {
      && outcomesTotal == |recorded|
      && outcomeEvents == OutcomeLog.Destutter(recorded)
      && lastOutcome == if recorded == [] then None else Some(recorded[|recorded| - 1])
    }

    /** As long as no snapshot contradicted itself, replaying the emitted peer events gives the peers as last seen. */
    ghost predicate PeersValid()
      reads `clusterPeers, `peerEvents, `snapshots
    {
      world.config.inspects && AllConsistent(snapshots, Trim(world.config.name)) ==>
        PeerLog.Replay(map[], peerEvents) == PeerLog.Views(clusterPeers)
    }

    ghost predicate Valid()
      reads this
    {
      && LogValid()
      && PeersValid()
      && world.config.Valid()
      && locker.world == world
      && cooldown.world == world
    }

    constructor (world: World, rnd: Rand, render: Message -> string)
      requires world.config.Valid()
      ensures Valid() && this.world == world && this.rnd == rnd && this.render == render
      ensures recorded == [] && snapshots == []
    {
      this.world, this.rnd, this.render := world, rnd, render;
      locker := new LockManager(world);
      cooldown := new CooldownManager(world);
      healthStore := new HealthStore();
      lastOutcome, outcomesTotal, outcomeEvents, recorded := None, 0, [], [];
      clusterPeers, peerEvents, snapshots := map[], [], [];
    }

    /** The events of the pass, on their own, decide for this outcome and no other: its status, its lock mark, or its error. */
    ghost predicate PassTold(out: Outcome, err: bool)
      reads world, out
    {
      world.start.Idle? && world.config.Valid() ==>
        var pass := CurrentPass(world.trace);
        && (err <==> HasFailure(pass))
        && (!err ==> out.lockAcquired == HasLock(pass) && forall s :: Decides(world.config, pass, s) <==> out.status == Some(s))
    }

    lemma PassIsTold(out: Outcome, err: bool)
      requires world.Valid() && world.pc == Returned(out.Result(err)) && (!err ==> out.status.Some?)
      requires out.lockRelease.Some? ==> out.lockAcquired && out.status == Some(Ready)
      ensures PassTold(out, err)
    {
      hide World.Valid, Decides, HasFailure, HasLock, CurrentPass, Settled, ReportsFit, Fits;
      if world.start.Idle? && world.config.Valid() {
        world.TraceIsProtocol();
        TraceIsTold(world.config, Idle, world.trace);
        var pass := CurrentPass(world.trace);
        forall s, t | Decides(world.config, pass, s) && Decides(world.config, pass, t)
          ensures s == t
        {
          DecidesOne(world.config, pass, s, t);
        }
      }
    }

    // ----- Recording -----

    /** The outcome has the status, text, dry-run mark and lock mark of the one recorded. */
    ghost predicate Repeats(out: Outcome, before: Summary)
      reads out
    {
      out.status == Some(before.status) && out.message == before.message && out.dryRun == before.dryRun
      && out.lockAcquired == before.lockAcquired
    }

    /** Every outcome is counted; one is logged, in these four, unless it repeats in all of them the outcome before it. */
    method RecordOutcome(out: Outcome)
      requires LogValid() && out.status.Some?
      modifies this`lastOutcome, this`outcomesTotal, this`outcomeEvents, this`recorded
      ensures LogValid()
      ensures recorded == old(recorded) + [Summary(out.status.value, out.message, out.dryRun, out.lockAcquired)]
      ensures outcomeEvents
           == if old(recorded) != [] && Repeats(out, old(recorded)[|old(recorded)| - 1]) then old(outcomeEvents)
              else old(outcomeEvents) + [Summary(out.status.value, out.message, out.dryRun, out.lockAcquired)]
    {
      var summary := out.ToSummary();
      assert (recorded + [summary])[..|recorded|] == recorded;
      recorded := recorded + [summary];
      outcomesTotal := outcomesTotal + 1;
      if lastOutcome == Some(summary) {
        return;
      }
      lastOutcome := Some(summary);
      outcomeEvents := outcomeEvents + [summary];
    }

    /** Reports every peer that is new, changed or gone since the last inspection, and tracks the ones there are now. */
    method UpdateClusterPeerStates(records: seq<Record>) returns (changed: bool)
      modifies this`clusterPeers, this`peerEvents
      ensures clusterPeers == PeerLog.Tracked(records, Trim(world.config.name))
      ensures PeerLog.AsListed(clusterPeers, records, Trim(world.config.name))
      ensures PeerLog.ReportsAsListed(PeerLog.Reports(old(clusterPeers), records, Trim(world.config.name)),
                                      old(clusterPeers), records, Trim(world.config.name))
      ensures exists missing ::
        && PeerLog.MissingEvents(old(clusterPeers).Keys - clusterPeers.Keys, old(clusterPeers), missing)
        && peerEvents == old(peerEvents) + PeerLog.Reports(old(clusterPeers), records, Trim(world.config.name)) + missing
      ensures changed <==> peerEvents != old(peerEvents)
    {
      hide Trim, PeerLog.MissingEvents, PeerLog.Tracked, PeerLog.Reports, PeerLog.AsListed, PeerLog.ReportsAsListed;
      var local := Trim(world.config.name);
      PeerLog.TrackedAsListed(records, local);
      PeerLog.ReportsTell(clusterPeers, records, local);
      var current: map<string, PeerLog.PeerState> := map[];
      changed := false;
      PeerLog.NoRecords(clusterPeers, local);
      for i := 0 to |records|
        invariant clusterPeers == old(clusterPeers)
        invariant current == PeerLog.Tracked(records[..i], local)
        invariant peerEvents == old(peerEvents) + PeerLog.Reports(clusterPeers, records[..i], local)
        invariant changed <==> peerEvents != old(peerEvents)
      {
        var rec := records[i];
        PeerLog.OneMoreRecord(clusterPeers, records, i, local);
        var node := Trim(rec.node);
        if node == "" || node == local {
          continue;
        }
        var state := PeerLog.StateOf(rec);
        current := current[node := state];
        if node !in clusterPeers {
          changed := true;
          peerEvents := peerEvents + [PeerLog.Reported(node, state.view, None)];
          continue;
        }
        var prev := clusterPeers[node];
        if prev.view == state.view {
          continue;
        }
        changed := true;
        peerEvents := peerEvents + [PeerLog.Reported(node, state.view, Some(prev.view))];
      }
      assert records[..|records|] == records;
      var missing := EmitMissing(current);
      changed := changed || missing != [];
      clusterPeers := current;
    }

    /** One event for each tracked peer that is no longer there, in no particular order. */
    method EmitMissing(current: map<string, PeerLog.PeerState>) returns (missing: seq<PeerLog.PeerEvent>)
      modifies this`peerEvents
      ensures PeerLog.MissingEvents(clusterPeers.Keys - current.Keys, clusterPeers, missing)
      ensures peerEvents == old(peerEvents) + missing
    {
      hide PeerLog.MissingEvents;
      missing := [];
      var rest := clusterPeers.Keys;
      ghost var gone: set<string> := {};
      NoneMissing(clusterPeers);
      while rest != {}
        invariant rest <= clusterPeers.Keys && gone <= clusterPeers.Keys
        invariant forall n :: n in gone <==> n in clusterPeers && n !in rest && n !in current
        invariant PeerLog.MissingEvents(gone, clusterPeers, missing)
        invariant peerEvents == old(peerEvents) + missing
        decreases |rest|
      {
        var node :| node in rest;
        rest := rest - {node};
        if node in current {
          continue;
        }
        MissingGrows(gone, clusterPeers, missing, node);
        gone := gone + {node};
        var event := PeerLog.Missing(node, clusterPeers[node].view);
        missing := missing + [event];
        peerEvents := peerEvents + [event];
      }
      assert gone == clusterPeers.Keys - current.Keys;
    }

    /** An inspection that is not possible lists nothing, and forgets the peers; one that fails finds every peer missing. */
    method InspectClusterHealth(phase: Phase) returns (records: Option<seq<Record>>)
      requires Valid() && world.Valid()
      requires if phase == PreLock then world.pc.InspectPre? else phase == PostLock && world.pc.InspectPost?
      modifies world, this`clusterPeers, this`peerEvents, this`snapshots
      ensures Valid() && world.Valid() && world.tally == old(world.tally)
      ensures Some(world.pc) == Next(world.config, old(world.pc), Inspected(phase, records))
      ensures snapshots == old(snapshots) + [records.GetOr([])]
      ensures if world.config.inspects then PeerLog.AsListed(clusterPeers, records.GetOr([]), Trim(world.config.name))
              else clusterPeers == map[] && peerEvents == old(peerEvents)
    {
      hide World.Valid, Next, LogValid, PeerLog.AsListed, Trim;
      var attempted := world.config.inspects;
      if attempted {
        records := healthStore.Status(world, phase);
      } else {
        records := Some([]);
        world.SkipListing(phase);
      }
      RecordClusterHealthStatus(attempted, records.GetOr([]));
    }

    method RecordClusterHealthStatus(attempted: bool, records: seq<Record>)
      requires PeersValid() && attempted == world.config.inspects
      modifies this`clusterPeers, this`peerEvents, this`snapshots
      ensures PeersValid() && snapshots == old(snapshots) + [records]
      ensures if attempted then PeerLog.AsListed(clusterPeers, records, Trim(world.config.name))
              else clusterPeers == map[] && peerEvents == old(peerEvents)
    {
      hide Trim, PeerLog.MissingEvents, PeerLog.Tracked, PeerLog.Reports, PeerLog.Consistent, PeerLog.AsListed;
      hide PeerLog.ReportsAsListed;
      snapshots := snapshots + [records];
      if attempted {
        var changed := UpdateClusterPeerStates(records);
        var self := Trim(world.config.name);
        if AllConsistent(snapshots, self) {
          assert AllConsistent(old(snapshots), self);
          assert records in snapshots;
          ghost var missing :|
            && PeerLog.MissingEvents(old(clusterPeers).Keys - clusterPeers.Keys, old(clusterPeers), missing)
            && peerEvents == old(peerEvents) + PeerLog.Reports(old(clusterPeers), records, self) + missing;
          PeerLog.SnapshotReplay(old(clusterPeers), records, self, missing);
          PeerLog.ReplayConcat(map[], old(peerEvents), PeerLog.Reports(old(clusterPeers), records, self) + missing);
          assert peerEvents == old(peerEvents) + (PeerLog.Reports(old(clusterPeers), records, self) + missing);
        }
      } else if |clusterPeers| > 0 {
        clusterPeers := map[];
      }
    }

    // ----- Health -----

    /** Runs the health script under the shared mutex, then, the mutex released, reports what it said. */
    method RunHealthAndUpdate(on: World, phase: Phase, lockHeld: bool, attempts: nat, ghost run: HealthRun) returns (r: HealthResult)
      requires on.Valid() && on.config == world.config
      requires on.pc == HealthAt(run, WaitingMutex) && phase == run.Phase()
      requires lockHeld == run.PostLockRun? && attempts == (if run.PostLockRun? then run.attempts else 0)
      modifies on
      ensures on.Valid() && on.tally == old(on.tally)
      ensures on.pc == match r
                       case Exited(code) => AfterHealth(on.config, run, code)
                       case HealthError(cancelled) => HealthFailed(run, cancelled)
      ensures exists script, write ::
        r == HealthVerdict(on.config, script, write)
        && on.trace == old(on.trace) + RunAndReport(on.config, phase, lockHeld, attempts, script, write)
    {
      hide World.Valid, Next, AfterHealth, HealthFailed;
      var script := on.RunScript(phase, lockHeld, attempts, run);
      ghost var write0 := Written;
      assert script.ScriptFailed? || !on.config.PublishesHealth() ==>
        on.trace == old(on.trace) + RunAndReport(on.config, phase, lockHeld, attempts, script, write0);
      if script.ScriptFailed? {
        assert HealthError(script.cancelled) == HealthVerdict(on.config, script, write0);
        return HealthError(script.cancelled);
      }
      var code := script.code;
      if on.config.PublishesHealth() {
        var write: WriteReading;
        if code == 0 {
          write := healthStore.ReportHealthy(on, phase, run);
        } else {
          write := healthStore.ReportUnhealthy(on, phase, code, run);
        }
        assert on.trace == old(on.trace) + RunAndReport(on.config, phase, lockHeld, attempts, script, write);
        if write.WriteFailed? {
          assert HealthError(write.cancelled) == HealthVerdict(on.config, script, write);
          return HealthError(write.cancelled);
        }
        assert Exited(code) == HealthVerdict(on.config, script, write);
      } else {
        assert Exited(code) == HealthVerdict(on.config, script, write0);
      }
      return Exited(code);
    }

    // ----- Taking the lock -----

    /** The delay after a failed attempt: the minimum, or a random one between it and the attempt's ceiling. */
    method NextBackoffDelay(attempt: nat, min: int, max: int) returns (delay: int)
      requires Bounds(min, max)
      modifies rnd
      ensures min <= delay <= BackoffCeiling(attempt, min, max)
      ensures var span := BackoffCeiling(attempt, min, max) - min;
        if span == 0 then delay == min && rnd.drawn == old(rnd.drawn)
        else rnd.drawn == old(rnd.drawn) + [(span + 1, delay - min)]
    {
      hide Wrap, Pow2;
      CeilingMeaning(attempt, min, max);
      var multiplier := Wrap(Pow2(attempt));
      if multiplier <= 0 {
        multiplier := 1;
      }
      var base := Wrap(min * multiplier);
      if base < min {
        base := min;
      }
      if base > max {
        base := max;
      }
      if base <= min {
        return min;
      }
      var jitterRange := base - min;
      var jitter := rnd.Int63n(jitterRange + 1);
      return min + jitter;
    }

    /** Up to the configured number of attempts, with a growing random delay after each but the last. */
    method AcquireLock() returns (lease: Option<nat>, attempts: nat, err: bool)
      requires Valid() && world.Valid() && world.pc == Trying(0)
      modifies world, rnd
      ensures Valid() && world.Valid() && world.tally == old(world.tally)
      ensures lease.Some? ==> !err && world.pc == KillPost(lease.value, attempts)
      ensures lease.None? ==> world.pc == Returned(if err then Failed else Done(LockUnavailable, false))
    {
      hide World.Valid, Next, BackoffCeiling, LogValid, PeersValid, Wrap, AcquireEvents;
      var c := world.config;
      var minBackoff, maxBackoff := Wrap(c.backoffMinSeconds * SECOND), Wrap(c.backoffMaxSeconds * SECOND);
      if minBackoff <= 0 {
        minBackoff := SECOND;
      }
      if maxBackoff < minBackoff {
        maxBackoff := minBackoff;
      }
      assert (minBackoff, maxBackoff) == LockBounds(c.backoffMinSeconds, c.backoffMaxSeconds);
      for attempt := 0 to c.maxLockTries
        invariant Valid() && world.Valid() && world.tally == old(world.tally)
        invariant world.pc == if attempt < c.maxLockTries then Trying(attempt) else Returned(Failed)
      {
        var result := locker.Acquire(attempt);
        match result {
          case Acquired(session) => return Some(session), attempt + 1, false;
          case AcquireFailed => return None, attempt + 1, true;
          case NotAcquired =>
            if attempt == c.maxLockTries - 1 {
              return None, attempt + 1, false;
            }
        }
        var delay := NextBackoffDelay(attempt, minBackoff, maxBackoff);
        var slept := world.SleepBackoff(delay);
        if !slept {
          return None, attempt + 1, true;
        }
      }
      return None, c.maxLockTries, true;
    }

    // ----- One pass -----

    /** The kill switch and the windows. */
    method CheckAllowed(out: Outcome) returns (passed: bool, err: bool)
      requires world.Valid() && world.pc == KillPre && out.IsZero()
      modifies world, out`status, out`message
      ensures world.Valid() && world.tally == old(world.tally)
      ensures passed ==> world.pc == DetectPre && out.status.None? && !err
      ensures !passed ==> world.pc == Returned(out.Result(err)) && out.status !in {Some(Ready), Some(LockSkipped)}
      ensures !passed && !err ==> out.status.Some?
      ensures !passed ==> PassTold(out, err)
    {
      hide World.Valid, Next, PassTold, Decide;
      var kill := world.CheckKillSwitch(PreLock);
      if kill.KillFailed? {
        PassIsTold(out, true);
        return false, true;
      }
      if kill.KillOn? {
        out.status, out.message := Some(KillSwitchActive), render(KillSwitchPresent(PreLock));
        PassIsTold(out, false);
        return false, false;
      }
      if world.config.windows.Some? {
        var now := world.Now();
        var decision := world.config.windows.value.Evaluate(now);
        if !decision.allowed {
          if decision.matchedDeny.Some? {
            out.status, out.message := Some(WindowDenied), render(DeniedBy(decision.matchedDeny.value));
          } else {
            out.status, out.message := Some(WindowOutside), render(OutsideWindows);
          }
          PassIsTold(out, false);
          return false, false;
        }
      }
      return true, false;
    }

    /** The detectors, and, when they need no reboot, the health of the node as it is monitored meanwhile. */
    method CheckRequired(out: Outcome) returns (passed: bool, err: bool)
      requires world.Valid() && world.pc == DetectPre && out.IsZero()
      modifies world, out`status, out`message
      ensures world.Valid() && world.tally == old(world.tally)
      ensures passed ==> world.pc == InspectPre && out.status.None? && !err
      ensures !passed ==> world.pc == Returned(out.Result(err)) && out.status !in {Some(Ready), Some(LockSkipped)}
      ensures !passed && !err ==> out.status.Some?
      ensures !passed ==> PassTold(out, err)
    {
      hide World.Valid, Next, PassTold, RunAndReport, HealthVerdict;
      var detect := world.EvaluateDetectors(PreLock);
      if detect.DetectFailed? {
        PassIsTold(out, true);
        return false, true;
      }
      if detect.RebootNeeded? {
        return true, false;
      }
      var health := RunHealthAndUpdate(world, MonitorPhase, false, 0, MonitorRun);
      if health.HealthError? {
        PassIsTold(out, true);
        return false, true;
      }
      if health.code != 0 {
        out.status, out.message := Some(HealthBlocked), render(UnhealthyOnMonitoring(health.code));
        PassIsTold(out, false);
        return false, false;
      }
      out.status, out.message := Some(NoAction), render(NothingToDo);
      PassIsTold(out, false);
      return false, false;
    }

    /** The cluster policies, on the records as listed now. */
    method CheckPolicies(out: Outcome, phase: Phase) returns (passed: bool, err: bool)
      requires Valid() && world.Valid() && out.status.None?
      requires if phase == PreLock then world.pc.InspectPre? else phase == PostLock && world.pc.InspectPost?
      modifies world, this`clusterPeers, this`peerEvents, this`snapshots, out`status, out`message, out`clusterUnhealthy
      ensures Valid() && world.Valid() && world.tally == old(world.tally)
      ensures world.pc == match old(world.pc)
                          case InspectPost(s, n) =>
                            if passed then DetectPost(s, n)
                            else Leave(s, if err then Failed else Done(HealthBlocked, true))
                          case _ =>
                            if passed then HealthAt(PreLockRun, WaitingMutex)
                            else Returned(if err then Failed else Done(HealthBlocked, false))
      ensures out.status == if passed || err then None else Some(HealthBlocked)
      ensures |snapshots| == |old(snapshots)| + 1
      ensures !passed && !err ==>
        var records := snapshots[|snapshots| - 1];
        && out.message == render(BlockedByPolicies(Reasons(world.config.name, world.config.policies, records)))
        && out.clusterUnhealthy == Unhealthy(records, world.config.name)
    {
      hide World.Valid, LogValid, PeersValid, Blocks, Reasons;
      var records := InspectClusterHealth(phase);
      if records.None? {
        return false, true;
      }
      var blocked, reasons, blockers := EvaluateClusterPolicies(world.config.name, world.config.policies, records.value);
      if blocked {
        out.status, out.message := Some(HealthBlocked), render(BlockedByPolicies(reasons));
        out.clusterUnhealthy := blockers;
        return false, false;
      }
      return true, false;
    }

    /** The health of this node and the cooldown of the cluster, and whether there is a lock to take at all. */
    method CheckHealthAndCooldown(out: Outcome) returns (passed: bool, err: bool)
      requires world.Valid() && cooldown.world == world && world.pc == HealthAt(PreLockRun, WaitingMutex) && out.IsZero()
      modifies world, out`status, out`message, out`dryRun, out`command
      ensures world.Valid() && world.tally == old(world.tally)
      ensures passed ==> world.pc == Trying(0) && out.IsZero() && !err
      ensures !passed ==> world.pc == Returned(out.Result(err)) && out.Coherent(world.config) && (!err ==> out.status.Some?)
    {
      hide World.Valid, Next, RunAndReport, HealthVerdict;
      var health := RunHealthAndUpdate(world, PreLock, false, 0, PreLockRun);
      if health.HealthError? {
        return false, true;
      }
      if health.code != 0 {
        out.status, out.message := Some(HealthBlocked), render(UnhealthyBeforeLock(health.code));
        return false, false;
      }
      passed, err := CheckCooldown(out);
    }

    /** The cooldown of the cluster, and whether there is a lock to take at all. */
    method CheckCooldown(out: Outcome) returns (passed: bool, err: bool)
      requires world.Valid() && cooldown.world == world && world.pc == AfterPreHealth(world.config) && out.IsZero()
      modifies world, out`status, out`message, out`dryRun, out`command
      ensures world.Valid() && world.tally == old(world.tally)
      ensures passed ==> world.pc == Trying(0) && out.IsZero() && !err
      ensures !passed ==> world.pc == Returned(out.Result(err)) && out.Coherent(world.config) && (!err ==> out.status.Some?)
    {
      hide World.Valid, Next, StatusEvents;
      if world.config.cooldown > 0 {
        var status := cooldown.Status();
        if status.StatusFailed? {
          return false, true;
        }
        if status.Active? {
          var details: string := "";
          details :| true;
          out.status, out.message := Some(CooldownActive), render(CoolingDown(details));
          return false, false;
        }
      }
      if !world.config.lockEnabled {
        out.status, out.message := Some(LockSkipped), render(LockDisabled);
        out.dryRun, out.command := world.config.dryRun, world.config.command;
        return false, false;
      }
      return true, false;
    }

    /** Everything but windows and cooldown again, under the lock. */
    method CheckUnderLock(out: Outcome, session: nat, attempts: nat) returns (passed: bool, err: bool)
      requires Valid() && world.Valid() && world.pc == KillPost(session, attempts)
      requires out.status.None? && out.lockAcquired && out.OwnsNothing()
      modifies world, this`clusterPeers, this`peerEvents, this`snapshots, out`status, out`message, out`clusterUnhealthy
      ensures Valid() && world.Valid() && world.tally == old(world.tally)
      ensures passed ==> !err && out.status.None? && world.pc == AfterHealth(world.config, PostLockRun(session, attempts), 0)
      ensures !passed ==> out.status !in {Some(Ready), Some(LockSkipped)} && (!err ==> out.status.Some?)
      ensures !passed ==> world.pc == Unlocking(session, PassEnds(out.Result(err)))
    {
      hide World.Valid, Next, LogValid, PeersValid;
      var kill := world.CheckKillSwitch(PostLock);
      if kill.KillFailed? {
        return false, true;
      }
      if kill.KillOn? {
        out.status, out.message := Some(KillSwitchActive), render(KillSwitchPresent(PostLock));
        return false, false;
      }
      passed, err := CheckPolicies(out, PostLock);
      if !passed {
        return;
      }
      passed, err := CheckStillRequired(out, session, attempts);
    }

    method CheckStillRequired(out: Outcome, session: nat, attempts: nat) returns (passed: bool, err: bool)
      requires world.Valid() && world.pc == DetectPost(session, attempts)
      requires out.status.None? && out.lockAcquired && out.OwnsNothing()
      modifies world, out`status, out`message
      ensures world.Valid() && world.tally == old(world.tally)
      ensures passed ==> !err && out.status.None? && world.pc == AfterHealth(world.config, PostLockRun(session, attempts), 0)
      ensures !passed ==> out.status !in {Some(Ready), Some(LockSkipped)} && (!err ==> out.status.Some?)
      ensures !passed ==> world.pc == Unlocking(session, PassEnds(out.Result(err)))
    {
      hide World.Valid, Next, RunAndReport, HealthVerdict;
      var detect := world.EvaluateDetectors(PostLock);
      if detect.DetectFailed? {
        return false, true;
      }
      if detect.NothingNeeded? {
        out.status, out.message := Some(RecheckCleared), render(DetectorsCleared);
        return false, false;
      }
      var health := RunHealthAndUpdate(world, PostLock, true, attempts, PostLockRun(session, attempts));
      if health.HealthError? {
        return false, true;
      }
      if health.code != 0 {
        out.status, out.message := Some(HealthBlocked), render(UnhealthyUnderLock(health.code));
        return false, false;
      }
      return true, false;
    }

    /** A ready outcome takes the lease over when a reboot is to follow, and the cooldown to start before it. */
    method MakeReady(out: Outcome, session: nat) returns (lease: Option<nat>)
      requires out.status.None? && out.lockAcquired && out.OwnsNothing()
      modifies out
      ensures out.status == Some(Ready) && out.lockAcquired && out.Coherent(world.config)
      ensures lease == if world.config.Reboots() then None else Some(session)
      ensures out.lockRelease == if world.config.Reboots() then Some(session) else None
    {
      lease := Some(session);
      out.status, out.message := Some(Ready), render(PrerequisitesMet);
      out.dryRun, out.command := world.config.dryRun, world.config.command;
      if !out.dryRun && |out.command| > 0 {
        out.lockRelease := lease;
        lease := None;
        if world.config.cooldown > 0 {
          out.cooldownStart := Some(world.config.cooldown);
        }
      }
    }

    /** A pass up to the lock. */
    method CheckBeforeLock(out: Outcome) returns (passed: bool, err: bool)
      requires Valid() && world.Valid() && world.pc == KillPre && out.IsZero()
      modifies world, this`clusterPeers, this`peerEvents, this`snapshots, out
      ensures Valid() && world.Valid() && world.tally == old(world.tally)
      ensures passed ==> world.pc == Trying(0) && out.IsZero() && !err
      ensures !passed ==> world.pc == Returned(out.Result(err)) && out.Coherent(world.config) && (!err ==> out.status.Some?)
      ensures out.OwnsNothing()
    {
      hide World.Valid, Next, LogValid, PeersValid, NodeConfig.Valid, Reasons, Unhealthy;
      passed, err := CheckAllowed(out);
      if !passed {
        return;
      }
      passed, err := CheckRequired(out);
      if !passed {
        return;
      }
      passed, err := CheckPolicies(out, PreLock);
      if !passed {
        return;
      }
      passed, err := CheckHealthAndCooldown(out);
    }

    /** A pass from its first attempt on the lock on; a lease that was not handed on is given back, whatever came of the pass. */
    method RunLocked(out: Outcome) returns (err: bool)
      requires Valid() && world.Valid() && world.pc == Trying(0) && out.IsZero()
      modifies world, rnd, this`clusterPeers, this`peerEvents, this`snapshots, out
      ensures Valid() && world.Valid() && world.tally == old(world.tally)
      ensures world.pc == Returned(out.Result(err)) && (!err ==> out.status.Some?)
      ensures out.Coherent(world.config) && (err ==> out.OwnsNothing())
    {
      hide World.Valid, Next, LogValid, PeersValid;
      var lease, attempts;
      lease, attempts, err := AcquireLock();
      if err {
        return;
      }
      if lease.None? {
        out.status, out.message := Some(LockUnavailable), render(LockContended(world.config.maxLockTries));
        return;
      }
      out.lockAcquired := true;
      var passed;
      passed, err := CheckUnderLock(out, lease.value, attempts);
      if passed {
        lease := MakeReady(out, lease.value);
      }
      if lease.Some? {
        var released := locker.Release(lease.value, PassEnds(out.Result(err)));
        if !err && !released {
          err := true;
        }
      }
    }

    /**
     One pass. Its outcome says what the protocol says of it; a pass that ends in an error owns nothing and is not
     recorded, also when the error is that its lease could not be given back.
     */
    method RunOnce() returns (out: Outcome, err: bool)
      requires Valid() && world.Valid() && world.pc == KillPre
      modifies this, world, rnd
      ensures fresh(out) && Valid() && world.Valid() && world.tally == old(world.tally)
      ensures world.pc == Returned(out.Result(err)) && (!err ==> out.status.Some?)
      ensures out.Coherent(world.config) && (err ==> out.OwnsNothing()) && PassTold(out, err)
      ensures recorded
           == if err then old(recorded)
              else old(recorded) + [Summary(out.status.value, out.message, out.dryRun, out.lockAcquired)]
    {
      hide World.Valid, Next, PeersValid, LogValid, NodeConfig.Valid;
      out := new Outcome();
      var passed;
      passed, err := CheckBeforeLock(out);
      if passed {
        err := RunLocked(out);
      }
      PassIsTold(out, err);
      if !err && out.status.Some? {
        RecordOutcome(out);
      }
    }

    // ----- Heartbeat -----

    method PublishHeartbeat(on: World) returns (r: Option<HealthResult>)
      requires on.Valid() && on.config == world.config
      requires on.config.PublishesHealth() ==> on.pc == HealthAt(HeartbeatRun, WaitingMutex)
      modifies on
      ensures on.Valid() && on.tally == old(on.tally)
      ensures if !on.config.PublishesHealth() then r.None? && on.pc == old(on.pc) && on.trace == old(on.trace)
              else r.Some? && on.pc == if r.value == HealthError(true) then Stopped else HeartbeatSleeping
    {
      hide World.Valid, Next, RunAndReport, HealthVerdict;
      if !on.config.PublishesHealth() {
        return None;
      }
      var health := RunHealthAndUpdate(on, HeartbeatPhase, false, 0, HeartbeatRun);
      return Some(health);
    }
  }

  lemma NoneMissing(peers: map<string, PeerLog.PeerState>)
    ensures PeerLog.MissingEvents({}, peers, [])
  {
  }

  lemma MissingGrows(gone: set<string>, peers: map<string, PeerLog.PeerState>, events: seq<PeerLog.PeerEvent>, node: string)
    requires gone <= peers.Keys && node in peers && node !in gone && PeerLog.MissingEvents(gone, peers, events)
    ensures PeerLog.MissingEvents(gone + {node}, peers, events + [PeerLog.Missing(node, peers[node].view)])
  {
    var more := events + [PeerLog.Missing(node, peers[node].view)];
    forall n | n in gone + {node}
      ensures exists i :: 0 <= i < |more| && more[i].node == n
    {
      if n == node {
        assert more[|events|].node == n;
      } else {
        var i :| 0 <= i < |events| && events[i].node == n;
        assert more[i].node == n;
      }
    }
  }
}
