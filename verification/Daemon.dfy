/** The program from its configuration file to its end. */
module Daemon {
  import opened Wrappers
  import opened Text
  import opened Backoff
  import opened ClusterPolicy
  import opened WindowLanguage
  import opened WindowEvaluator
  import opened Protocol
  import opened NodeSafety
  import opened HealthThreads
  import opened PassOutcome
  import Environment
  import Loop
  import Runner
  import C = Config

  // ----- Reboots and the windows as they are written -----

  /** The event that passes a gate. */
  lemma {:induction false} GateBehind(c: NodeConfig, events: seq<Event>, gate: Gate) returns (e: Event)
    requires gate in GatesPassed(c, events)
    ensures e in events && GateOf(c, e) == Some(gate)
  {
    hide GateOf;
    var n := |events| - 1;
    if GateOf(c, events[n]) == Some(gate) {
      e := events[n];
    } else {
      e := GateBehind(c, events[..n], gate);
    }
  }

  /** Which event that is. */
  lemma GateIs(c: NodeConfig, e: Event, gate: Gate)
    requires GateOf(c, e) == Some(gate)
    ensures match gate
            case KillSwitchOff(phase) => e == KillRead(phase, KillOff)
            case WindowOpen => e.WindowRead? && c.windows.Some? && e.second < WEEK && Decide(c.windows.value, e.second).allowed
            case RebootRequired(phase) => e == Detected(phase, RebootNeeded)
            case PolicyMet(phase) =>
              e.Inspected? && e.records.Some? && e == Inspected(phase, Some(e.records.value))
              && !Blocks(c.name, c.policies, e.records.value)
            case ScriptPassed(phase) => e.ScriptRan? && e == ScriptRan(phase, e.lockHeld, e.attempts, Exit(0))
            case NoCooldown =>
              || e == CooldownRead(Absent)
              || (e.TtlRead? && e.ttl.Some? && e == TtlRead(e.lease, Some(e.ttl.value)) && e.ttl.value <= 0)
            case LockTaken => e.Annotated? && e == Annotated(e.session, true)
            case CooldownStarted => e.CooldownPut? && e == CooldownPut(e.lease, true)
  {
    hide Blocks, Decide;
  }

  /** Among these events the windows are read at a second that the written ones permit. */
  ghost predicate ReadPermitted(allow: seq<string>, deny: seq<string>, events: seq<Event>) {
    exists e :: e in events && e.WindowRead? && e.second < WEEK && Permitted(allow, deny, e.second)
  }

  /** If windows are written at all, every reboot command has such a reading in its pass. */
  lemma RebootWasPermitted(c: NodeConfig, allow: seq<string>, deny: seq<string>, trace: seq<Event>, i: nat)
    requires EvaluatorOf(allow, deny) == Ok(c.windows)
    requires i < |trace| && trace[i].ExecStarted? && After(c, Idle, trace).Some?
    ensures allow == deny == [] || ReadPermitted(allow, deny, CurrentPass(trace[..i]))
  {
    hide After, Decide, Permitted, CurrentPass, GatesPassed, ListOf;
    RebootPassedAllGates(c, trace, i);
    if allow != [] || deny != [] {
      DecisionMeansWindows(allow, deny, 0);
      var pass := CurrentPass(trace[..i]);
      assert WindowOpen in AllGates(c) by {
        assert If(c.windows.Some?, WindowOpen)[0] == WindowOpen;
      }
      var e := GateBehind(c, pass, WindowOpen);
      GateIs(c, e, WindowOpen);
      DecisionMeansWindows(allow, deny, e.second);
    }
  }

  // ----- Reboots and the configuration file -----

  /** Among these events every check of a phase comes out in favour: switch, detectors, policies of the file, health script. */
  ghost predicate ChecksPassed(phase: Phase, nodeName: string, policies: Policies, events: seq<Event>) {
    && KillRead(phase, KillOff) in events && Detected(phase, RebootNeeded) in events
    && (exists records :: Inspected(phase, Some(records)) in events && !BlocksBySet(nodeName, policies, records))
    && (exists lockHeld, attempts :: ScriptRan(phase, lockHeld, attempts, Exit(0)) in events)
  }

  /** The cooldown was seen to be over, and the next one was granted for so many seconds, and put under that grant. */
  ghost predicate CooldownKept(seconds: nat, events: seq<Event>) {
    && (CooldownRead(Absent) in events || exists lease, ttl :: TtlRead(lease, Some(ttl)) in events && ttl <= 0)
    && (exists lease :: LeaseGranted(seconds, Some(lease)) in events && CooldownPut(lease, true) in events)
  }

  lemma PolicyBehind(c: NodeConfig, events: seq<Event>, phase: Phase)
    requires PolicyMet(phase) in GatesPassed(c, events) && c.policies.Valid()
    ensures exists records :: Inspected(phase, Some(records)) in events && !BlocksBySet(c.name, c.policies, records)
  {
    hide GateOf, GatesPassed, Blocks, BlocksBySet;
    var e := GateBehind(c, events, PolicyMet(phase));
    GateIs(c, e, PolicyMet(phase));
    DecisionBySet(c.name, c.policies, e.records.value);
  }

  lemma ScriptBehind(c: NodeConfig, events: seq<Event>, phase: Phase)
    requires ScriptPassed(phase) in GatesPassed(c, events)
    ensures exists lockHeld, attempts :: ScriptRan(phase, lockHeld, attempts, Exit(0)) in events
  {
    hide GateOf, GatesPassed;
    var e := GateBehind(c, events, ScriptPassed(phase));
    GateIs(c, e, ScriptPassed(phase));
  }

  lemma SwitchBehind(c: NodeConfig, events: seq<Event>, phase: Phase)
    requires KillSwitchOff(phase) in GatesPassed(c, events) && RebootRequired(phase) in GatesPassed(c, events)
    ensures KillRead(phase, KillOff) in events && Detected(phase, RebootNeeded) in events
  {
    hide GateOf, GatesPassed;
    var e := GateBehind(c, events, KillSwitchOff(phase));
    var f := GateBehind(c, events, RebootRequired(phase));
    GateIs(c, e, KillSwitchOff(phase));
    GateIs(c, f, RebootRequired(phase));
  }

  lemma ChecksBehind(c: NodeConfig, events: seq<Event>, phase: Phase)
    requires GatesPassed(c, events) == AllGates(c) && c.policies.Valid() && phase in {PreLock, PostLock}
    ensures ChecksPassed(phase, c.name, c.policies, events)
  {
    assert KillSwitchOff(phase) in AllGates(c) && RebootRequired(phase) in AllGates(c);
    assert PolicyMet(phase) in AllGates(c) && ScriptPassed(phase) in AllGates(c);
    hide AllGates, GatesPassed, BlocksBySet;
    SwitchBehind(c, events, phase);
    PolicyBehind(c, events, phase);
    ScriptBehind(c, events, phase);
  }

  lemma CooldownBehind(c: NodeConfig, events: seq<Event>)
    requires GatesPassed(c, events) == AllGates(c) && c.cooldown > 0 && CooldownBegun(c, events)
    ensures CooldownKept(c.CooldownSeconds(), events)
  {
    assert If(true, NoCooldown)[0] == NoCooldown;
    assert NoCooldown in AllGates(c);
    hide AllGates, GatesPassed, GateOf, NodeConfig.CooldownSeconds;
    var e := GateBehind(c, events, NoCooldown);
    GateIs(c, e, NoCooldown);
  }

  lemma LockBehind(c: NodeConfig, events: seq<Event>)
    requires GatesPassed(c, events) == AllGates(c)
    ensures exists session :: Annotated(session, true) in events
  {
    assert LockTaken in AllGates(c);
    hide AllGates, GatesPassed, GateOf;
    var e := GateBehind(c, events, LockTaken);
    GateIs(c, e, LockTaken);
  }

  /** In its pass, all that the file asks for before a reboot. */
  ghost predicate PassAsAsked(config: C.Config, pass: seq<Event>)
    reads config
  {
    && ChecksPassed(PreLock, config.nodeName, config.policies, pass)
    && ChecksPassed(PostLock, config.nodeName, config.policies, pass)
    && (exists session :: Annotated(session, true) in pass)
    && (config.allow == config.deny == [] || ReadPermitted(config.allow, config.deny, pass))
    && (0 < config.minRebootIntervalSec && config.minRebootIntervalSec * SECOND < TWO63 ==>
          CooldownKept(config.minRebootIntervalSec, pass))
  }

  /** No dry run starts a reboot command; every one that starts is the file's, after a pass as the file asks. */
  ghost predicate AllWanted(config: C.Config, trace: seq<Event>)
    reads config
  {
    forall i | 0 <= i < |trace| && trace[i].ExecStarted? ::
      && !config.dryRun && trace[i].command == config.rebootCommand != []
      && PassAsAsked(config, CurrentPass(trace[..i]))
  }

  lemma WantedOne(config: C.Config, trace: seq<Event>, i: nat)
    requires config.Runnable() && After(config.Node(), Idle, trace).Some? && i < |trace| && trace[i].ExecStarted?
    ensures !config.dryRun && trace[i].command == config.rebootCommand != []
    ensures PassAsAsked(config, CurrentPass(trace[..i]))
  {
    var c, pass := config.Node(), CurrentPass(trace[..i]);
    config.AcceptedRuns(config.Windows().value);
    config.AcceptedFields();
    hide After, CurrentPass, GatesPassed, AllGates, ChecksPassed, CooldownKept, CooldownBegun, ReadPermitted;
    hide EvaluatorOf, C.Config.Has;
    RebootPassedAllGates(c, trace, i);
    RebootWasPermitted(c, config.allow, config.deny, trace, i);
    ChecksBehind(c, pass, PreLock);
    ChecksBehind(c, pass, PostLock);
    LockBehind(c, pass);
    if c.cooldown > 0 {
      CooldownIsBegun(c, trace, i);
      CooldownBehind(c, pass);
    }
  }

  lemma WantedAll(config: C.Config, executed: bool, trace: seq<Event>)
    requires config.Runnable() && Loop.Accounted(config.Node(), executed, trace)
    ensures AllWanted(config, trace)
  {
    hide After, CurrentPass, GatesPassed, AllGates, PassAsAsked, EvaluatorOf, C.Config.Has, C.Config.Runnable;
    forall i | 0 <= i < |trace| && trace[i].ExecStarted?
      ensures !config.dryRun && trace[i].command == config.rebootCommand != []
      ensures PassAsAsked(config, CurrentPass(trace[..i]))
    {
      WantedOne(config, trace, i);
    }
  }

  // ----- Passes that do not reboot, and the configuration file -----

  /** The windows written in the file forbid the second, by a deny window or for want of an allow window. */
  ghost predicate Forbids(config: C.Config, second: nat, denied: bool) {
    && second < WEEK
    && (if denied then AnyCovers(config.deny, second)
        else !AnyCovers(config.deny, second) && config.allow != [] && !AnyCovers(config.allow, second))
  }

  predicate Unhealthy(e: Event) {
    e.ScriptRan? && e.script.Exit? && e.script.code != 0
  }

  ghost predicate BlockedBy(config: C.Config, e: Event) {
    e.Inspected? && e.records.Some? && BlocksBySet(config.nodeName, config.policies, e.records.value)
  }

  /** What the status of a pass says of the file: of its windows and its policies, and of the five attempts on the lock. */
  ghost predicate StatusAsWritten(config: C.Config, pass: seq<Event>, status: Status) {
    var last := LastReading(pass);
    && (status.WindowDenied? <==> last.Some? && last.value.WindowRead? && Forbids(config, last.value.second, true))
    && (status.WindowOutside? <==> last.Some? && last.value.WindowRead? && Forbids(config, last.value.second, false))
    && (status.HealthBlocked? <==> last.Some? && (Unhealthy(last.value) || BlockedBy(config, last.value)))
    && (status.LockUnavailable? <==> last == Some(TryLocked(Busy)) && Tries(pass) == 5)
    && !status.LockSkipped?
  }

  lemma ReadAsWritten(config: C.Config, second: nat, denied: bool)
    requires config.Windows().Ok?
    ensures ReadAgainst(config.Node(), second, denied) <==> Forbids(config, second, denied)
  {
    hide Decide, ListOf, Covers;
    if second < WEEK {
      DecisionMeansWindows(config.allow, config.deny, second);
    }
  }

  lemma WrittenOne(config: C.Config, pass: seq<Event>, status: Status)
    requires config.Runnable() && forall s :: Decides(config.Node(), pass, s) <==> s == status
    ensures StatusAsWritten(config, pass, status)
  {
    var c, last := config.Node(), LastReading(pass);
    config.AcceptedRuns(config.Windows().value);
    config.AcceptedFields();
    assert forall s :: Decides(c, pass, s) <==> s == status;
    hide EvaluatorOf, C.Config.Has, LastReading, Tries, ReadAgainst, Forbids, Blocks, BlocksBySet;
    if last.Some? && last.value.WindowRead? {
      ReadAsWritten(config, last.value.second, true);
      ReadAsWritten(config, last.value.second, false);
    }
    if last.Some? && last.value.Inspected? && last.value.records.Some? {
      DecisionBySet(config.nodeName, config.policies, last.value.records.value);
    }
    assert Decides(c, pass, WindowDenied) <==> status.WindowDenied?;
    assert Decides(c, pass, WindowOutside) <==> status.WindowOutside?;
    assert Decides(c, pass, HealthBlocked) <==> status.HealthBlocked?;
    assert Decides(c, pass, LockUnavailable) <==> status.LockUnavailable?;
    assert Decides(c, pass, LockSkipped) <==> status.LockSkipped?;
  }

  /** Every pass that is handed on had no failure, and its status is the one its last reading decides for, as the file has it. */
  ghost predicate AllTold(config: C.Config, trace: seq<Event>)
    requires config.Windows().Ok?
    reads config
  {
    forall i | 0 <= i < |trace| && (trace[i].Hooked? || trace[i].ErrorSlept?) ::
      var pass := CurrentPass(trace[..i]);
      && (trace[i].ErrorSlept? <==> HasFailure(pass))
      && (trace[i].Hooked? ==>
            && (forall s :: Decides(config.Node(), pass, s) <==> s == trace[i].status)
            && StatusAsWritten(config, pass, trace[i].status))
  }

  lemma ToldAll(config: C.Config, executed: bool, trace: seq<Event>)
    requires config.Runnable() && Loop.Accounted(config.Node(), executed, trace)
    ensures AllTold(config, trace)
  {
    config.AcceptedRuns(config.Windows().value);
    hide After, CurrentPass, GatesPassed, AllGates, EvaluatorOf, C.Config.Has, StatusAsWritten, HasFailure, Decides;
    forall i | 0 <= i < |trace| && (trace[i].Hooked? || trace[i].ErrorSlept?)
      ensures trace[i].ErrorSlept? <==> HasFailure(CurrentPass(trace[..i]))
      ensures trace[i].Hooked? ==>
        && (forall s :: Decides(config.Node(), CurrentPass(trace[..i]), s) <==> s == trace[i].status)
        && StatusAsWritten(config, CurrentPass(trace[..i]), trace[i].status)
    {
      FailureIsTold(config.Node(), trace, i);
      if trace[i].Hooked? {
        StatusIsDecided(config.Node(), trace, i);
        WrittenOne(config, CurrentPass(trace[..i]), trace[i].status);
      }
    }
  }

  // ----- Waits, and the configuration file -----

  /** Every wait is as long as the file has it: after a round, between attempts on the lock, and after a failure. */
  ghost predicate AllWaited(config: C.Config, trace: seq<Event>)
    reads config
  {
    forall i | 0 <= i < |trace| ::
      && (trace[i].Slept? ==>
            0 < trace[i].delay && (config.checkIntervalSec * SECOND < TWO63 ==> trace[i].delay == config.checkIntervalSec * SECOND))
      && (trace[i].BackedOff? ==>
            0 < trace[i].delay && (config.backoffMaxSec * SECOND < TWO63 ==>
              config.backoffMinSec * SECOND <= trace[i].delay <= config.backoffMaxSec * SECOND))
      && (trace[i].ErrorSlept? ==> 5 * SECOND <= trace[i].delay <= 60 * SECOND)
  }

  lemma BackoffWaited(config: C.Config, trace: seq<Event>, i: nat)
    requires config.Runnable() && After(config.Node(), Idle, trace).Some? && i < |trace| && trace[i].BackedOff?
    ensures 0 < trace[i].delay
    ensures config.backoffMaxSec * SECOND < TWO63 ==>
      config.backoffMinSec * SECOND <= trace[i].delay <= config.backoffMaxSec * SECOND
  {
    var c := config.Node();
    config.AcceptedRuns(config.Windows().value);
    var (min, max) := LockBounds(c.backoffMinSeconds, c.backoffMaxSeconds);
    hide After, CurrentPass, EvaluatorOf, C.Config.Has, BackoffCeiling, Tries, LockBounds;
    DelayFitsTries(c, trace, i);
    CeilingMeaning(Tries(CurrentPass(trace[..i])) - 1, min, max);
  }

  lemma WaitedAll(config: C.Config, executed: bool, trace: seq<Event>)
    requires config.Runnable() && Loop.Accounted(config.Node(), executed, trace)
    ensures AllWaited(config, trace)
  {
    var c := config.Node();
    config.AcceptedRuns(config.Windows().value);
    hide After, CurrentPass, GatesPassed, AllGates, EvaluatorOf, C.Config.Has, LockBounds, BackoffCeiling, ErrorBackoffAfter;
    hide NodeConfig.RoundInterval;
    forall i | 0 <= i < |trace| && trace[i].Slept?
      ensures trace[i].delay == c.RoundInterval()
    {
      RoundsAreWaited(c, LoopThread, trace, i);
    }
    forall i | 0 <= i < |trace| && trace[i].BackedOff?
      ensures 0 < trace[i].delay
      ensures config.backoffMaxSec * SECOND < TWO63 ==>
        config.backoffMinSec * SECOND <= trace[i].delay <= config.backoffMaxSec * SECOND
    {
      BackoffWaited(config, trace, i);
    }
    forall i | 0 <= i < |trace| && trace[i].ErrorSlept?
      ensures 5 * SECOND <= trace[i].delay <= 60 * SECOND
    {
      ErrorBackoffAtMost(Environment.FailuresInRow(trace[..i + 1]), 5 * SECOND, 60 * SECOND);
    }
  }

  lemma ErrorBackoffAtMost(failures: nat, min: int, max: int)
    requires Bounds(min, max)
    ensures ErrorBackoffAfter(failures, min, max) <= max
  {
    if failures > 0 {
      ErrorBackoffBounded(failures, min, max);
    }
  }

  // ----- The program -----

  lemma RunnableNode(config: C.Config, windows: Option<Evaluator>)
    requires config.Accepted() && EvaluatorOf(config.allow, config.deny) == Ok(windows)
    ensures config.Runnable() && config.Node() == config.NodeFor(windows)
    ensures config.Node().Valid() && (config.Node().errorMinDelay, config.Node().errorMaxDelay) == (5 * SECOND, 60 * SECOND)
  {
    config.AcceptedRuns(windows);
    hide EvaluatorOf, C.Config.Has;
  }

  datatype Ending = ConfigRejected(problems: seq<C.Problem>) | WindowsRejected(error: ListError) | LoopEnded(executed: bool)

  /**
   The program, told perhaps to make a dry run, on a configuration file: it runs exactly if the file is acceptable and each of its
   windows is; whatever the outside then answers, it reboots only if neither file nor call asked for a dry run, every reboot
   command it starts is the one of the file, and in the pass of each all checks came out in favour before and under the lock, the
   policies of the file did not block on the records listed, and its windows were read at a moment they permit. Any other pass
   comes to what its events say, the windows and policies being those of the file; and every wait is as long as the file has it.
   */
  method Run(config: C.Config, dryRun: bool, patience: nat, render: Runner.Message -> string)
    returns (ending: Ending, ghost trace: seq<Event>)
    modifies config
    ensures ending.ConfigRejected? <==> !old(config.Acceptable())
    ensures ending.WindowsRejected? <==> old(config.Acceptable()) && EvaluatorOf(config.allow, config.deny).Err?
    ensures !ending.LoopEnded? ==> trace == []
    ensures ending.LoopEnded? ==>
      && config.Runnable() && Loop.Accounted(config.Node(), ending.executed, trace)
      && AllWanted(config, trace) && AllTold(config, trace) && AllWaited(config, trace)
    ensures config.Defaulted()
    ensures config.dryRun == (old(config.dryRun) || (dryRun && !ending.ConfigRejected?))
  {
    hide Loop.Accounted, AllWanted, AllTold, AllWaited, EvaluatorOf, NodeConfig.Valid, Trim;
    hide C.Config.Acceptable, C.Config.Accepted, C.Config.Runnable, C.Config.Node, C.Config.NodeFor;
    trace := [];
    var problems := config.Decode();
    if problems != [] {
      return ConfigRejected(problems), [];
    }
    if dryRun {
      config.MakeDry();
    }
    var windows := NewEvaluator(config.allow, config.deny);
    if windows.Err? {
      return WindowsRejected(windows.error), [];
    }
    RunnableNode(config, windows.value);
    var executed, _, _, t := Loop.CommandRun(config.NodeFor(windows.value), patience, render);
    ending, trace := LoopEnded(executed), t;
    WantedAll(config, executed, trace);
    ToldAll(config, executed, trace);
    WaitedAll(config, executed, trace);
  }
}
