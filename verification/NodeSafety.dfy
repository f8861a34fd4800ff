/** What holds of every trace of one node: the gates before a reboot, and the lock sessions it takes and gives back. */
module NodeSafety {
  import opened Wrappers
  import opened ClusterPolicy
  import opened WindowEvaluator
  import opened WindowLanguage
  import opened Protocol

  // ----- Gates -----

  /** A check that came out in favour of rebooting. */
  datatype Gate =
    | KillSwitchOff(phase: Phase)
    | WindowOpen
    | RebootRequired(phase: Phase)
    | PolicyMet(phase: Phase)
    | ScriptPassed(phase: Phase)
    | NoCooldown
    | LockTaken
    | CooldownStarted

  /** The gate an event passes, if it passes one; a check with any other answer passes none. */
  ghost function GateOf(c: NodeConfig, e: Event): Option<Gate> {
    match e
    case KillRead(phase, KillOff) => Some(KillSwitchOff(phase))
    case WindowRead(second) =>
      if c.windows.Some? && second < WEEK && Decide(c.windows.value, second).allowed then Some(WindowOpen) else None
    case Detected(phase, RebootNeeded) => Some(RebootRequired(phase))
    case Inspected(phase, Some(records)) => if Blocks(c.name, c.policies, records) then None else Some(PolicyMet(phase))
    case ScriptRan(phase, _, _, Exit(0)) => Some(ScriptPassed(phase))
    case CooldownRead(Absent) => Some(NoCooldown)
    case TtlRead(_, Some(ttl)) => if ttl <= 0 then Some(NoCooldown) else None
    case Annotated(_, true) => Some(LockTaken)
    case CooldownPut(_, true) => Some(CooldownStarted)
    case _ => None
  }

  function Maybe<T>(o: Option<T>): seq<T> {
    if o.Some? then [o.value] else []
  }

  /** The gates passed by a list of events, in order. */
  ghost function GatesPassed(c: NodeConfig, events: seq<Event>): seq<Gate> {
    if events == [] then []
    else GatesPassed(c, events[..|events| - 1]) + Maybe(GateOf(c, events[|events| - 1]))
  }

  /** The events of the current pass: since the loop last began one. */
  function CurrentPass(trace: seq<Event>): seq<Event> {
    if trace == [] then []
    else if trace[|trace| - 1].Began? then [trace[|trace| - 1]]
    else CurrentPass(trace[..|trace| - 1]) + [trace[|trace| - 1]]
  }

  function If(condition: bool, gate: Gate): seq<Gate> {
    if condition then [gate] else []
  }

  /** Every gate of a reboot, in order: before the lock, under the lock, and the cooldown that is started last. */
  function AllGates(c: NodeConfig): seq<Gate> {
    [KillSwitchOff(PreLock)]
    + If(c.windows.Some?, WindowOpen)
    + [RebootRequired(PreLock)]
    + [PolicyMet(PreLock)]
    + [ScriptPassed(PreLock)]
    + If(c.cooldown > 0, NoCooldown)
    + [LockTaken]
    + [KillSwitchOff(PostLock)]
    + [PolicyMet(PostLock)]
    + [RebootRequired(PostLock)]
    + [ScriptPassed(PostLock)]
    + If(c.cooldown > 0, CooldownStarted)
  }

  /** The n-th gate of a reboot, when the configuration has it. */
  function Rung(c: NodeConfig, n: nat): seq<Gate> {
    match n
    case 0 => [KillSwitchOff(PreLock)]
    case 1 => If(c.windows.Some?, WindowOpen)
    case 2 => [RebootRequired(PreLock)]
    case 3 => [PolicyMet(PreLock)]
    case 4 => [ScriptPassed(PreLock)]
    case 5 => If(c.cooldown > 0, NoCooldown)
    case 6 => [LockTaken]
    case 7 => [KillSwitchOff(PostLock)]
    case 8 => [PolicyMet(PostLock)]
    case 9 => [RebootRequired(PostLock)]
    case 10 => [ScriptPassed(PostLock)]
    case 11 => If(c.cooldown > 0, CooldownStarted)
    case _ => []
  }

  function Ladder(c: NodeConfig, n: nat): seq<Gate> {
    if n == 0 then [] else Ladder(c, n - 1) + Rung(c, n - 1)
  }

  lemma LadderIsAllGates(c: NodeConfig)
    ensures Ladder(c, 12) == AllGates(c)
  {
    assert Ladder(c, 1) == Rung(c, 0);
    assert Ladder(c, 2) == Rung(c, 0) + Rung(c, 1);
    assert Ladder(c, 4) == Ladder(c, 2) + Rung(c, 2) + Rung(c, 3);
    assert Ladder(c, 6) == Ladder(c, 4) + Rung(c, 4) + Rung(c, 5);
    assert Ladder(c, 8) == Ladder(c, 6) + Rung(c, 6) + Rung(c, 7);
    assert Ladder(c, 10) == Ladder(c, 8) + Rung(c, 8) + Rung(c, 9);
    assert Ladder(c, 12) == Ladder(c, 10) + Rung(c, 10) + Rung(c, 11);
  }

  /** How many gates a pass that still leads to a reboot has behind it where it is. */
  function Height(pc: Pc): Option<nat> {
    match pc
    case KillPre => Some(0)
    case WindowPre => Some(1)
    case DetectPre => Some(2)
    case InspectPre => Some(3)
    case HealthAt(PreLockRun, stage) => HealthHeight(4, stage)
    case CooldownPre => Some(5)
    case TtlPre(_) => Some(5)
    case Trying(_) => Some(6)
    case Annotating(_, _) => Some(6)
    case BackingOff(_) => Some(6)
    case KillPost(_, _) => Some(7)
    case InspectPost(_, _) => Some(8)
    case DetectPost(_, _) => Some(9)
    case HealthAt(PostLockRun(_, _), stage) => HealthHeight(10, stage)
    case Returned(Holding(_)) => Some(11)
    case Handled(Holding(_)) => Some(11)
    case Putting(_, _) => Some(11)
    case Starting(_) => Some(12)
    case Executing(_) => Some(12)
    case Rebooting(_) => Some(12)
    case _ => None
  }

  /** A health run passes its gate when the script exits with zero. */
  function HealthHeight(before: nat, stage: HealthStage): Option<nat> {
    match stage
    case InMutex(script) => if script == Exit(0) then Some(before + 1) else None
    case Reporting(code) => if code == 0 then Some(before + 1) else None
    case _ => Some(before)
  }

  /** What the places inside a pass presuppose of the configuration. */
  predicate Fits(c: NodeConfig, pc: Pc) {
    match pc
    case WindowPre => c.windows.Some?
    case CooldownPre => c.cooldown > 0
    case TtlPre(_) => c.cooldown > 0
    case Trying(_) => c.lockEnabled
    case Annotating(_, _) => c.lockEnabled
    case BackingOff(_) => c.lockEnabled
    case KillPost(_, _) => c.lockEnabled
    case InspectPost(_, _) => c.lockEnabled
    case DetectPost(_, _) => c.lockEnabled
    case HealthAt(PostLockRun(_, _), _) => c.lockEnabled
    case Unlocking(_, PassEnds(Holding(_))) => false
    case Closing(_, PassEnds(Holding(_)), _) => false
    case Returned(Holding(_)) => c.lockEnabled && c.Reboots()
    case Handled(Holding(_)) => c.lockEnabled && c.Reboots()
    case Putting(_, _) => c.lockEnabled && c.Reboots() && c.cooldown > 0
    case Starting(_) => c.lockEnabled && c.Reboots() && c.cooldown > 0
    case Executing(_) => c.lockEnabled && c.Reboots()
    case Rebooting(_) => c.lockEnabled && c.Reboots()
    case _ => true
  }

  /** The gates between two heights of the ladder are those the event passes. */
  ghost predicate Climbs(c: NodeConfig, from: nat, to: nat, e: Event) {
    || (to == from && GateOf(c, e) == None)
    || (to == from + 1 && Rung(c, from) == Maybe(GateOf(c, e)))
    || (to == from + 2 && Rung(c, from) == Maybe(GateOf(c, e)) && Rung(c, from + 1) == [])
  }

  /** A step inside a pass that still leads to a reboot passes exactly the gates between its two places. */
  ghost predicate Climbed(c: NodeConfig, pc: Pc, pc': Pc, e: Event) {
    Height(pc').Some? ==>
      if e.Began? then Height(pc') == Some(0)
      else Height(pc).Some? && Climbs(c, Height(pc).value, Height(pc').value, e)
  }

  /** The command can be started from here. */
  ghost predicate AtTop(c: NodeConfig, pc: Pc) {
    (Height(pc) == Some(12) || (Height(pc) == Some(11) && c.cooldown == 0)) && c.lockEnabled && c.Reboots()
  }

  /** What a step of a pass keeps and passes. */
  ghost predicate GateKept(c: NodeConfig, pc: Pc, pc': Pc, e: Event) {
    Fits(c, pc') && Climbed(c, pc, pc', e) && (e.ExecStarted? ==> AtTop(c, pc) && e.command == c.command)
  }

  lemma GateBeforeLock(c: NodeConfig, pc: Pc, e: Event)
    requires Fits(c, pc)
    ensures NextBeforeLock(c, pc, e).Some? ==> GateKept(c, pc, NextBeforeLock(c, pc, e).value, e)
  {
    hide Blocks, Decide;
  }

  lemma GateAcquiring(c: NodeConfig, pc: Pc, e: Event)
    requires Fits(c, pc)
    ensures NextAcquiring(c, pc, e).Some? ==> GateKept(c, pc, NextAcquiring(c, pc, e).value, e)
  {
    hide NodeConfig.LockBackoffCeiling, NodeConfig.LockBackoffMin;
  }

  lemma GateUnderLock(c: NodeConfig, pc: Pc, e: Event)
    requires Fits(c, pc)
    ensures NextUnderLock(c, pc, e).Some? ==> GateKept(c, pc, NextUnderLock(c, pc, e).value, e)
  {
    hide Blocks;
  }

  lemma GateInLoop(c: NodeConfig, pc: Pc, e: Event)
    requires Fits(c, pc)
    ensures NextInLoop(c, pc, e).Some? ==> GateKept(c, pc, NextInLoop(c, pc, e).value, e)
  {
  }

  lemma GateHeartbeat(c: NodeConfig, pc: Pc, e: Event)
    requires Fits(c, pc)
    ensures NextHeartbeat(c, pc, e).Some? ==> GateKept(c, pc, NextHeartbeat(c, pc, e).value, e)
  {
  }

  lemma GateHealth(c: NodeConfig, pc: Pc, e: Event)
    requires pc.HealthAt? && Fits(c, pc)
    ensures NextHealth(c, pc.run, pc.stage, e).Some? ==> GateKept(c, pc, NextHealth(c, pc.run, pc.stage, e).value, e)
  {
    hide Blocks, Decide, NodeConfig.Reboots, NodeConfig.PublishesHealth;
  }

  lemma GateStep(c: NodeConfig, pc: Pc, e: Event)
    requires Fits(c, pc) && Next(c, pc, e).Some?
    ensures var pc' := Next(c, pc, e).value;
      Fits(c, pc') && Climbed(c, pc, pc', e) && (e.ExecStarted? ==> AtTop(c, pc) && e.command == c.command)
  {
    hide Next, NextHealth, NextBeforeLock, NextAcquiring, NextUnderLock, NextHeartbeat, NextInLoop, Climbed, Fits, AtTop;
    NextCases(c, pc, e);
    GateBeforeLock(c, pc, e);
    GateAcquiring(c, pc, e);
    GateUnderLock(c, pc, e);
    GateInLoop(c, pc, e);
    GateHeartbeat(c, pc, e);
    if pc.HealthAt? {
      GateHealth(c, pc, e);
    }
  }

  /** A pass with gates behind it has passed exactly those, in order. */
  ghost predicate OnLadder(c: NodeConfig, pc: Pc, pass: seq<Event>) {
    Fits(c, pc) && (Height(pc).Some? ==> GatesPassed(c, pass) == Ladder(c, Height(pc).value))
  }

  /** The history of the pass that an event belongs to. */
  function Extended(pass: seq<Event>, e: Event): seq<Event> {
    if e.Began? then [e] else pass + [e]
  }

  lemma BeganPassesNoGate(c: NodeConfig, e: Event)
    requires e.Began?
    ensures GateOf(c, e) == None
  {
  }

  lemma GatesPassedExtend(c: NodeConfig, pass: seq<Event>, e: Event)
    ensures GatesPassed(c, pass + [e]) == GatesPassed(c, pass) + Maybe(GateOf(c, e))
    ensures GatesPassed(c, [e]) == Maybe(GateOf(c, e))
  {
    hide GateOf;
    assert (pass + [e])[..|pass|] == pass;
    assert [e][..0] == [];
    assert [] + Maybe(GateOf(c, e)) == Maybe(GateOf(c, e));
  }

  /** Every step of a node keeps its current pass on the ladder. */
  lemma LadderStep(c: NodeConfig, pc: Pc, pass: seq<Event>, e: Event)
    requires OnLadder(c, pc, pass) && Next(c, pc, e).Some?
    ensures OnLadder(c, Next(c, pc, e).value, Extended(pass, e))
  {
    hide Next, Fits, Height, Rung, GateOf, GatesPassed;
    GatesPassedExtend(c, pass, e);
    GateStep(c, pc, e);
    if Height(pc).Some? {
      var h := Height(pc).value;
      assert Ladder(c, h + 1) == Ladder(c, h) + Rung(c, h);
      assert Ladder(c, h + 2) == Ladder(c, h + 1) + Rung(c, h + 1);
    }
    if e.Began? {
      BeganPassesNoGate(c, e);
    }
  }

  lemma {:induction false} TraceOnLadder(c: NodeConfig, trace: seq<Event>)
    requires After(c, Idle, trace).Some?
    ensures OnLadder(c, After(c, Idle, trace).value, CurrentPass(trace))
  {
    if trace != [] {
      hide Next, OnLadder;
      TraceOnLadder(c, trace[..|trace| - 1]);
      LadderStep(c, After(c, Idle, trace[..|trace| - 1]).value, CurrentPass(trace[..|trace| - 1]), trace[|trace| - 1]);
    } else {
      assert Height(Idle) == None;
    }
  }

  /**
   Whenever a node starts the reboot command, the checks its current pass came through are exactly all the gates of a
   reboot, each once and in order, it is configured to take the lock and to reboot, and the command is the one configured.
   */
  lemma RebootPassedAllGates(c: NodeConfig, trace: seq<Event>, i: nat)
    requires i < |trace| && trace[i].ExecStarted? && After(c, Idle, trace).Some?
    ensures GatesPassed(c, CurrentPass(trace[..i])) == AllGates(c)
    ensures c.lockEnabled && !c.dryRun && trace[i].command == c.command != []
  {
    hide Next, Fits, Height, Climbed, GatesPassed, CurrentPass, AllGates, Ladder;
    PrefixRuns(c, Idle, trace, i + 1);
    assert trace[..i + 1][..i] == trace[..i];
    TraceOnLadder(c, trace[..i]);
    LadderIsAllGates(c);
    GateStep(c, After(c, Idle, trace[..i]).value, trace[i]);
    LastRung(c);
  }

  lemma LastRung(c: NodeConfig)
    ensures c.cooldown == 0 ==> Ladder(c, 12) == Ladder(c, 11)
  {
  }

  // ----- Lock sessions -----

  function CountGrants(trace: seq<Event>, session: nat): nat {
    if trace == [] then 0
    else CountGrants(trace[..|trace| - 1], session) + if trace[|trace| - 1] == TryLocked(Granted(session)) then 1 else 0
  }

  function CountUnlocks(trace: seq<Event>, session: nat): nat {
    if trace == [] then 0
    else
      var last := trace[|trace| - 1];
      CountUnlocks(trace[..|trace| - 1], session) + if last.Unlocked? && last.session == session then 1 else 0
  }

  function CountCloses(trace: seq<Event>, session: nat): nat {
    if trace == [] then 0
    else
      var last := trace[|trace| - 1];
      CountCloses(trace[..|trace| - 1], session) + if last.Closed? && last.session == session then 1 else 0
  }

  function Owes(pc: Pc, session: nat): nat {
    if Holds(pc) == Some(session) then 1 else 0
  }

  function OwesClose(pc: Pc, session: nat): nat {
    if pc.Closing? && pc.session == session then 1 else 0
  }

  /** A step changes what is owed by what it takes and gives back; it begins a pass, or succeeds in rebooting, only as allowed. */
  ghost predicate SessionKept(pc: Pc, pc': Pc, e: Event, session: nat) {
    && Owes(pc', session) + (if e.Unlocked? && e.session == session then 1 else 0)
       == Owes(pc, session) + (if e == TryLocked(Granted(session)) then 1 else 0)
    && OwesClose(pc', session) + (if e.Closed? && e.session == session then 1 else 0)
       == OwesClose(pc, session) + (if e.Unlocked? && e.session == session then 1 else 0)
    && (e.Began? ==> Owes(pc, session) == OwesClose(pc, session) == 0)
    && (pc'.Rebooting? ==> e == ExecEnded(true))
  }

  /** The session a node may still act on: one it owns, or one it is closing. */
  function Touches(pc: Pc): Option<nat> {
    if pc.Closing? then Some(pc.session) else Holds(pc)
  }

  /** A node comes to own or to close a session only by being granted it, and frees none but its own. */
  ghost predicate TouchKept(pc: Pc, pc': Pc, e: Event) {
    && (Touches(pc').Some? ==> Touches(pc') == Touches(pc) || e == TryLocked(Granted(Touches(pc').value)))
    && (Holds(pc').Some? ==> (Holds(pc') == Holds(pc) && !e.Unlocked? && !e.Closed?) || e == TryLocked(Granted(Holds(pc').value)))
    && (e.TryLocked? ==> Touches(pc) == None)
    && (e.Unlocked? || e.Closed? ==> Touches(pc) == Some(e.session))
  }

  ghost predicate LockKept(pc: Pc, pc': Pc, e: Event, session: nat) {
    SessionKept(pc, pc', e, session) && TouchKept(pc, pc', e)
  }

  lemma LockBeforeLock(c: NodeConfig, pc: Pc, e: Event, session: nat)
    requires Fits(c, pc)
    ensures NextBeforeLock(c, pc, e).Some? ==> LockKept(pc, NextBeforeLock(c, pc, e).value, e, session)
  {
    hide Blocks, Decide;
  }

  lemma LockAcquiring(c: NodeConfig, pc: Pc, e: Event, session: nat)
    requires Fits(c, pc)
    ensures NextAcquiring(c, pc, e).Some? ==> LockKept(pc, NextAcquiring(c, pc, e).value, e, session)
  {
    hide NodeConfig.LockBackoffCeiling, NodeConfig.LockBackoffMin;
  }

  lemma LockUnderLock(c: NodeConfig, pc: Pc, e: Event, session: nat)
    requires Fits(c, pc)
    ensures NextUnderLock(c, pc, e).Some? ==> LockKept(pc, NextUnderLock(c, pc, e).value, e, session)
  {
    hide Blocks;
  }

  lemma LockInLoop(c: NodeConfig, pc: Pc, e: Event, session: nat)
    requires Fits(c, pc)
    ensures NextInLoop(c, pc, e).Some? ==> LockKept(pc, NextInLoop(c, pc, e).value, e, session)
  {
    hide NodeConfig.Reboots, NodeConfig.CooldownSeconds;
  }

  lemma LockHeartbeat(c: NodeConfig, pc: Pc, e: Event, session: nat)
    requires Fits(c, pc)
    ensures NextHeartbeat(c, pc, e).Some? ==> LockKept(pc, NextHeartbeat(c, pc, e).value, e, session)
  {
  }

  lemma LockHealth(c: NodeConfig, pc: Pc, e: Event, session: nat)
    requires pc.HealthAt? && Fits(c, pc)
    ensures NextHealth(c, pc.run, pc.stage, e).Some? ==> LockKept(pc, NextHealth(c, pc.run, pc.stage, e).value, e, session)
  {
    hide NodeConfig.Reboots, NodeConfig.PublishesHealth;
  }

  lemma LockStep(c: NodeConfig, pc: Pc, e: Event, session: nat)
    requires Fits(c, pc) && Next(c, pc, e).Some?
    ensures SessionKept(pc, Next(c, pc, e).value, e, session) && TouchKept(pc, Next(c, pc, e).value, e)
  {
    hide Next, NextHealth, NextBeforeLock, NextAcquiring, NextUnderLock, NextHeartbeat, NextInLoop, Fits, SessionKept, TouchKept;
    NextCases(c, pc, e);
    LockBeforeLock(c, pc, e, session);
    LockAcquiring(c, pc, e, session);
    LockUnderLock(c, pc, e, session);
    LockInLoop(c, pc, e, session);
    LockHeartbeat(c, pc, e, session);
    if pc.HealthAt? {
      LockHealth(c, pc, e, session);
    }
  }

  /**
   In every trace, each lock session is given back as often as it was granted, except that a node now owning it still
   owes one release, and a node between its two release calls still owes the closing.
   */
  lemma {:induction false} SessionsConserved(c: NodeConfig, trace: seq<Event>, session: nat)
    requires After(c, Idle, trace).Some?
    ensures var pc := After(c, Idle, trace).value;
      && CountGrants(trace, session) == CountUnlocks(trace, session) + Owes(pc, session)
      && CountUnlocks(trace, session) == CountCloses(trace, session) + OwesClose(pc, session)
  {
    if trace != [] {
      hide Next, Fits;
      var before := trace[..|trace| - 1];
      SessionsConserved(c, before, session);
      TraceOnLadder(c, before);
      LockStep(c, After(c, Idle, before).value, trace[|trace| - 1], session);
    }
  }

  /** The loop has ended: it stopped, or reported a dry run, or its reboot command succeeded. */
  predicate Ended(pc: Pc) {
    pc.Stopped? || pc.Rebooting? || (pc.Handled? && pc.result.Done? && pc.result.status == Ready)
  }

  /** The loop ends owing the release of a session only after its reboot command succeeded. */
  lemma EndsOwingOnlyAfterReboot(c: NodeConfig, trace: seq<Event>, session: nat)
    requires After(c, Idle, trace).Some? && Ended(After(c, Idle, trace).value)
    requires CountGrants(trace, session) != CountUnlocks(trace, session)
    ensures trace != [] && trace[|trace| - 1] == ExecEnded(true)
  {
    hide Next, Fits;
    SessionsConserved(c, trace, session);
    assert After(c, Idle, trace).value.Rebooting?;
    assert trace != [];
    var before := After(c, Idle, trace[..|trace| - 1]).value;
    assert Next(c, before, trace[|trace| - 1]) == After(c, Idle, trace);
    TraceOnLadder(c, trace[..|trace| - 1]);
    LockStep(c, before, trace[|trace| - 1], session);
  }

  /** A new pass begins owing nothing: every session granted before was given back and closed. */
  lemma PassBeginsOwingNothing(c: NodeConfig, trace: seq<Event>, i: nat, session: nat)
    requires i < |trace| && trace[i].Began? && After(c, Idle, trace).Some?
    ensures CountGrants(trace[..i], session) == CountUnlocks(trace[..i], session) == CountCloses(trace[..i], session)
  {
    hide Next, Fits;
    PrefixRuns(c, Idle, trace, i + 1);
    assert trace[..i + 1][..i] == trace[..i];
    SessionsConserved(c, trace[..i], session);
    TraceOnLadder(c, trace[..i]);
    LockStep(c, After(c, Idle, trace[..i]).value, trace[i], session);
  }
}
