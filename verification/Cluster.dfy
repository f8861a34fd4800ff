/**
 Any number of nodes running the reboot protocol against one shared store: a lock owned by sessions, and a cooldown key
 kept alive by a lease. Nodes take their steps in any order, crash and restart at any time; sessions and leases expire.
 */
module Cluster {
  import opened Wrappers
  import opened Backoff
  import opened Protocol
  import WindowLanguage
  import opened NodeSafety

  type NodeId = nat

  type Configs = map<NodeId, NodeConfig>

  datatype LeaseStatus = Live | Expired | Revoked

  datatype Lease = Lease(granted: int, seconds: nat, status: LeaseStatus) {
    /** When the lease may expire at the earliest. */
    function Deadline(): int {
      granted + seconds * SECOND
    }
  }

  /** The shared store, and the time. */
  datatype Store = Store(lock: Option<nat>, nextSession: nat, key: Option<nat>, leases: map<nat, Lease>, nextLease: nat, now: int)

  datatype Node = Down | Up(pc: Pc, pass: seq<Event>)

  datatype State = State(nodes: map<NodeId, Node>, store: Store)

  datatype Step =
    | NodeStep(node: NodeId, event: Event, applied: bool)
    | Crash(node: NodeId)
    | Restart(node: NodeId)
    | SessionExpires
    | LeaseExpires(lease: nat)
    | Tick(elapsed: nat)

  // ----- What a node's event does to the store, and which answers the store can give -----

  function Free(store: Store, session: nat): Store {
    if store.lock == Some(session) then store.(lock := None) else store
  }

  function Drop(store: Store, lease: nat, status: LeaseStatus): Store {
    store.(leases := if lease in store.leases then store.leases[lease := store.leases[lease].(status := status)] else store.leases,
           key := if store.key == Some(lease) then None else store.key)
  }

  predicate LiveLease(store: Store, lease: nat) {
    lease in store.leases && store.leases[lease].status.Live?
  }

  /** A reading of the remaining time is cut to whole seconds, so it falls short by less than one; no time remains to a dead lease. */
  predicate TtlPossible(store: Store, lease: nat, ttl: int) {
    if LiveLease(store, lease) then ttl * SECOND + SECOND > store.leases[lease].Deadline() - store.now else ttl <= 0
  }

  /** The second of the week at a time of the store's clock. */
  function WeekSecond(now: int): (t: nat)
    ensures t < WindowLanguage.WEEK
  {
    (now / SECOND) % WindowLanguage.WEEK
  }

  /** `applied` says whether a call that reported an error took effect all the same. */
  function Effect(store: Store, e: Event, applied: bool): Option<Store> {
    match e
    case WindowRead(second) => if second == WeekSecond(store.now) then Some(store) else None
    case TryLocked(Granted(s)) =>
      if store.lock == None && s == store.nextSession
      then Some(store.(lock := Some(s), nextSession := s + 1)) else None
    case TryLocked(Busy) => if store.lock.Some? then Some(store) else None
    case TryLocked(TryFailed) =>
      Some(if applied && store.lock == None
           then store.(lock := Some(store.nextSession), nextSession := store.nextSession + 1) else store)
    case Annotated(s, ok) => if ok && store.lock != Some(s) then None else Some(store)
    case Unlocked(s, ok) => Some(if ok || applied then Free(store, s) else store)
    case Closed(s, ok) => Some(if ok || applied then Free(store, s) else store)
    case CooldownRead(Absent) => if store.key == None then Some(store) else None
    case CooldownRead(Present(lease)) => if store.key.Some? && store.key == lease then Some(store) else None
    case TtlRead(lease, Some(ttl)) => if TtlPossible(store, lease, ttl) then Some(store) else None
    case LeaseGranted(seconds, Some(lease)) =>
      if lease == store.nextLease
      then Some(store.(leases := store.leases[lease := Lease(store.now, seconds, Live)], nextLease := lease + 1)) else None
    case CooldownPut(lease, ok) =>
      if ok && !LiveLease(store, lease) then None
      else Some(if (ok || applied) && LiveLease(store, lease) then store.(key := Some(lease)) else store)
    case LeaseRevoked(lease, ok) => Some(if ok || applied then Drop(store, lease, Revoked) else store)
    case _ => Some(store)
  }

  ghost function Apply(cs: Configs, s: State, step: Step): Option<State> {
    match step
    case NodeStep(n, e, applied) =>
      if n !in cs || n !in s.nodes || s.nodes[n].Down? then None
      else
        var pc, store := Next(cs[n], s.nodes[n].pc, e), Effect(s.store, e, applied);
        if pc == None || store == None then None
        else Some(State(s.nodes[n := Up(pc.value, Extended(s.nodes[n].pass, e))], store.value))
    case Crash(n) => if n in s.nodes then Some(s.(nodes := s.nodes[n := Down])) else None
    case Restart(n) => if n in s.nodes && s.nodes[n].Down? then Some(s.(nodes := s.nodes[n := Up(Idle, [])])) else None
    case SessionExpires => Some(s.(store := s.store.(lock := None)))
    case LeaseExpires(lease) =>
      if LiveLease(s.store, lease) && s.store.now >= s.store.leases[lease].Deadline()
      then Some(s.(store := Drop(s.store, lease, Expired))) else None
    case Tick(elapsed) => Some(s.(store := s.store.(now := s.store.now + elapsed)))
  }

  ghost function Run(cs: Configs, s: State, steps: seq<Step>): Option<State> {
    if steps == [] then Some(s)
    else
      match Run(cs, s, steps[..|steps| - 1])
      case None => None
      case Some(before) => Apply(cs, before, steps[|steps| - 1])
  }

  ghost predicate Init(cs: Configs, s: State) {
    && s.nodes.Keys == cs.Keys
    && (forall n | n in s.nodes :: s.nodes[n] == Down || s.nodes[n] == Up(Idle, []))
    && s.store == Store(None, 0, None, map[], 0, s.store.now)
  }

  function HeldBy(node: Node): Option<nat> {
    if node.Up? then Holds(node.pc) else None
  }

  /** The session a node may still act on: one it owns, or one it is closing. */
  function TouchedBy(node: Node): Option<nat> {
    if node.Up? && node.pc.Closing? then Some(node.pc.session) else HeldBy(node)
  }

  /** The lock session of a node that is up and owns it expires: what the keep-alive of a live session is there to prevent. */
  ghost predicate LiveExpiry(s: State, step: Step) {
    step.SessionExpires? && s.store.lock.Some? && exists n :: n in s.nodes && HeldBy(s.nodes[n]) == s.store.lock
  }

  ghost predicate NoLiveExpiry(cs: Configs, s: State, steps: seq<Step>) {
    forall i | 0 <= i < |steps| && Run(cs, s, steps[..i]).Some? :: !LiveExpiry(Run(cs, s, steps[..i]).value, steps[i])
  }

  // ----- Mutual exclusion -----

  ghost predicate SessionsSeparate(s: State) {
    && (s.store.lock.Some? ==> s.store.lock.value < s.store.nextSession)
    && (forall n | n in s.nodes && TouchedBy(s.nodes[n]).Some? :: TouchedBy(s.nodes[n]).value < s.store.nextSession)
    && (forall n, m | n in s.nodes && m in s.nodes && n != m && TouchedBy(s.nodes[n]).Some? ::
          TouchedBy(s.nodes[n]) != TouchedBy(s.nodes[m]))
    && (forall n | n in s.nodes && HeldBy(s.nodes[n]).Some? :: HeldBy(s.nodes[n]) == s.store.lock)
  }

  ghost predicate NodesOnLadder(cs: Configs, s: State) {
    && s.nodes.Keys == cs.Keys
    && forall n | n in s.nodes && s.nodes[n].Up? :: OnLadder(cs[n], s.nodes[n].pc, s.nodes[n].pass)
  }

  ghost predicate Inv(cs: Configs, s: State) {
    NodesOnLadder(cs, s) && SessionsSeparate(s)
  }

  /** What each event does to the lock. */
  lemma EffectOnLock(store: Store, e: Event, applied: bool)
    requires Effect(store, e, applied).Some?
    ensures var after := Effect(store, e, applied).value;
      && after.nextSession >= store.nextSession
      && (after.lock == store.lock
          || (after.lock == None && (e.Unlocked? || e.Closed?) && store.lock == Some(e.session))
          || (store.lock == None && after.lock == Some(store.nextSession) && after.nextSession == store.nextSession + 1 && e.TryLocked?))
      && (e.TryLocked? && e.lock.Granted? ==>
            store.lock == None && e.lock.session == store.nextSession && after.lock == Some(store.nextSession)
            && after.nextSession == store.nextSession + 1)
  {
  }

  lemma HeldIsTouched(node: Node)
    ensures HeldBy(node).Some? ==> TouchedBy(node) == HeldBy(node)
    ensures node.Up? ==> TouchedBy(node) == Touches(node.pc) && HeldBy(node) == Holds(node.pc)
  {
  }

  lemma LadderFits(c: NodeConfig, pc: Pc, pass: seq<Event>)
    requires OnLadder(c, pc, pass)
    ensures Fits(c, pc)
  {
  }

  lemma NodeStepKeepsSessions(cs: Configs, s: State, n: NodeId, e: Event, applied: bool)
    requires Inv(cs, s) && Apply(cs, s, NodeStep(n, e, applied)).Some?
    ensures SessionsSeparate(Apply(cs, s, NodeStep(n, e, applied)).value)
  {
    hide Next, Effect, OnLadder, Fits, Holds, Touches, HeldBy, TouchedBy;
    var s' := Apply(cs, s, NodeStep(n, e, applied)).value;
    LadderFits(cs[n], s.nodes[n].pc, s.nodes[n].pass);
    LockStep(cs[n], s.nodes[n].pc, e, 0);
    EffectOnLock(s.store, e, applied);
    HeldIsTouched(s.nodes[n]);
    HeldIsTouched(s'.nodes[n]);
    forall m | m in s.nodes
      ensures HeldBy(s.nodes[m]).Some? ==> TouchedBy(s.nodes[m]) == HeldBy(s.nodes[m])
    {
      HeldIsTouched(s.nodes[m]);
    }
  }

  lemma NodeStepKeepsLadder(cs: Configs, s: State, n: NodeId, e: Event, applied: bool)
    requires NodesOnLadder(cs, s) && Apply(cs, s, NodeStep(n, e, applied)).Some?
    ensures NodesOnLadder(cs, Apply(cs, s, NodeStep(n, e, applied)).value)
  {
    hide Next, Effect, OnLadder;
    LadderStep(cs[n], s.nodes[n].pc, s.nodes[n].pass, e);
  }

  lemma HoldsNothing()
    ensures HeldBy(Down) == TouchedBy(Down) == HeldBy(Up(Idle, [])) == TouchedBy(Up(Idle, [])) == None
  {
  }

  lemma OutsideStepKeepsSessions(cs: Configs, s: State, step: Step)
    requires SessionsSeparate(s) && Apply(cs, s, step).Some? && !step.NodeStep? && !LiveExpiry(s, step)
    ensures SessionsSeparate(Apply(cs, s, step).value)
  {
    HoldsNothing();
    hide Next, Effect, HeldBy, TouchedBy;
  }

  lemma StepKeepsInv(cs: Configs, s: State, step: Step)
    requires Inv(cs, s) && Apply(cs, s, step).Some? && !LiveExpiry(s, step)
    ensures Inv(cs, Apply(cs, s, step).value)
  {
    hide Apply, NodesOnLadder, SessionsSeparate, LiveExpiry;
    StepKeepsLadder(cs, s, step);
    if step.NodeStep? {
      NodeStepKeepsSessions(cs, s, step.node, step.event, step.applied);
    } else {
      OutsideStepKeepsSessions(cs, s, step);
    }
  }

  lemma {:induction false} RunKeepsInv(cs: Configs, s: State, steps: seq<Step>)
    requires Init(cs, s) && Run(cs, s, steps).Some? && NoLiveExpiry(cs, s, steps)
    ensures Inv(cs, Run(cs, s, steps).value)
  {
    hide Apply, Inv, LiveExpiry;
    if steps == [] {
      InitInv(cs, s);
    } else {
      var before := steps[..|steps| - 1];
      forall i | 0 <= i < |before| && Run(cs, s, before[..i]).Some?
        ensures !LiveExpiry(Run(cs, s, before[..i]).value, before[i])
      {
        assert before[..i] == steps[..i];
      }
      RunKeepsInv(cs, s, before);
      StepKeepsInv(cs, Run(cs, s, before).value, steps[|steps| - 1]);
    }
  }

  lemma InitInv(cs: Configs, s: State)
    requires Init(cs, s)
    ensures Inv(cs, s)
  {
    IdleOnLadder();
  }

  lemma IdleOnLadder()
    ensures forall c: NodeConfig :: OnLadder(c, Idle, [])
    ensures Holds(Idle) == None
  {
  }

  /**
   As long as no node loses the session it owns while it is up, at most one node at a time is anywhere between being
   granted the lock and trying to give it back; so at most one is running the reboot command.
   */
  lemma MutualExclusion(cs: Configs, s: State, steps: seq<Step>, n: NodeId, m: NodeId)
    requires Init(cs, s) && Run(cs, s, steps).Some? && NoLiveExpiry(cs, s, steps)
    requires var end := Run(cs, s, steps).value;
      n in end.nodes && m in end.nodes && HeldBy(end.nodes[n]).Some? && HeldBy(end.nodes[m]).Some?
    ensures n == m
  {
    RunKeepsInv(cs, s, steps);
    var end := Run(cs, s, steps).value;
    HeldIsTouched(end.nodes[n]);
    HeldIsTouched(end.nodes[m]);
  }

  /** In every reachable state, a node that is running the reboot command came, in this pass, through all the gates. */
  lemma ExecutingPassedAllGates(cs: Configs, s: State, steps: seq<Step>, n: NodeId)
    requires Init(cs, s) && Run(cs, s, steps).Some?
    requires var end := Run(cs, s, steps).value; n in end.nodes && end.nodes[n].Up? && end.nodes[n].pc.Executing?
    ensures n in cs && GatesPassed(cs[n], Run(cs, s, steps).value.nodes[n].pass) == AllGates(cs[n])
  {
    hide Run, Init, OnLadder, Ladder, AllGates, GatesPassed;
    RunKeepsLadder(cs, s, steps);
    LadderIsAllGates(cs[n]);
    var node := Run(cs, s, steps).value.nodes[n];
    ExecutingIsOnTop(cs[n], node.pc, node.pass);
  }

  lemma ExecutingIsOnTop(c: NodeConfig, pc: Pc, pass: seq<Event>)
    requires OnLadder(c, pc, pass) && pc.Executing?
    ensures GatesPassed(c, pass) == Ladder(c, 12)
  {
    hide GatesPassed, Ladder;
  }

  lemma {:induction false} RunKeepsLadder(cs: Configs, s: State, steps: seq<Step>)
    requires Init(cs, s) && Run(cs, s, steps).Some?
    ensures NodesOnLadder(cs, Run(cs, s, steps).value)
  {
    if steps == [] {
      IdleOnLadder();
    } else {
      var before := Run(cs, s, steps[..|steps| - 1]).value;
      RunKeepsLadder(cs, s, steps[..|steps| - 1]);
      StepKeepsLadder(cs, before, steps[|steps| - 1]);
    }
  }

  lemma StepKeepsLadder(cs: Configs, s: State, step: Step)
    requires NodesOnLadder(cs, s) && Apply(cs, s, step).Some?
    ensures NodesOnLadder(cs, Apply(cs, s, step).value)
  {
    if step.NodeStep? {
      NodeStepKeepsLadder(cs, s, step.node, step.event, step.applied);
    } else {
      IdleOnLadder();
      hide Next, Effect, OnLadder;
    }
  }
}
