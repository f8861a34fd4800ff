/**
 How far apart reboots are. A node that reads the cooldown after another node's successful start of it reboots no earlier
 than the configured interval after that start, less the second a reading of the remaining time may fall short.
 */
module CooldownSpacing {
  import opened Wrappers
  import opened Backoff
  import opened Protocol
  import opened NodeSafety
  import opened Cluster
  import WindowEvaluator

  /** Every node that has a cooldown has one of at least this interval. */
  ghost predicate CommonInterval(cs: Configs, interval: int) {
    forall n | n in cs && cs[n].cooldown > 0 :: cs[n].cooldown >= interval
  }

  /** A write of the cooldown key that reports an error although it took effect; taking it back may remove the key. */
  predicate UntoldWrite(step: Step) {
    step.NodeStep? && step.event.CooldownPut? && !step.event.ok && step.applied
  }

  /** The cooldown lease a node may still write the key under, or take back. */
  function LeaseOf(pc: Pc): Option<nat> {
    match pc
    case Putting(_, lease) => Some(lease)
    case Revoking(_, lease) => Some(lease)
    case _ => None
  }

  function LeaseBy(node: Node): Option<nat> {
    if node.Up? then LeaseOf(node.pc) else None
  }

  /** The gate of the cooldown lies behind. */
  predicate PastCheck(pc: Pc) {
    Height(pc).Some? && Height(pc).value >= 6
  }

  /** How a node comes by cooldown leases, what it does with them, and how it gets past the cooldown check. */
  ghost predicate CooldownKept(c: NodeConfig, pc: Pc, pc': Pc, e: Event) {
    && (LeaseOf(pc').Some? ==> (LeaseOf(pc') == LeaseOf(pc) && pc'.Revoking?) || (e.LeaseGranted? && e.granted == LeaseOf(pc')))
    && (LeaseOf(pc).Some? ==> Holds(pc).Some?)
    && (e.LeaseGranted? ==> c.cooldown > 0 && e.seconds == c.CooldownSeconds())
    && (e.CooldownPut? ==> LeaseOf(pc) == Some(e.lease) && (e.ok ==> LeaseOf(pc') == None))
    && (e.LeaseRevoked? ==> LeaseOf(pc) == Some(e.lease) && LeaseOf(pc') == None)
    && (pc'.TtlPre? ==> e == CooldownRead(Present(Some(pc'.lease))))
    && (PastCheck(pc') && c.cooldown > 0 && !PastCheck(pc) ==>
          || e == CooldownRead(Absent)
          || (e.TtlRead? && pc == TtlPre(e.lease) && e.ttl.Some? && e.ttl.value <= 0))
  }

  ghost predicate ReadingLeads(pc: Pc, pc': Pc, e: Event) {
    e.CooldownRead? ==> LeaseOf(pc) == LeaseOf(pc') == None && (PastCheck(pc') ==> e.cooldown == Absent)
  }

  /** The rest of a pass after its start of the cooldown. */
  predicate Aftermath(pc: Pc) {
    match pc
    case Starting(_) => true
    case Executing(_) => true
    case Rebooting(_) => true
    case Unlocking(_, LoopEnds) => true
    case Closing(_, LoopEnds, _) => true
    case Stopped => true
    case _ => false
  }

  /** A start of the cooldown leads to the rest of its pass, in which the key is left alone. */
  ghost predicate AftermathKept(pc: Pc, pc': Pc, e: Event) {
    && (Aftermath(pc) ==> Aftermath(pc') && !e.CooldownPut? && !e.CooldownRead? && !e.Began?)
    && (e.CooldownPut? ==> pc.Putting? && (e.ok ==> Aftermath(pc')))
  }

  ghost predicate KeyKept(c: NodeConfig, pc: Pc, pc': Pc, e: Event) {
    CooldownKept(c, pc, pc', e) && ReadingLeads(pc, pc', e) && AftermathKept(pc, pc', e)
  }

  lemma KeyBeforeLock(c: NodeConfig, pc: Pc, e: Event)
    requires Fits(c, pc)
    ensures NextBeforeLock(c, pc, e).Some? ==> KeyKept(c, pc, NextBeforeLock(c, pc, e).value, e)
  {
    hide Allows, WindowEvaluator.Decide;
  }

  lemma KeyAcquiring(c: NodeConfig, pc: Pc, e: Event)
    requires Fits(c, pc)
    ensures NextAcquiring(c, pc, e).Some? ==> KeyKept(c, pc, NextAcquiring(c, pc, e).value, e)
  {
    hide NodeConfig.LockBackoffCeiling, NodeConfig.LockBackoffMin;
  }

  lemma KeyUnderLock(c: NodeConfig, pc: Pc, e: Event)
    requires Fits(c, pc)
    ensures NextUnderLock(c, pc, e).Some? ==> KeyKept(c, pc, NextUnderLock(c, pc, e).value, e)
  {
    hide Allows;
  }

  lemma KeyInLoop(c: NodeConfig, pc: Pc, e: Event)
    requires Fits(c, pc)
    ensures NextInLoop(c, pc, e).Some? ==> KeyKept(c, pc, NextInLoop(c, pc, e).value, e)
  {
    hide NodeConfig.CooldownSeconds, NodeConfig.Reboots;
  }

  lemma KeyHeartbeat(c: NodeConfig, pc: Pc, e: Event)
    requires Fits(c, pc)
    ensures NextHeartbeat(c, pc, e).Some? ==> KeyKept(c, pc, NextHeartbeat(c, pc, e).value, e)
  {
  }

  lemma KeyHealth(c: NodeConfig, pc: Pc, e: Event)
    requires pc.HealthAt? && Fits(c, pc)
    ensures NextHealth(c, pc.run, pc.stage, e).Some? ==> KeyKept(c, pc, NextHealth(c, pc.run, pc.stage, e).value, e)
  {
    hide NodeConfig.CooldownSeconds, NodeConfig.Reboots, NodeConfig.PublishesHealth;
  }

  lemma KeyStep(c: NodeConfig, pc: Pc, e: Event)
    requires Fits(c, pc) && Next(c, pc, e).Some?
    ensures var pc' := Next(c, pc, e).value;
      CooldownKept(c, pc, pc', e) && ReadingLeads(pc, pc', e) && AftermathKept(pc, pc', e)
  {
    hide Next, NextHealth, NextBeforeLock, NextAcquiring, NextUnderLock, NextHeartbeat, NextInLoop, Fits;
    hide CooldownKept, ReadingLeads, AftermathKept;
    NextCases(c, pc, e);
    KeyBeforeLock(c, pc, e);
    KeyAcquiring(c, pc, e);
    KeyUnderLock(c, pc, e);
    KeyInLoop(c, pc, e);
    KeyHeartbeat(c, pc, e);
    if pc.HealthAt? {
      KeyHealth(c, pc, e);
    }
  }

  // ----- Leases -----

  /** What the store knows of leases. */
  ghost predicate StoreTold(store: Store, interval: int) {
    && (forall l | l in store.leases ::
          var lease := store.leases[l];
          && l < store.nextLease
          && lease.granted <= store.now
          && lease.granted + interval <= lease.Deadline()
          && (lease.status.Expired? ==> lease.Deadline() <= store.now))
    && (store.key.Some? ==> LiveLease(store, store.key.value))
  }

  /** What the store and the nodes know of leases. */
  ghost predicate LeasesTold(s: State, interval: int) {
    && StoreTold(s.store, interval)
    && (forall n | n in s.nodes && LeaseBy(s.nodes[n]).Some? :: LeaseBy(s.nodes[n]).value in s.store.leases)
  }

  lemma SecondsCover(c: NodeConfig)
    ensures c.cooldown <= c.CooldownSeconds() * SECOND
  {
  }

  lemma LeaseByNode(node: Node)
    ensures node.Up? ==> LeaseBy(node) == LeaseOf(node.pc)
  {
  }

  lemma EffectOnLeases(store: Store, e: Event, applied: bool)
    requires Effect(store, e, applied).Some?
    ensures var after := Effect(store, e, applied).value;
      && after.now == store.now
      && ((after.leases == store.leases && after.nextLease == store.nextLease && after.key == store.key)
          || (e.LeaseGranted? && e.granted == Some(store.nextLease) && after.nextLease == store.nextLease + 1
              && after.leases == store.leases[store.nextLease := Lease(store.now, e.seconds, Live)] && after.key == store.key)
          || (e.CooldownPut? && (e.ok || applied) && LiveLease(store, e.lease) && after.key == Some(e.lease)
              && after.leases == store.leases && after.nextLease == store.nextLease)
          || (e.LeaseRevoked? && after == Drop(store, e.lease, Revoked)))
      && (e.LeaseGranted? && e.granted.Some? ==> e.granted == Some(store.nextLease) && after.nextLease == store.nextLease + 1)
      && (e.CooldownPut? && e.ok ==> LiveLease(store, e.lease) && after.key == Some(e.lease))
  {
  }

  /** Granted for at least the interval, a lease fits what is known. */
  lemma EffectTold(store: Store, e: Event, applied: bool, interval: int)
    requires StoreTold(store, interval) && Effect(store, e, applied).Some?
    requires e.LeaseGranted? ==> interval <= e.seconds * SECOND
    ensures StoreTold(Effect(store, e, applied).value, interval)
    ensures store.leases.Keys <= Effect(store, e, applied).value.leases.Keys
    ensures e.LeaseGranted? && e.granted.Some? ==> e.granted.value in Effect(store, e, applied).value.leases
  {
    hide Effect;
    EffectOnLeases(store, e, applied);
  }

  lemma NodeStepTold(cs: Configs, s: State, n: NodeId, e: Event, applied: bool, interval: int)
    requires NodesOnLadder(cs, s) && LeasesTold(s, interval) && CommonInterval(cs, interval)
    requires Apply(cs, s, NodeStep(n, e, applied)).Some?
    ensures LeasesTold(Apply(cs, s, NodeStep(n, e, applied)).value, interval)
  {
    hide Next, Effect, OnLadder, Fits, Holds, LeaseBy, LeaseOf, PastCheck, NodeConfig.CooldownSeconds, StoreTold;
    var s' := Apply(cs, s, NodeStep(n, e, applied)).value;
    LadderFits(cs[n], s.nodes[n].pc, s.nodes[n].pass);
    KeyStep(cs[n], s.nodes[n].pc, e);
    SecondsCover(cs[n]);
    EffectTold(s.store, e, applied, interval);
    LeaseByNode(s.nodes[n]);
    LeaseByNode(s'.nodes[n]);
  }

  lemma NoLeaseYet()
    ensures LeaseBy(Down) == LeaseBy(Up(Idle, [])) == None
  {
  }

  lemma OutsideStepTold(cs: Configs, s: State, step: Step, interval: int)
    requires LeasesTold(s, interval) && Apply(cs, s, step).Some? && !step.NodeStep?
    ensures LeasesTold(Apply(cs, s, step).value, interval)
  {
    NoLeaseYet();
    hide Next, Effect, LeaseBy;
  }

  lemma StepTold(cs: Configs, s: State, step: Step, interval: int)
    requires NodesOnLadder(cs, s) && LeasesTold(s, interval) && CommonInterval(cs, interval)
    requires Apply(cs, s, step).Some?
    ensures LeasesTold(Apply(cs, s, step).value, interval)
  {
    hide Apply, NodesOnLadder, LeasesTold, CommonInterval;
    if step.NodeStep? {
      NodeStepTold(cs, s, step.node, step.event, step.applied, interval);
    } else {
      OutsideStepTold(cs, s, step, interval);
    }
  }

  // ----- After a successful start -----

  /** From a successful start on: the key stands under a lease at least as late, or the interval is over. */
  ghost predicate Shielded(s: State, since: int, interval: int) {
    && (forall n | n in s.nodes && LeaseBy(s.nodes[n]).Some? ::
          && s.store.key != LeaseBy(s.nodes[n])
          && LeaseBy(s.nodes[n]).value in s.store.leases
          && since <= s.store.leases[LeaseBy(s.nodes[n]).value].granted)
    && (s.store.key.Some? ==> s.store.key.value in s.store.leases && since <= s.store.leases[s.store.key.value].granted)
    && (s.store.key.Some? || since + interval <= s.store.now)
    && since <= s.store.now
  }

  /** While one node holds the lock, no other has a cooldown lease to write under. */
  lemma OthersHaveNoLease(cs: Configs, s: State, n: NodeId, m: NodeId)
    requires Inv(cs, s) && n in s.nodes && m in s.nodes && n != m && HeldBy(s.nodes[n]).Some?
    ensures LeaseBy(s.nodes[m]) == None
  {
    hide OnLadder;
    HeldIsTouched(s.nodes[n]);
    HeldIsTouched(s.nodes[m]);
  }

  /** A successful start shields from the grant of its lease. */
  lemma StartShields(cs: Configs, s: State, n: NodeId, lease: nat, applied: bool, interval: int)
    requires Inv(cs, s) && LeasesTold(s, interval)
    requires Apply(cs, s, NodeStep(n, CooldownPut(lease, true), applied)).Some?
    ensures lease in s.store.leases
    ensures Shielded(Apply(cs, s, NodeStep(n, CooldownPut(lease, true), applied)).value, s.store.leases[lease].granted, interval)
  {
    hide Next, Effect, OnLadder, Fits, Holds, LeaseBy, LeaseOf, HeldBy, PastCheck, SessionsSeparate;
    var e := CooldownPut(lease, true);
    var s' := Apply(cs, s, NodeStep(n, e, applied)).value;
    LadderFits(cs[n], s.nodes[n].pc, s.nodes[n].pass);
    KeyStep(cs[n], s.nodes[n].pc, e);
    EffectOnLeases(s.store, e, applied);
    LeaseByNode(s'.nodes[n]);
    HeldIsTouched(s.nodes[n]);
    forall m | m in s'.nodes
      ensures LeaseBy(s'.nodes[m]) == None
    {
      if m != n {
        OthersHaveNoLease(cs, s, n, m);
      }
    }
  }

  lemma NodeStepShielded(cs: Configs, s: State, n: NodeId, e: Event, applied: bool, since: int, interval: int)
    requires Inv(cs, s) && LeasesTold(s, interval) && Shielded(s, since, interval)
    requires Apply(cs, s, NodeStep(n, e, applied)).Some? && !UntoldWrite(NodeStep(n, e, applied))
    ensures Shielded(Apply(cs, s, NodeStep(n, e, applied)).value, since, interval)
  {
    hide Next, Effect, OnLadder, Fits, Holds, LeaseBy, LeaseOf, HeldBy, PastCheck, SessionsSeparate;
    hide NodeConfig.CooldownSeconds;
    var s' := Apply(cs, s, NodeStep(n, e, applied)).value;
    LadderFits(cs[n], s.nodes[n].pc, s.nodes[n].pass);
    KeyStep(cs[n], s.nodes[n].pc, e);
    EffectOnLeases(s.store, e, applied);
    LeaseByNode(s.nodes[n]);
    LeaseByNode(s'.nodes[n]);
    HeldIsTouched(s.nodes[n]);
    if e.CooldownPut? {
      forall m | m in s'.nodes && m != n
        ensures LeaseBy(s'.nodes[m]) == None
      {
        OthersHaveNoLease(cs, s, n, m);
      }
    }
  }

  lemma OutsideStepShielded(cs: Configs, s: State, step: Step, since: int, interval: int)
    requires LeasesTold(s, interval) && Shielded(s, since, interval)
    requires Apply(cs, s, step).Some? && !step.NodeStep?
    ensures Shielded(Apply(cs, s, step).value, since, interval)
  {
    NoLeaseYet();
    hide Next, Effect, LeaseBy;
  }

  lemma StepShielded(cs: Configs, s: State, step: Step, since: int, interval: int)
    requires Inv(cs, s) && LeasesTold(s, interval) && Shielded(s, since, interval)
    requires Apply(cs, s, step).Some? && !UntoldWrite(step)
    ensures Shielded(Apply(cs, s, step).value, since, interval)
  {
    hide Apply, Inv, LeasesTold, Shielded, UntoldWrite;
    if step.NodeStep? {
      NodeStepShielded(cs, s, step.node, step.event, step.applied, since, interval);
    } else {
      OutsideStepShielded(cs, s, step, since, interval);
    }
  }

  // ----- From the check to the reboot -----

  /** A lease at least as late as the start, that only time can end. */
  ghost predicate GoodLease(s: State, lease: nat, since: int) {
    && lease in s.store.leases
    && since <= s.store.leases[lease].granted
    && !s.store.leases[lease].status.Revoked?
    && forall n | n in s.nodes :: LeaseBy(s.nodes[n]) != Some(lease)
  }

  /** Less than a second is missing to the interval since the start. */
  predicate NearlyOver(s: State, since: int, interval: int) {
    since + interval < s.store.now + SECOND
  }

  /** Node b, once it has read the key after the start, gets past its check only when the interval is nearly over. */
  ghost predicate Checked(s: State, b: NodeId, since: int, interval: int) {
    b in s.nodes && s.nodes[b].Up? && !NearlyOver(s, since, interval) ==>
      && !PastCheck(s.nodes[b].pc)
      && (s.nodes[b].pc.TtlPre? ==> GoodLease(s, s.nodes[b].pc.lease, since))
  }

  lemma StepGoodLease(cs: Configs, s: State, step: Step, lease: nat, since: int, interval: int)
    requires NodesOnLadder(cs, s) && LeasesTold(s, interval) && GoodLease(s, lease, since)
    requires Apply(cs, s, step).Some?
    ensures GoodLease(Apply(cs, s, step).value, lease, since)
  {
    if step.NodeStep? {
      hide Next, Effect, OnLadder, Fits, Holds, LeaseBy, LeaseOf, PastCheck, NodeConfig.CooldownSeconds;
      var n, e := step.node, step.event;
      var s' := Apply(cs, s, step).value;
      LadderFits(cs[n], s.nodes[n].pc, s.nodes[n].pass);
      KeyStep(cs[n], s.nodes[n].pc, e);
      EffectOnLeases(s.store, e, step.applied);
      LeaseByNode(s.nodes[n]);
      LeaseByNode(s'.nodes[n]);
    } else {
      hide Next, Effect, NodesOnLadder;
    }
  }

  /** A reading that lets a node past its check leaves less than a second of a good lease. */
  lemma ReadingNearlyOver(s: State, lease: nat, ttl: int, since: int, interval: int)
    requires LeasesTold(s, interval) && GoodLease(s, lease, since) && TtlPossible(s.store, lease, ttl) && ttl <= 0
    ensures NearlyOver(s, since, interval)
  {
  }

  lemma TimePasses(cs: Configs, s: State, step: Step)
    requires Apply(cs, s, step).Some?
    ensures s.store.now <= Apply(cs, s, step).value.store.now
    ensures step.NodeStep? ==> s.store.now == Apply(cs, s, step).value.store.now
  {
    if step.NodeStep? {
      hide Next, Effect;
      EffectOnLeases(s.store, step.event, step.applied);
    } else {
      hide Next, Effect;
    }
  }

  predicate ReadsCooldown(step: Step, b: NodeId) {
    step.NodeStep? && step.node == b && step.event.CooldownRead?
  }

  lemma OtherStepChecked(cs: Configs, s: State, step: Step, b: NodeId, since: int, interval: int)
    requires NodesOnLadder(cs, s) && LeasesTold(s, interval) && Checked(s, b, since, interval)
    requires Apply(cs, s, step).Some? && !(step.NodeStep? && step.node == b)
    ensures Checked(Apply(cs, s, step).value, b, since, interval)
  {
    TimePasses(cs, s, step);
    if b in s.nodes && s.nodes[b].Up? && s.nodes[b].pc.TtlPre? && GoodLease(s, s.nodes[b].pc.lease, since) {
      StepGoodLease(cs, s, step, s.nodes[b].pc.lease, since, interval);
    }
    hide Next, Effect, NodesOnLadder, GoodLease;
  }

  lemma OwnStepChecked(cs: Configs, s: State, step: Step, b: NodeId, since: int, interval: int)
    requires NodesOnLadder(cs, s) && LeasesTold(s, interval) && Checked(s, b, since, interval)
    requires Apply(cs, s, step).Some? && step.NodeStep? && step.node == b && !step.event.CooldownRead?
    requires b in cs && cs[b].cooldown > 0
    ensures Checked(Apply(cs, s, step).value, b, since, interval)
  {
    TimePasses(cs, s, step);
    var pc, e := s.nodes[b].pc, step.event;
    LadderFits(cs[b], pc, s.nodes[b].pass);
    hide Next, OnLadder, Fits, Holds, LeaseOf, GoodLease, PastCheck, NodeConfig.CooldownSeconds, TtlPossible;
    KeyStep(cs[b], pc, e);
    if e.TtlRead? && e.ttl.Some? && e.ttl.value <= 0 && pc == TtlPre(e.lease) && GoodLease(s, e.lease, since) {
      ReadingNearlyOver(s, e.lease, e.ttl.value, since, interval);
    }
  }

  /** Reading the key after the start puts node b under the check. */
  lemma ReadingChecks(cs: Configs, s: State, step: Step, b: NodeId, since: int, interval: int)
    requires NodesOnLadder(cs, s) && LeasesTold(s, interval) && Shielded(s, since, interval)
    requires Apply(cs, s, step).Some? && ReadsCooldown(step, b)
    ensures Checked(Apply(cs, s, step).value, b, since, interval)
  {
    var s' := Apply(cs, s, step).value;
    var pc, e := s.nodes[b].pc, step.event;
    TimePasses(cs, s, step);
    LadderFits(cs[b], pc, s.nodes[b].pass);
    hide Next, OnLadder, Fits, Holds, Height, PastCheck, NodeConfig.CooldownSeconds;
    KeyStep(cs[b], pc, e);
    LeaseByNode(s'.nodes[b]);
  }

  // ----- Over a run -----

  /** What holds of every state of a run. */
  ghost predicate Regular(cs: Configs, s: State, interval: int) {
    Inv(cs, s) && LeasesTold(s, interval)
  }

  lemma {:induction false} RunRegular(cs: Configs, s: State, steps: seq<Step>, n: nat, interval: int)
    requires Init(cs, s) && Run(cs, s, steps).Some? && NoLiveExpiry(cs, s, steps)
    requires CommonInterval(cs, interval) && n <= |steps|
    ensures Run(cs, s, steps[..n]).Some? && Regular(cs, Run(cs, s, steps[..n]).value, interval)
    ensures n < |steps| ==>
      && Apply(cs, Run(cs, s, steps[..n]).value, steps[n]).Some?
      && Apply(cs, Run(cs, s, steps[..n]).value, steps[n]) == Run(cs, s, steps[..n + 1])
      && !LiveExpiry(Run(cs, s, steps[..n]).value, steps[n])
  {
    hide Apply, Inv, LeasesTold, LiveExpiry;
    RunPrefix(cs, s, steps, n);
    if n == 0 {
      InitInv(cs, s);
      InitTold(cs, s, interval);
    } else {
      RunRegular(cs, s, steps, n - 1, interval);
      var before := Run(cs, s, steps[..n - 1]).value;
      StepKeepsInv(cs, before, steps[n - 1]);
      InvOnLadder(cs, before);
      StepTold(cs, before, steps[n - 1], interval);
    }
    if n < |steps| {
      RunPrefix(cs, s, steps, n + 1);
      assert steps[..n + 1][..n] == steps[..n];
    }
  }

  lemma InvOnLadder(cs: Configs, s: State)
    requires Inv(cs, s)
    ensures NodesOnLadder(cs, s)
  {
  }

  lemma InitTold(cs: Configs, s: State, interval: int)
    requires Init(cs, s)
    ensures LeasesTold(s, interval)
  {
  }

  lemma {:induction false} RunPrefix(cs: Configs, s: State, steps: seq<Step>, n: nat)
    requires Run(cs, s, steps).Some? && n <= |steps|
    ensures Run(cs, s, steps[..n]).Some?
  {
    hide Apply;
    if n == |steps| {
      assert steps[..n] == steps;
    } else {
      assert steps[..|steps| - 1][..n] == steps[..n];
      RunPrefix(cs, s, steps[..|steps| - 1], n);
    }
  }

  /** The start at step i, made by node a under a lease, with no untold write of the key after it up to step k. */
  ghost predicate StartedAt(steps: seq<Step>, i: nat, k: nat, a: NodeId, lease: nat) {
    && i < k < |steps|
    && steps[i].NodeStep? && steps[i].node == a && steps[i].event == CooldownPut(lease, true)
    && forall t | i < t < k :: !UntoldWrite(steps[t])
  }

  /** Node b's last reading of the cooldown key before step k is at step j. */
  ghost predicate LastReadAt(steps: seq<Step>, j: nat, k: nat, b: NodeId) {
    j < k < |steps| && ReadsCooldown(steps[j], b) && forall t | j < t < k :: !ReadsCooldown(steps[t], b)
  }

  function GrantedAt(s: State, lease: nat): int {
    if lease in s.store.leases then s.store.leases[lease].granted else s.store.now
  }

  lemma {:induction false} ShieldedSince(cs: Configs, s: State, steps: seq<Step>, i: nat, k: nat, t: nat,
                                         a: NodeId, lease: nat, interval: int)
    requires Init(cs, s) && Run(cs, s, steps).Some? && NoLiveExpiry(cs, s, steps) && CommonInterval(cs, interval)
    requires StartedAt(steps, i, k, a, lease) && i < t <= k
    ensures Run(cs, s, steps[..i]).Some? && lease in Run(cs, s, steps[..i]).value.store.leases
    ensures Run(cs, s, steps[..t]).Some?
    ensures Shielded(Run(cs, s, steps[..t]).value, GrantedAt(Run(cs, s, steps[..i]).value, lease), interval)
  {
    hide Apply, Inv, LeasesTold, Shielded, NoLiveExpiry, LiveExpiry;
    RunRegular(cs, s, steps, t - 1, interval);
    var before := Run(cs, s, steps[..t - 1]).value;
    if t == i + 1 {
      StartShields(cs, before, a, lease, steps[i].applied, interval);
    } else {
      ShieldedSince(cs, s, steps, i, k, t - 1, a, lease, interval);
      StepShielded(cs, before, steps[t - 1], GrantedAt(Run(cs, s, steps[..i]).value, lease), interval);
    }
  }

  lemma {:induction false} CheckedSince(cs: Configs, s: State, steps: seq<Step>, i: nat, j: nat, k: nat, t: nat,
                                        a: NodeId, b: NodeId, lease: nat, interval: int)
    requires Init(cs, s) && Run(cs, s, steps).Some? && NoLiveExpiry(cs, s, steps) && CommonInterval(cs, interval)
    requires StartedAt(steps, i, k, a, lease) && LastReadAt(steps, j, k, b) && i < j < t <= k
    requires b in cs && cs[b].cooldown > 0
    ensures Run(cs, s, steps[..i]).Some? && Run(cs, s, steps[..t]).Some?
    ensures Checked(Run(cs, s, steps[..t]).value, b, GrantedAt(Run(cs, s, steps[..i]).value, lease), interval)
  {
    hide Apply, Inv, LeasesTold, Shielded, Checked, NoLiveExpiry, LiveExpiry;
    RunRegular(cs, s, steps, i, interval);
    RunRegular(cs, s, steps, t - 1, interval);
    var before := Run(cs, s, steps[..t - 1]).value;
    var since := GrantedAt(Run(cs, s, steps[..i]).value, lease);
    InvOnLadder(cs, before);
    if t == j + 1 {
      ShieldedSince(cs, s, steps, i, k, j, a, lease, interval);
      ReadingChecks(cs, before, steps[j], b, since, interval);
    } else {
      CheckedSince(cs, s, steps, i, j, k, t - 1, a, b, lease, interval);
      if steps[t - 1].NodeStep? && steps[t - 1].node == b {
        OwnStepChecked(cs, before, steps[t - 1], b, since, interval);
      } else {
        OtherStepChecked(cs, before, steps[t - 1], b, since, interval);
      }
    }
  }

  /**
   If a node starts its reboot command at step k, and its last reading of the cooldown key came after a successful start
   of the cooldown by any node, then at step k the interval since that start's lease was granted is over, or less than a
   second is missing to it.
   */
  lemma RebootsAreSpaced(cs: Configs, s: State, steps: seq<Step>, i: nat, j: nat, k: nat,
                         a: NodeId, b: NodeId, lease: nat, interval: int)
    requires Init(cs, s) && Run(cs, s, steps).Some? && NoLiveExpiry(cs, s, steps) && CommonInterval(cs, interval)
    requires StartedAt(steps, i, k, a, lease) && LastReadAt(steps, j, k, b) && i < j
    requires steps[k].NodeStep? && steps[k].node == b && steps[k].event.ExecStarted?
    requires b in cs && cs[b].cooldown > 0
    ensures Run(cs, s, steps[..i]).Some? && lease in Run(cs, s, steps[..i]).value.store.leases && Run(cs, s, steps[..k]).Some?
    ensures Run(cs, s, steps[..k]).value.store.now + SECOND
          > Run(cs, s, steps[..i]).value.store.leases[lease].granted + interval
  {
    ShieldedSince(cs, s, steps, i, k, k, a, lease, interval);
    CheckedSince(cs, s, steps, i, j, k, k, a, b, lease, interval);
    RunRegular(cs, s, steps, k, interval);
    var end := Run(cs, s, steps[..k]).value;
    InvOnLadder(cs, end);
    ExecutingIsPast(cs, end, b, steps[k].event, steps[k].applied);
    hide Apply, Inv, LeasesTold, Shielded, NoLiveExpiry, LiveExpiry, Run;
  }

  lemma ExecutingIsPast(cs: Configs, s: State, b: NodeId, e: Event, applied: bool)
    requires NodesOnLadder(cs, s) && e.ExecStarted? && Apply(cs, s, NodeStep(b, e, applied)).Some?
    ensures b in s.nodes && s.nodes[b].Up? && PastCheck(s.nodes[b].pc)
  {
    hide Next, Effect, OnLadder, Fits;
    LadderFits(cs[b], s.nodes[b].pc, s.nodes[b].pass);
    GateStep(cs[b], s.nodes[b].pc, e);
  }
}
