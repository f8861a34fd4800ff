/**
 For which clusters reboots are spaced, and for which they exclude each other without help: an exact answer in terms of the
 configurations alone.
 */
module SpacingCondition {
  import opened Wrappers
  import opened Backoff
  import opened Protocol
  import opened NodeSafety
  import opened Cluster
  import opened CooldownSpacing
  import opened Ability
  import opened ClusterRuns

  /** Node a begins a pass between two steps. */
  ghost predicate BeginsBetween(steps: seq<Step>, i: nat, k: nat, a: NodeId) {
    exists m :: i < m < k && m < |steps| && steps[m].NodeStep? && steps[m].node == a && steps[m].event.Began?
  }

  /** At step i node a starts the cooldown; at step k node b starts its command. */
  predicate Starts(steps: seq<Step>, i: nat, k: nat, a: NodeId, b: NodeId, lease: nat) {
    && i < k < |steps|
    && steps[i].NodeStep? && steps[i].node == a && steps[i].event == CooldownPut(lease, true)
    && steps[k].NodeStep? && steps[k].node == b && steps[k].event.ExecStarted?
  }

  /** It does so in another pass than that of the start. */
  ghost predicate LaterReboot(steps: seq<Step>, i: nat, k: nat, a: NodeId, b: NodeId, lease: nat) {
    Starts(steps, i, k, a, b, lease) && (a != b || BeginsBetween(steps, i, k, a))
  }

  /** It does so having a cooldown, and its last reading of it, at step j, came after the start. */
  ghost predicate LateReboot(cs: Configs, steps: seq<Step>, i: nat, j: nat, k: nat, a: NodeId, b: NodeId, lease: nat) {
    && Starts(steps, i, k, a, b, lease) && i < j && LastReadAt(steps, j, k, b)
    && b in cs && cs[b].cooldown > 0
  }

  /** The states before steps i and k lie an interval apart, counted from the grant, or less than a second is missing to it. */
  ghost predicate FarEnough(cs: Configs, s: State, steps: seq<Step>, i: nat, k: nat, lease: nat, interval: int)
    requires i <= |steps| && k <= |steps|
  {
    && Run(cs, s, steps[..i]).Some? && Run(cs, s, steps[..k]).Some?
    && lease in Run(cs, s, steps[..i]).value.store.leases
    && NearlyOver(Run(cs, s, steps[..k]).value, Run(cs, s, steps[..i]).value.store.leases[lease].granted, interval)
  }

  ghost predicate Harmless(cs: Configs, s: State, steps: seq<Step>) {
    Init(cs, s) && Run(cs, s, steps).Some? && NoLiveExpiry(cs, s, steps)
  }

  /** In every harmless run, every reboot of a later pass keeps its distance from every start of the cooldown. */
  ghost predicate Spaced(cs: Configs, interval: int) {
    forall s, steps, i: nat, k: nat, a, b, lease | Harmless(cs, s, steps) && LaterReboot(steps, i, k, a, b, lease) ::
      FarEnough(cs, s, steps, i, k, lease, interval)
  }

  /** In every harmless run, every late reboot keeps its distance from every start before its reading. */
  ghost predicate LateSpaced(cs: Configs, interval: int) {
    forall s, steps, i: nat, j: nat, k: nat, a, b, lease | Harmless(cs, s, steps) && LateReboot(cs, steps, i, j, k, a, b, lease) ::
      FarEnough(cs, s, steps, i, k, lease, interval)
  }

  /** Whoever starts a cooldown is the only one able to reboot. */
  ghost predicate StartersAlone(cs: Configs) {
    forall x, y | x in cs && y in cs && x != y && Able(cs[x]) && Able(cs[y]) :: cs[x].cooldown == 0
  }

  /** At most one node is able to reboot and has a cooldown. */
  ghost predicate OneStarter(cs: Configs) {
    forall x, y | x in cs && y in cs && Able(cs[x]) && Able(cs[y]) && cs[x].cooldown > 0 && cs[y].cooldown > 0 :: x == y
  }

  // ----- Where there is one starter -----

  /** Held back since its start: still in that pass, or not past the check of a later one unless the interval is nearly over. */
  ghost predicate HeldBack(s: State, a: NodeId, since: int, interval: int, samePass: bool) {
    || Checked(s, a, since, interval)
    || (samePass && a in s.nodes && s.nodes[a].Up? && Aftermath(s.nodes[a].pc))
  }

  ghost predicate Kept(s: State, a: NodeId, since: int, interval: int, samePass: bool) {
    NearlyOver(s, since, interval) || (Shielded(s, since, interval) && HeldBack(s, a, since, interval, samePass))
  }

  lemma AftermathNotPast(pc: Pc)
    ensures pc.Putting? ==> PastCheck(pc) && !Aftermath(pc)
  {
  }

  /** No untold write happens while the only starter is held back. */
  lemma NoUntoldWrite(cs: Configs, s: State, step: Step, a: NodeId, since: int, interval: int, samePass: bool)
    requires NodesOnLadder(cs, s) && Apply(cs, s, step).Some?
    requires HeldBack(s, a, since, interval, samePass) && !NearlyOver(s, since, interval)
    requires step.NodeStep? && step.event.CooldownPut? ==> step.node == a
    ensures !UntoldWrite(step)
  {
    hide Next, Effect, PastCheck, Aftermath, GoodLease, OnLadder, Fits, CooldownKept;
    if UntoldWrite(step) {
      LadderFits(cs[a], s.nodes[a].pc, s.nodes[a].pass);
      KeyStep(cs[a], s.nodes[a].pc, step.event);
      AftermathNotPast(s.nodes[a].pc);
    }
  }

  /** Node a begins a pass or reads the cooldown: what it does no more in the pass of its start. */
  predicate PassIsOver(step: Step, a: NodeId) {
    step.NodeStep? && step.node == a && (step.event.Began? || step.event.CooldownRead?)
  }

  ghost predicate OverBetween(steps: seq<Step>, i: nat, t: nat, a: NodeId) {
    exists m :: i < m < t && m < |steps| && PassIsOver(steps[m], a)
  }

  lemma StepHeldBack(cs: Configs, s: State, step: Step, a: NodeId, since: int, interval: int, samePass: bool)
    requires NodesOnLadder(cs, s) && LeasesTold(s, interval) && Shielded(s, since, interval) && HeldBack(s, a, since, interval, samePass)
    requires Apply(cs, s, step).Some? && a in cs && cs[a].cooldown > 0
    ensures HeldBack(Apply(cs, s, step).value, a, since, interval, samePass && !PassIsOver(step, a))
  {
    if Checked(s, a, since, interval) {
      hide Apply, LeasesTold, Shielded, Checked, NodesOnLadder;
      if step.NodeStep? && step.node == a {
        if step.event.CooldownRead? {
          ReadingChecks(cs, s, step, a, since, interval);
        } else {
          OwnStepChecked(cs, s, step, a, since, interval);
        }
      } else {
        OtherStepChecked(cs, s, step, a, since, interval);
      }
    } else if step.NodeStep? && step.node == a {
      LadderFits(cs[a], s.nodes[a].pc, s.nodes[a].pass);
      KeyStep(cs[a], s.nodes[a].pc, step.event);
      hide Next, Effect, Checked, Shielded, LeasesTold, NodesOnLadder, Aftermath;
    } else {
      hide Next, Effect, Shielded, LeasesTold, NodesOnLadder, Aftermath;
    }
  }

  lemma StepKept(cs: Configs, s: State, step: Step, a: NodeId, since: int, interval: int, samePass: bool)
    requires Inv(cs, s) && LeasesTold(s, interval) && Kept(s, a, since, interval, samePass)
    requires Apply(cs, s, step).Some? && a in cs && cs[a].cooldown > 0
    requires step.NodeStep? && step.event.CooldownPut? ==> step.node == a
    ensures Kept(Apply(cs, s, step).value, a, since, interval, samePass && !PassIsOver(step, a))
  {
    TimePasses(cs, s, step);
    InvOnLadder(cs, s);
    hide Apply, Inv, LeasesTold, Shielded, HeldBack, NodesOnLadder, UntoldWrite, PassIsOver;
    if !NearlyOver(s, since, interval) {
      NoUntoldWrite(cs, s, step, a, since, interval, samePass);
      StepShielded(cs, s, step, since, interval);
      StepHeldBack(cs, s, step, a, since, interval, samePass);
    }
  }

  lemma StartKept(cs: Configs, s: State, a: NodeId, lease: nat, applied: bool, interval: int)
    requires Inv(cs, s) && LeasesTold(s, interval)
    requires Apply(cs, s, NodeStep(a, CooldownPut(lease, true), applied)).Some?
    ensures lease in s.store.leases
    ensures Kept(Apply(cs, s, NodeStep(a, CooldownPut(lease, true), applied)).value, a, s.store.leases[lease].granted, interval, true)
  {
    StartShields(cs, s, a, lease, applied, interval);
    LadderFits(cs[a], s.nodes[a].pc, s.nodes[a].pass);
    KeyStep(cs[a], s.nodes[a].pc, CooldownPut(lease, true));
    hide Next, Effect, Inv, LeasesTold, Shielded, Checked, Aftermath;
  }

  /** From a start on, the only starter is kept back. */
  lemma {:induction false} KeptSince(cs: Configs, s: State, steps: seq<Step>, i: nat, t: nat, a: NodeId, lease: nat, interval: int)
    requires Harmless(cs, s, steps) && CommonInterval(cs, interval) && OneStarter(cs)
    requires i < t <= |steps| && steps[i].NodeStep? && steps[i].node == a && steps[i].event == CooldownPut(lease, true)
    ensures a in cs && Able(cs[a]) && cs[a].cooldown > 0
    ensures Run(cs, s, steps[..i]).Some? && lease in Run(cs, s, steps[..i]).value.store.leases
    ensures Run(cs, s, steps[..t]).Some?
    ensures Kept(Run(cs, s, steps[..t]).value, a, Run(cs, s, steps[..i]).value.store.leases[lease].granted, interval,
                 !OverBetween(steps, i, t, a))
  {
    hide Apply, Inv, LeasesTold, Kept, NoLiveExpiry, LiveExpiry, Init, Able, CommonInterval;
    RunRegular(cs, s, steps, i, interval);
    RunRegular(cs, s, steps, t - 1, interval);
    var before := Run(cs, s, steps[..t - 1]).value;
    OnlyAbleNodesAct(cs, s, steps[..i], a, CooldownPut(lease, true), steps[i].applied);
    StartKept(cs, Run(cs, s, steps[..i]).value, a, lease, steps[i].applied, interval);
    var since := Run(cs, s, steps[..i]).value.store.leases[lease].granted;
    if t > i + 1 {
      KeptSince(cs, s, steps, i, t - 1, a, lease, interval);
      var step := steps[t - 1];
      if step.NodeStep? && step.event.CooldownPut? {
        OnlyAbleNodesAct(cs, s, steps[..t - 1], step.node, step.event, step.applied);
      }
      StepKept(cs, before, step, a, since, interval, !OverBetween(steps, i, t - 1, a));
      if PassIsOver(step, a) {
        assert OverBetween(steps, i, t, a);
      }
    }
  }

  lemma KeptApart(s: State, a: NodeId, since: int, interval: int)
    requires Kept(s, a, since, interval, false) && a in s.nodes && s.nodes[a].Up? && PastCheck(s.nodes[a].pc)
    ensures NearlyOver(s, since, interval)
  {
    hide PastCheck, Shielded, GoodLease;
  }

  /** Whoever starts its command after a start of the cooldown, having one, is the only starter. */
  lemma SameStarter(cs: Configs, s: State, steps: seq<Step>, i: nat, k: nat, a: NodeId, b: NodeId, lease: nat, interval: int)
    requires CommonInterval(cs, interval) && Harmless(cs, s, steps) && Starts(steps, i, k, a, b, lease)
    ensures a in cs && b in cs && Able(cs[a]) && Able(cs[b]) && cs[a].cooldown > 0
    ensures OneStarter(cs) && cs[b].cooldown > 0 ==> a == b
  {
    hide Apply, Inv, LeasesTold, NoLiveExpiry, LiveExpiry, Init, Able, CommonInterval;
    RunRegular(cs, s, steps, i, interval);
    RunRegular(cs, s, steps, k, interval);
    OnlyAbleNodesAct(cs, s, steps[..i], a, CooldownPut(lease, true), steps[i].applied);
    OnlyAbleNodesAct(cs, s, steps[..k], b, steps[k].event, steps[k].applied);
  }

  /** The only starter, once the pass of its start is over, starts its command no more until the interval is nearly over. */
  lemma StarterIsSpaced(cs: Configs, interval: int, s: State, steps: seq<Step>, i: nat, k: nat, a: NodeId, lease: nat)
    requires CommonInterval(cs, interval) && OneStarter(cs) && Harmless(cs, s, steps)
    requires Starts(steps, i, k, a, a, lease) && OverBetween(steps, i, k, a)
    ensures FarEnough(cs, s, steps, i, k, lease, interval)
  {
    hide Apply, Inv, LeasesTold, Kept, NoLiveExpiry, LiveExpiry, Init, Able, CommonInterval, NearlyOver, OverBetween;
    KeptSince(cs, s, steps, i, k, a, lease, interval);
    RunRegular(cs, s, steps, k, interval);
    var end := Run(cs, s, steps[..k]).value;
    InvOnLadder(cs, end);
    ExecutingIsPast(cs, end, a, steps[k].event, steps[k].applied);
    KeptApart(end, a, Run(cs, s, steps[..i]).value.store.leases[lease].granted, interval);
  }

  lemma AloneAreSpaced(cs: Configs, interval: int, s: State, steps: seq<Step>, i: nat, k: nat, a: NodeId, b: NodeId, lease: nat)
    requires CommonInterval(cs, interval) && StartersAlone(cs) && Harmless(cs, s, steps) && LaterReboot(steps, i, k, a, b, lease)
    ensures FarEnough(cs, s, steps, i, k, lease, interval)
  {
    hide Able, Run, Init, NoLiveExpiry, CommonInterval, FarEnough;
    SameStarter(cs, s, steps, i, k, a, b, lease, interval);
    assert a == b;
    var m :| i < m < k && m < |steps| && steps[m].NodeStep? && steps[m].node == a && steps[m].event.Began?;
    assert PassIsOver(steps[m], a);
    StarterIsSpaced(cs, interval, s, steps, i, k, a, lease);
  }

  // ----- Where it is not -----

  lemma StepKeepsGrant(cs: Configs, s: State, step: Step, lease: nat, interval: int)
    requires Apply(cs, s, step).Some? && LeasesTold(s, interval) && lease in s.store.leases
    ensures lease in Apply(cs, s, step).value.store.leases
    ensures Apply(cs, s, step).value.store.leases[lease].granted == s.store.leases[lease].granted
  {
    if step.NodeStep? {
      hide Next, Effect;
      EffectOnLeases(s.store, step.event, step.applied);
    } else {
      hide Next, Effect;
    }
  }

  /** A lease keeps the time it was granted at, and time does not go back. */
  lemma {:induction false} GrantStays(cs: Configs, s: State, steps: seq<Step>, i: nat, n: nat, lease: nat, interval: int)
    requires Harmless(cs, s, steps) && CommonInterval(cs, interval) && i <= n <= |steps|
    requires Run(cs, s, steps[..i]).Some? && lease in Run(cs, s, steps[..i]).value.store.leases
    ensures Run(cs, s, steps[..n]).Some? && lease in Run(cs, s, steps[..n]).value.store.leases
    ensures Run(cs, s, steps[..n]).value.store.leases[lease].granted == Run(cs, s, steps[..i]).value.store.leases[lease].granted
    ensures n < |steps| ==>
      Run(cs, s, steps[..n + 1]).Some? && Run(cs, s, steps[..n]).value.store.now <= Run(cs, s, steps[..n + 1]).value.store.now
  {
    hide Apply, Inv, LeasesTold, NoLiveExpiry, LiveExpiry, Init, CommonInterval;
    RunRegular(cs, s, steps, n, interval);
    if i < n {
      GrantStays(cs, s, steps, i, n - 1, lease, interval);
      RunRegular(cs, s, steps, n - 1, interval);
      StepKeepsGrant(cs, Run(cs, s, steps[..n - 1]).value, steps[n - 1], lease, interval);
    }
    if n < |steps| {
      TimePasses(cs, Run(cs, s, steps[..n]).value, steps[n]);
    }
  }

  /** A lease granted at the very time a run ends keeps no interval from the run's last step. */
  lemma NoTimePassed(cs: Configs, t: Trip, i: nat, interval: int)
    requires Possible(cs, t, true) && CommonInterval(cs, interval) && interval >= SECOND && i < |t.steps| - 1
    requires 0 in t.end.store.leases && t.end.store.leases[0].granted == t.end.store.now
    ensures !FarEnough(cs, t.start, t.steps, i, |t.steps| - 1, 0, interval)
  {
    hide Apply, NoLiveExpiry, Init, CommonInterval, Run;
    var k := |t.steps| - 1;
    assert t.steps[..|t.steps|] == t.steps;
    if FarEnough(cs, t.start, t.steps, i, k, 0, interval) {
      GrantStays(cs, t.start, t.steps, i, k, 0, interval);
      GrantStays(cs, t.start, t.steps, i, k + 1, 0, interval);
    }
  }

  /** Two able nodes, one of which starts a cooldown, are not spaced. */
  lemma TwoAreNotSpaced(cs: Configs, interval: int, x: NodeId, y: NodeId)
    requires CommonInterval(cs, interval) && interval >= SECOND
    requires x in cs && y in cs && x != y && Able(cs[x]) && Able(cs[y]) && cs[x].cooldown > 0
    ensures !Spaced(cs, interval)
  {
    hide Able, Apply, NoLiveExpiry, Init, CommonInterval, Run, FarEnough;
    var t, i := EarlyReaderReboots(cs, x, y);
    assert LaterReboot(t.steps, i, |t.steps| - 1, x, y, 0);
    NoTimePassed(cs, t, i, interval);
  }

  /** Two able nodes with cooldowns are not spaced even if they read the cooldown after its start. */
  lemma TwoAreNotLateSpaced(cs: Configs, interval: int, x: NodeId, y: NodeId)
    requires CommonInterval(cs, interval) && interval >= SECOND
    requires x in cs && y in cs && x != y && Able(cs[x]) && Able(cs[y]) && cs[x].cooldown > 0 && cs[y].cooldown > 0
    ensures !LateSpaced(cs, interval)
  {
    hide Able, Apply, NoLiveExpiry, Init, CommonInterval, Run, FarEnough, LastReadAt;
    var t, i, j := UntoldWriteClearsCooldown(cs, x, y);
    assert LateReboot(cs, t.steps, i, j, |t.steps| - 1, x, x, 0);
    NoTimePassed(cs, t, i, interval);
  }

  /**
   Every reboot of a later pass keeps the common interval from every start of the cooldown, less the second a reading of the
   remaining time may fall short, in every harmless run, exactly when no other node is able to reboot beside an able node
   that has a cooldown.
   */
  lemma SpacedExactly(cs: Configs, interval: int)
    requires CommonInterval(cs, interval) && interval >= SECOND
    ensures Spaced(cs, interval) <==> StartersAlone(cs)
  {
    if StartersAlone(cs) {
      forall s, steps, i: nat, k: nat, a, b, lease | Harmless(cs, s, steps) && LaterReboot(steps, i, k, a, b, lease)
        ensures FarEnough(cs, s, steps, i, k, lease, interval)
      {
        AloneAreSpaced(cs, interval, s, steps, i, k, a, b, lease);
      }
    } else {
      var x, y :| x in cs && y in cs && x != y && Able(cs[x]) && Able(cs[y]) && cs[x].cooldown != 0;
      TwoAreNotSpaced(cs, interval, x, y);
    }
  }

  lemma LateIsOver(cs: Configs, steps: seq<Step>, i: nat, j: nat, k: nat, a: NodeId, b: NodeId, lease: nat)
    requires LateReboot(cs, steps, i, j, k, a, b, lease) && a == b
    ensures OverBetween(steps, i, k, a)
  {
    assert PassIsOver(steps[j], a);
  }

  /**
   Every late reboot, whose node read the cooldown after the start, keeps that interval in every harmless run exactly when at
   most one able node has a cooldown: a second one could clear the first one's.
   */
  lemma LateSpacedExactly(cs: Configs, interval: int)
    requires CommonInterval(cs, interval) && interval >= SECOND
    ensures LateSpaced(cs, interval) <==> OneStarter(cs)
  {
    if OneStarter(cs) {
      forall s, steps, i: nat, j: nat, k: nat, a, b, lease | Harmless(cs, s, steps) && LateReboot(cs, steps, i, j, k, a, b, lease)
        ensures FarEnough(cs, s, steps, i, k, lease, interval)
      {
        SameStarter(cs, s, steps, i, k, a, b, lease, interval);
        LateIsOver(cs, steps, i, j, k, a, b, lease);
        StarterIsSpaced(cs, interval, s, steps, i, k, a, lease);
      }
    } else {
      var x, y :| x in cs && y in cs && x != y && Able(cs[x]) && Able(cs[y]) && cs[x].cooldown > 0 && cs[y].cooldown > 0;
      TwoAreNotLateSpaced(cs, interval, x, y);
    }
  }

  ghost predicate AtMostOneAble(cs: Configs) {
    forall x, y | x in cs && y in cs && Able(cs[x]) && Able(cs[y]) :: x == y
  }

  /** In a cluster whose nodes all have a cooldown: exactly when at most one node is able to reboot at all. */
  lemma SpacedExactlyWhenOneAble(cs: Configs, interval: int)
    requires interval >= SECOND && forall n | n in cs :: cs[n].cooldown >= interval
    ensures Spaced(cs, interval) <==> AtMostOneAble(cs)
  {
    hide Able, Spaced;
    SpacedExactly(cs, interval);
    if !AtMostOneAble(cs) {
      var x, y :| x in cs && y in cs && Able(cs[x]) && Able(cs[y]) && x != y;
      assert cs[x].cooldown > 0;
    }
  }

  // ----- Exclusion without help -----

  /** In every run, also one in which sessions of live nodes expire, at most one node runs its command. */
  ghost predicate ExclusiveUnaided(cs: Configs) {
    forall s, steps, x, y | Init(cs, s) && Run(cs, s, steps).Some?
      && RunsCommand(Run(cs, s, steps).value, x) && RunsCommand(Run(cs, s, steps).value, y) :: x == y
  }

  predicate RunsCommand(s: State, n: NodeId) {
    n in s.nodes && s.nodes[n].Up? && s.nodes[n].pc.Executing?
  }

  lemma RunsOnlyIfAble(cs: Configs, s: State, steps: seq<Step>, n: NodeId)
    requires Init(cs, s) && Run(cs, s, steps).Some? && RunsCommand(Run(cs, s, steps).value, n)
    ensures n in cs && Able(cs[n])
  {
    hide *;
    RunAdmitted(cs, s, steps);
    AdmittedNode(cs, Run(cs, s, steps).value, n);
    RunsAtWork(cs[n], Run(cs, s, steps).value, n);
  }

  lemma RunsAtWork(c: NodeConfig, s: State, n: NodeId)
    requires RunsCommand(s, n) && Fits(c, s.nodes[n].pc) && Admitted(c, s.nodes[n].pc)
    ensures Able(c)
  {
    hide SomeSecondOpen, SomeListingAllows, NodeConfig.Reboots;
  }

  lemma AdmittedNode(cs: Configs, s: State, n: NodeId)
    requires NodesOnLadder(cs, s) && AllAdmitted(cs, s) && RunsCommand(s, n)
    ensures n in s.nodes && s.nodes[n].Up? && n in cs && Fits(cs[n], s.nodes[n].pc) && Admitted(cs[n], s.nodes[n].pc)
  {
    hide OnLadder, Admitted, Fits;
    LadderFits(cs[n], s.nodes[n].pc, s.nodes[n].pass);
  }

  lemma TwoAreNotExclusive(cs: Configs, x: NodeId, y: NodeId)
    requires x in cs && y in cs && x != y && Able(cs[x]) && Able(cs[y])
    ensures !ExclusiveUnaided(cs)
  {
    hide Able, Init, Run;
    var t := LiveExpiryBreaksExclusion(cs, x, y);
    assert RunsCommand(t.end, x) && RunsCommand(t.end, y);
  }

  lemma OneAbleIsExclusive(cs: Configs)
    requires AtMostOneAble(cs)
    ensures ExclusiveUnaided(cs)
  {
    forall s, steps, x, y | Init(cs, s) && Run(cs, s, steps).Some?
      && RunsCommand(Run(cs, s, steps).value, x) && RunsCommand(Run(cs, s, steps).value, y)
      ensures x == y
    {
      hide Able, Init, Run, RunsCommand;
      RunsOnlyIfAble(cs, s, steps, x);
      RunsOnlyIfAble(cs, s, steps, y);
    }
  }

  /** The lock excludes by itself, whatever becomes of sessions, exactly when there is nobody to exclude. */
  lemma ExclusiveExactly(cs: Configs)
    ensures ExclusiveUnaided(cs) <==> AtMostOneAble(cs)
  {
    hide Able, ExclusiveUnaided;
    if AtMostOneAble(cs) {
      OneAbleIsExclusive(cs);
    } else {
      var x, y :| x in cs && y in cs && Able(cs[x]) && Able(cs[y]) && x != y;
      TwoAreNotExclusive(cs, x, y);
    }
  }
}
