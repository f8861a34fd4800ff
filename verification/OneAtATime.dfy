/** One node at a time: which clusters never have two nodes rebooting at once, from the command to the restart. */
module OneAtATime {
  import opened Wrappers
  import opened Protocol
  import opened Cluster
  import opened CooldownSpacing
  import opened Ability
  import opened ClusterRuns
  import opened SpacingCondition

  predicate BeginsReboot(step: Step, n: NodeId) {
    step.NodeStep? && step.node == n && step.event.ExecStarted?
  }

  /** The node is back, or its command has failed. */
  predicate EndsReboot(step: Step, n: NodeId) {
    step == Restart(n) || (step.NodeStep? && step.node == n && step.event == ExecEnded(false))
  }

  predicate BeginsAndLasts(steps: seq<Step>, k: nat, n: NodeId) {
    k < |steps| && BeginsReboot(steps[k], n) && forall m | k < m < |steps| :: !EndsReboot(steps[m], n)
  }

  /** The node has begun a reboot that has not ended, whether it is still up or down already. */
  ghost predicate IsRebooting(steps: seq<Step>, n: NodeId) {
    exists k: nat :: BeginsAndLasts(steps, k, n)
  }

  /** In every harmless run, at most one node is rebooting at any time. */
  ghost predicate RebootsAlone(cs: Configs) {
    forall s, steps, x, y | Harmless(cs, s, steps) && IsRebooting(steps, x) && IsRebooting(steps, y) :: x == y
  }

  lemma RebootingIsAble(cs: Configs, s: State, steps: seq<Step>, n: NodeId)
    requires Init(cs, s) && Run(cs, s, steps).Some? && IsRebooting(steps, n)
    ensures n in cs && Able(cs[n])
  {
    hide Init, Able, Apply;
    var k: nat :| BeginsAndLasts(steps, k, n);
    RunPrefix(cs, s, steps, k);
    RunPrefix(cs, s, steps, k + 1);
    assert steps[..k + 1][..k] == steps[..k];
    OnlyAbleNodesAct(cs, s, steps[..k], n, steps[k].event, steps[k].applied);
  }

  lemma BothRebooting(c: Trip, t: Trip, x: NodeId, y: NodeId)
    requires GoesOn(c, t) && GoesSmoothly(c, t) && |t.steps| > |c.steps| > 0
    requires BeginsReboot(c.steps[|c.steps| - 1], x) && BeginsReboot(t.steps[|t.steps| - 1], y)
    ensures IsRebooting(t.steps, x) && IsRebooting(t.steps, y)
  {
    assert BeginsAndLasts(t.steps, |c.steps| - 1, x);
    assert BeginsAndLasts(t.steps, |t.steps| - 1, y);
  }

  lemma TwoRebootAtOnce(cs: Configs, x: NodeId, y: NodeId)
    requires x in cs && y in cs && x != y && Able(cs[x]) && Able(cs[y])
    ensures !RebootsAlone(cs)
  {
    hide Able, Init, Run, NoLiveExpiry, IsRebooting, GoesOn, GoesSmoothly;
    var c, t := SecondRebootsMeanwhile(cs, x, y);
    BothRebooting(c, t, x, y);
    assert Harmless(cs, t.start, t.steps);
  }

  lemma OneAbleRebootsAlone(cs: Configs)
    requires AtMostOneAble(cs)
    ensures RebootsAlone(cs)
  {
    forall s, steps, x, y | Harmless(cs, s, steps) && IsRebooting(steps, x) && IsRebooting(steps, y)
      ensures x == y
    {
      hide Able, IsRebooting, Init, Run, NoLiveExpiry;
      RebootingIsAble(cs, s, steps, x);
      RebootingIsAble(cs, s, steps, y);
    }
  }

  /**
   One node at a time, from the command until the node is back, exactly where at most one node is able to reboot at all: the lock
   of a node that has gone down lapses, whether the node is back or not.
   */
  lemma RebootsAloneExactly(cs: Configs)
    ensures RebootsAlone(cs) <==> AtMostOneAble(cs)
  {
    hide Able, RebootsAlone;
    if AtMostOneAble(cs) {
      OneAbleRebootsAlone(cs);
    } else {
      var x, y :| x in cs && y in cs && Able(cs[x]) && Able(cs[y]) && x != y;
      TwoRebootAtOnce(cs, x, y);
    }
  }
}
