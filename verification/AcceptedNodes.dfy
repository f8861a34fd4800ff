/** The nodes of accepted configurations: which of them are able to reboot, and what that makes of their clusters. */
module AcceptedNodes {
  import opened Backoff
  import opened ClusterPolicy
  import opened WindowLanguage
  import opened WindowEvaluator
  import opened Protocol
  import opened Cluster
  import opened CooldownSpacing
  import opened Ability
  import opened ClusterRuns
  import opened SpacingCondition
  import opened OneAtATime
  import opened PolicyBounds
  import opened WindowTiming
  import C = Config

  /** The node's windows permit a second exactly when those written in the configuration do. */
  lemma OpenAsWritten(c: C.Config, second: nat)
    requires c.Windows().Ok? && second < WEEK
    ensures OpenAt(c.Node(), second) <==> Permitted(c.allow, c.deny, second)
  {
    hide ListOf, Permitted, Decide;
    DecisionMeansWindows(c.allow, c.deny, second);
  }

  /** It is no dry run, and the written windows permit some second. */
  ghost predicate RebootsSometime(c: C.Config)
    reads c
  {
    !c.dryRun && exists second: nat :: second < WEEK && Permitted(c.allow, c.deny, second)
  }

  /** An accepted configuration makes a node able to reboot exactly when it is no dry run and its windows permit some second. */
  lemma AcceptedAble(c: C.Config)
    requires c.Runnable()
    ensures Able(c.Node()) <==> RebootsSometime(c)
  {
    c.AcceptedRuns(c.Windows().value);
    c.AcceptedFields();
    var records := EnoughNodes(c.nodeName, c.policies, Least(c.nodeName, c.policies));
    hide Blocks, Permitted, EvaluatorOf, OpenAt;
    assert ListingAllows(c.Node(), records);
    forall second: nat | second < WEEK
      ensures OpenAt(c.Node(), second) <==> Permitted(c.allow, c.deny, second)
    {
      OpenAsWritten(c, second);
    }
  }

  /** A cluster of accepted configurations with a common interval between reboots, in seconds. */
  ghost predicate AcceptedCluster(configs: map<NodeId, C.Config>, cs: Configs, seconds: int)
    reads configs.Values
  {
    && configs.Keys == cs.Keys
    && (forall n | n in configs :: configs[n].Runnable() && cs[n] == configs[n].Node())
    && (forall n | n in configs :: configs[n].minRebootIntervalSec == seconds)
    && 0 < seconds && seconds * SECOND < TWO63
  }

  ghost predicate AtMostOneReboots(configs: map<NodeId, C.Config>)
    reads configs.Values
  {
    forall x, y | x in configs && y in configs && RebootsSometime(configs[x]) && RebootsSometime(configs[y]) :: x == y
  }

  lemma ClusterAble(configs: map<NodeId, C.Config>, cs: Configs, seconds: int)
    requires AcceptedCluster(configs, cs, seconds)
    ensures forall n | n in cs :: (Able(cs[n]) <==> RebootsSometime(configs[n])) && cs[n].cooldown == seconds * SECOND
  {
    hide Able, RebootsSometime;
    forall n | n in cs
      ensures Able(cs[n]) <==> RebootsSometime(configs[n])
      ensures cs[n].cooldown == seconds * SECOND
    {
      AcceptedAble(configs[n]);
      configs[n].AcceptedRuns(configs[n].Windows().value);
    }
  }

  /**
   What the program is told keeps reboots apart for the configured interval, of early and of late readers of the cooldown alike,
   and keeps them one at a time until the node is back, exactly if at most one node ever reboots.
   */
  lemma AcceptedSpacedExactly(configs: map<NodeId, C.Config>, cs: Configs, seconds: int)
    requires AcceptedCluster(configs, cs, seconds)
    ensures Spaced(cs, seconds * SECOND) <==> AtMostOneReboots(configs)
    ensures LateSpaced(cs, seconds * SECOND) <==> AtMostOneReboots(configs)
    ensures RebootsAlone(cs) <==> AtMostOneReboots(configs)
  {
    ClusterAble(configs, cs, seconds);
    hide Able, Spaced, LateSpaced, RebootsAlone, RebootsSometime;
    SpacedExactlyWhenOneAble(cs, seconds * SECOND);
    LateSpacedExactly(cs, seconds * SECOND);
    RebootsAloneExactly(cs);
  }

  /** The written windows permit every second. */
  ghost predicate AlwaysPermitted(c: C.Config) {
    forall second: nat | second < WEEK :: Permitted(c.allow, c.deny, second)
  }

  /** Every command of every run starts at a second its node's written windows permit exactly if no node that reboots has any. */
  lemma AcceptedWindowsKeptExactly(configs: map<NodeId, C.Config>, cs: Configs, seconds: int)
    requires AcceptedCluster(configs, cs, seconds)
    ensures StartsPermitted(cs) <==> forall n | n in configs && RebootsSometime(configs[n]) :: AlwaysPermitted(configs[n])
  {
    ClusterAble(configs, cs, seconds);
    StartsPermittedExactly(cs);
    forall n | n in configs
      ensures NeverDenied(cs[n]) <==> AlwaysPermitted(configs[n])
    {
      hide Permitted, EvaluatorOf, OpenAt;
      forall second: nat | second < WEEK
        ensures OpenAt(cs[n], second) <==> Permitted(configs[n].allow, configs[n].deny, second)
      {
        OpenAsWritten(configs[n], second);
      }
    }
    hide Able, StartsPermitted, NeverDenied, AlwaysPermitted, RebootsSometime;
  }

  /** Two accepted configurations, of nodes with names of their own, between which the interval is not kept. */
  lemma TwoAcceptedNotSpaced(a: C.Config, b: C.Config, seconds: int) returns (cs: Configs, t: Trip, i: nat)
    requires a.Runnable() && b.Runnable() && a.nodeName != b.nodeName && RebootsSometime(a) && RebootsSometime(b)
    requires a.minRebootIntervalSec == b.minRebootIntervalSec == seconds && 0 < seconds && seconds * SECOND < TWO63
    ensures cs == map[0 := a.Node(), 1 := b.Node()]
    ensures Possible(cs, t, true) && CommonInterval(cs, seconds * SECOND)
    ensures i < |t.steps| - 1 && t.steps[i] == NodeStep(0, CooldownPut(0, true), false)
    ensures t.steps[|t.steps| - 1] == NodeStep(1, ExecStarted(cs[1].command), false)
    ensures 0 in t.end.store.leases && t.end.store.leases[0].granted == t.end.store.now
  {
    AcceptedAble(a);
    AcceptedAble(b);
    a.AcceptedRuns(a.Windows().value);
    b.AcceptedRuns(b.Windows().value);
    cs := map[0 := a.Node(), 1 := b.Node()];
    hide *;
    PairInterval(a.Node(), b.Node(), seconds * SECOND);
    t, i := EarlyReaderReboots(cs, 0, 1);
  }

  lemma PairInterval(a: NodeConfig, b: NodeConfig, interval: int)
    requires a.cooldown == b.cooldown == interval
    ensures CommonInterval(map[0 := a, 1 := b], interval)
  {
  }
}
