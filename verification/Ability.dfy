/** Which configurations can ever reboot: the rest never take a lease, start a cooldown or run the command. */
module Ability {
  import opened Wrappers
  import opened ClusterPolicy
  import opened WindowEvaluator
  import opened WindowLanguage
  import opened Protocol
  import opened NodeSafety
  import opened Cluster

  /** The windows permit this second of the week. */
  predicate OpenAt(c: NodeConfig, second: int) {
    c.windows.Some? ==> Decide(c.windows.value, second).allowed
  }

  /** The node can be shown these records, and its policies let it reboot on them. */
  ghost predicate ListingAllows(c: NodeConfig, records: seq<Record>) {
    (c.inspects || records == []) && Allows(c, records)
  }

  ghost predicate SomeSecondOpen(c: NodeConfig) {
    exists second: nat :: second < WEEK && OpenAt(c, second)
  }

  ghost predicate SomeListingAllows(c: NodeConfig) {
    exists records :: ListingAllows(c, records)
  }

  /** The node takes locks and reboots, its windows permit some second, and its policies let it reboot on some records. */
  ghost predicate Able(c: NodeConfig) {
    c.lockEnabled && c.Reboots() && SomeSecondOpen(c) && SomeListingAllows(c)
  }

  /** What the gates behind a place say of the configuration. */
  ghost predicate Admitted(c: NodeConfig, pc: Pc) {
    Height(pc).Some? ==>
      && (Height(pc).value >= 2 ==> SomeSecondOpen(c))
      && (Height(pc).value >= 4 ==> SomeListingAllows(c))
  }

  /** An event can only be what the store's clock and the node's means of inspection make it. */
  predicate Plausible(c: NodeConfig, e: Event) {
    && (e.WindowRead? ==> e.second < WEEK)
    && (e.Inspected? && !c.inspects ==> e.records == Some([]))
  }

  lemma InspectedPlausibly(c: NodeConfig, pc: Pc, e: Event)
    requires Next(c, pc, e).Some? && e.Inspected? && !c.inspects
    ensures e.records == Some([])
  {
    hide Allows, Decide, NodeConfig.LockBackoffCeiling, NodeConfig.LockBackoffMin, NodeConfig.CooldownSeconds;
  }

  lemma WindowGate(c: NodeConfig, e: Event)
    requires Plausible(c, e) && GateOf(c, e) == Some(WindowOpen)
    ensures SomeSecondOpen(c)
  {
    assert OpenAt(c, e.second);
  }

  lemma PolicyGate(c: NodeConfig, e: Event, phase: Phase)
    requires Plausible(c, e) && GateOf(c, e) == Some(PolicyMet(phase))
    ensures SomeListingAllows(c)
  {
    assert ListingAllows(c, e.records.value);
  }

  lemma AdmittedStep(c: NodeConfig, pc: Pc, e: Event)
    requires Fits(c, pc) && Next(c, pc, e).Some? && Plausible(c, e) && Admitted(c, pc)
    ensures Admitted(c, Next(c, pc, e).value)
  {
    GateStep(c, pc, e);
    var pc' := Next(c, pc, e).value;
    hide Next, Fits, Height, SomeSecondOpen, SomeListingAllows, GateOf, Plausible;
    if Height(pc').Some? && !e.Began? {
      var from, to := Height(pc).value, Height(pc').value;
      if GateOf(c, e) == Some(WindowOpen) {
        WindowGate(c, e);
      }
      if c.windows == None {
        NoWindows(c);
      }
      if GateOf(c, e).Some? && GateOf(c, e).value.PolicyMet? {
        PolicyGate(c, e, GateOf(c, e).value.phase);
      }
    }
  }

  lemma NoWindows(c: NodeConfig)
    requires c.windows == None
    ensures SomeSecondOpen(c)
  {
    assert OpenAt(c, 0);
  }

  // ----- Over a run -----

  ghost predicate AllAdmitted(cs: Configs, s: State) {
    forall n | n in s.nodes && n in cs && s.nodes[n].Up? :: Admitted(cs[n], s.nodes[n].pc)
  }

  lemma IdleAdmitted(c: NodeConfig)
    ensures Admitted(c, Idle)
  {
  }

  lemma StepAdmitted(cs: Configs, s: State, step: Step)
    requires NodesOnLadder(cs, s) && AllAdmitted(cs, s) && Apply(cs, s, step).Some?
    ensures AllAdmitted(cs, Apply(cs, s, step).value)
  {
    forall c: NodeConfig
      ensures Admitted(c, Idle)
    {
      IdleAdmitted(c);
    }
    if step.NodeStep? {
      var n, e := step.node, step.event;
      LadderFits(cs[n], s.nodes[n].pc, s.nodes[n].pass);
      assert e.WindowRead? ==> e.second < WEEK;
      if e.Inspected? && !cs[n].inspects {
        InspectedPlausibly(cs[n], s.nodes[n].pc, e);
      }
      hide Next, Effect, OnLadder, Fits, Admitted;
      AdmittedStep(cs[n], s.nodes[n].pc, e);
    } else {
      hide Next, Effect, OnLadder, Admitted;
    }
  }

  lemma {:induction false} RunAdmitted(cs: Configs, s: State, steps: seq<Step>)
    requires Init(cs, s) && Run(cs, s, steps).Some?
    ensures NodesOnLadder(cs, Run(cs, s, steps).value) && AllAdmitted(cs, Run(cs, s, steps).value)
  {
    RunKeepsLadder(cs, s, steps);
    if steps == [] {
      forall c: NodeConfig
        ensures Admitted(c, Idle)
      {
        IdleAdmitted(c);
      }
    } else {
      hide Apply, NodesOnLadder, AllAdmitted;
      var before := Run(cs, s, steps[..|steps| - 1]).value;
      RunAdmitted(cs, s, steps[..|steps| - 1]);
      StepAdmitted(cs, before, steps[|steps| - 1]);
    }
  }

  /** Whoever starts a cooldown or a reboot command, in whatever run, is able to reboot. */
  lemma OnlyAbleNodesAct(cs: Configs, s: State, steps: seq<Step>, n: NodeId, e: Event, applied: bool)
    requires Init(cs, s) && Run(cs, s, steps).Some?
    requires Apply(cs, Run(cs, s, steps).value, NodeStep(n, e, applied)).Some? && (e.CooldownPut? || e.ExecStarted?)
    ensures n in cs && Able(cs[n]) && (e.CooldownPut? ==> cs[n].cooldown > 0)
  {
    RunAdmitted(cs, s, steps);
    var end := Run(cs, s, steps).value;
    ActsAtWork(cs[n], end.nodes[n].pc, e, end.nodes[n].pass);
  }

  /** A cooldown is started, and a command, only from the end of a pass. */
  lemma ActsAtEnd(c: NodeConfig, pc: Pc, e: Event)
    requires Next(c, pc, e).Some? && (e.CooldownPut? || e.ExecStarted?)
    ensures pc.Putting? || pc.Starting? || (pc.Handled? && pc.result.Holding?)
    ensures e.CooldownPut? ==> pc.Putting?
  {
    hide Allows, Decide, NodeConfig.LockBackoffCeiling, NodeConfig.LockBackoffMin, NodeConfig.CooldownSeconds;
  }

  lemma ActsAtWork(c: NodeConfig, pc: Pc, e: Event, pass: seq<Event>)
    requires OnLadder(c, pc, pass) && Admitted(c, pc) && Next(c, pc, e).Some? && (e.CooldownPut? || e.ExecStarted?)
    ensures Able(c) && (e.CooldownPut? ==> c.cooldown > 0)
  {
    ActsAtEnd(c, pc, e);
    LadderFits(c, pc, pass);
    hide Next, OnLadder, SomeSecondOpen, SomeListingAllows, NodeConfig.Reboots;
  }
}
