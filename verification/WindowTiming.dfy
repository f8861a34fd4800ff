/** When a reboot starts, seen from the windows, which a pass reads once, before the lock. */
module WindowTiming {
  import opened Wrappers
  import opened Backoff
  import opened WindowLanguage
  import opened WindowEvaluator
  import opened Protocol
  import opened NodeSafety
  import opened Cluster
  import opened CooldownSpacing
  import opened Ability
  import opened ClusterRuns

  // ----- How long permission lasts -----

  /** How many of the next seconds are permitted one after the other, from a second of the week on. */
  function PermittedFor(e: Evaluator, second: nat, limit: nat): (n: nat)
    ensures n <= limit
    decreases limit
  {
    if limit == 0 || !Decide(e, second % WEEK).allowed then 0 else 1 + PermittedFor(e, second + 1, limit - 1)
  }

  /** The seconds of permission left at a second of the week; a whole week stands for ever. */
  function Left(e: Evaluator, second: nat): (n: nat)
    ensures n <= WEEK
  {
    PermittedFor(e, second, WEEK)
  }

  /** Every second is permitted until a number of seconds later. */
  ghost predicate Throughout(e: Evaluator, second: nat, later: nat) {
    forall i | 0 <= i <= later :: PermittedAfter(e, second, i)
  }

  predicate PermittedAfter(e: Evaluator, second: nat, later: nat) {
    Decide(e, (second + later) % WEEK).allowed
  }

  lemma {:induction false} PermittedForMeaning(e: Evaluator, second: nat, limit: nat, later: nat)
    requires later < limit
    ensures Throughout(e, second, later) <==> later < PermittedFor(e, second, limit)
    decreases limit
  {
    hide Decide;
    assert PermittedAfter(e, second, 0) <==> Decide(e, second % WEEK).allowed;
    if later > 0 {
      var next := second + 1;
      PermittedForMeaning(e, next, limit - 1, later - 1);
      if Throughout(e, next, later - 1) && PermittedAfter(e, second, 0) {
        forall i | 0 <= i <= later
          ensures PermittedAfter(e, second, i)
        {
          assert i > 0 ==> PermittedAfter(e, next, i - 1);
        }
      }
      if Throughout(e, second, later) {
        forall i | 0 <= i <= later - 1
          ensures PermittedAfter(e, next, i)
        {
          assert PermittedAfter(e, second, i + 1);
        }
      }
    }
  }

  /** Permission lasts exactly for less than what is left of it, or for ever. */
  lemma LeftMeaning(e: Evaluator, second: nat, later: nat)
    ensures Throughout(e, second, later) <==> later < Left(e, second) || Left(e, second) == WEEK
  {
    hide Decide;
    PermittedForMeaning(e, second, WEEK, WEEK - 1);
    if later < WEEK {
      PermittedForMeaning(e, second, WEEK, later);
    }
    if Throughout(e, second, WEEK - 1) {
      forall i | 0 <= i <= later
        ensures PermittedAfter(e, second, i)
      {
        AddedAroundWeek(i, second);
        assert PermittedAfter(e, second, i % WEEK);
      }
    }
    if Throughout(e, second, later) && later >= WEEK {
      assert forall i | 0 <= i <= WEEK - 1 :: PermittedAfter(e, second, i);
    }
  }

  // ----- The reading behind a start -----

  /** At step j node b reads the windows, permitted; it has begun no other pass since. */
  ghost predicate ReadOpenAt(cs: Configs, s: State, steps: seq<Step>, j: nat, b: NodeId) {
    && j < |steps| && steps[j].NodeStep? && steps[j].node == b && steps[j].event.WindowRead?
    && Run(cs, s, steps[..j]).Some?
    && steps[j].event.second == WeekSecond(Run(cs, s, steps[..j]).value.store.now)
    && b in cs && cs[b].windows.Some? && Decide(cs[b].windows.value, steps[j].event.second).allowed
    && forall t | j < t < |steps| :: !(steps[t].NodeStep? && steps[t].node == b && steps[t].event.Began?)
  }

  lemma ReadStays(cs: Configs, s: State, steps: seq<Step>, j: nat, b: NodeId, step: Step)
    requires ReadOpenAt(cs, s, steps, j, b) && !(step.NodeStep? && step.node == b && step.event.Began?)
    ensures ReadOpenAt(cs, s, steps + [step], j, b)
  {
    hide Run, Decide;
    assert (steps + [step])[..j] == steps[..j];
  }

  /** Only the reading gets a node with windows past them. */
  lemma PastWindows(c: NodeConfig, pc: Pc, e: Event)
    requires Fits(c, pc) && Next(c, pc, e).Some? && c.windows.Some?
    requires Height(Next(c, pc, e).value).Some? && Height(Next(c, pc, e).value).value >= 2
    ensures !e.Began?
    ensures (Height(pc).Some? && Height(pc).value >= 2) || (e.WindowRead? && Decide(c.windows.value, e.second).allowed)
  {
    GateStep(c, pc, e);
    hide Next, Fits, Height, Decide;
  }

  lemma {:induction false} ReadBehind(cs: Configs, s: State, steps: seq<Step>, b: NodeId) returns (j: nat)
    requires Init(cs, s) && Run(cs, s, steps).Some? && b in cs && cs[b].windows.Some?
    requires var end := Run(cs, s, steps).value;
      b in end.nodes && end.nodes[b].Up? && Height(end.nodes[b].pc).Some? && Height(end.nodes[b].pc).value >= 2
    ensures ReadOpenAt(cs, s, steps, j, b)
  {
    if steps == [] {
      NothingBehind();
    } else {
      var n := |steps| - 1;
      var before, step := Run(cs, s, steps[..n]).value, steps[n];
      assert steps == steps[..n] + [step];
      RunKeepsLadder(cs, s, steps[..n]);
      var own := step.NodeStep? && step.node == b;
      StepOfNode(cs, before, step, b);
      if own {
        LadderFits(cs[b], before.nodes[b].pc, before.nodes[b].pass);
        PastWindows(cs[b], before.nodes[b].pc, step.event);
      }
      hide Run, Init, Height, NodesOnLadder, Decide, Apply;
      if own && step.event.WindowRead? && Decide(cs[b].windows.value, step.event.second).allowed {
        j := n;
      } else {
        j := ReadBehind(cs, s, steps[..n], b);
        ReadStays(cs, s, steps[..n], j, b, step);
      }
    }
  }

  lemma NothingBehind()
    ensures Height(Idle) == None
  {
  }

  /** What a step does with one node. */
  lemma StepOfNode(cs: Configs, s: State, step: Step, b: NodeId)
    requires Apply(cs, s, step).Some? && b in Apply(cs, s, step).value.nodes && Apply(cs, s, step).value.nodes[b].Up?
    ensures b in s.nodes
    ensures Height(Apply(cs, s, step).value.nodes[b].pc).Some? ==> s.nodes[b].Up?
    ensures step.NodeStep? && step.node == b ==>
      b in cs && s.nodes[b].Up? && Next(cs[b], s.nodes[b].pc, step.event) == Some(Apply(cs, s, step).value.nodes[b].pc)
    ensures step.NodeStep? && step.node == b && step.event.WindowRead? ==> step.event.second == WeekSecond(s.store.now)
    ensures !(step.NodeStep? && step.node == b) && Height(Apply(cs, s, step).value.nodes[b].pc).Some? ==>
      Apply(cs, s, step).value.nodes[b] == s.nodes[b]
  {
    NothingBehind();
    hide Next, Height;
  }

  // ----- When the command starts -----

  ghost predicate StartsAt(cs: Configs, s: State, steps: seq<Step>, k: nat, b: NodeId) {
    && Init(cs, s) && Run(cs, s, steps).Some?
    && k < |steps| && steps[k].NodeStep? && steps[k].node == b && steps[k].event.ExecStarted?
  }

  function TimeBefore(cs: Configs, s: State, steps: seq<Step>, k: nat): int
    requires k <= |steps|
  {
    if k == 0 then s.store.now else TimeBefore(cs, s, steps, k - 1) + if steps[k - 1].Tick? then steps[k - 1].elapsed else 0
  }

  lemma {:induction false} TimeIs(cs: Configs, s: State, steps: seq<Step>, k: nat)
    requires k <= |steps| && Run(cs, s, steps[..k]).Some?
    ensures Run(cs, s, steps[..k]).value.store.now == TimeBefore(cs, s, steps, k)
  {
    if k > 0 {
      assert steps[..k][..k - 1] == steps[..k - 1];
      TimeIs(cs, s, steps, k - 1);
      ClockStep(cs, Run(cs, s, steps[..k - 1]).value, steps[k - 1]);
    }
  }

  lemma ClockStep(cs: Configs, s: State, step: Step)
    requires Apply(cs, s, step).Some?
    ensures Apply(cs, s, step).value.store.now == s.store.now + if step.Tick? then step.elapsed else 0
  {
    if step.NodeStep? {
      hide Next, Effect;
      EffectOnLeases(s.store, step.event, step.applied);
    } else {
      hide Next, Effect;
    }
  }

  lemma {:induction false} TimeGrows(cs: Configs, s: State, steps: seq<Step>, j: nat, k: nat)
    requires j <= k <= |steps|
    ensures TimeBefore(cs, s, steps, j) <= TimeBefore(cs, s, steps, k)
  {
    if j < k {
      TimeGrows(cs, s, steps, j, k - 1);
    }
  }

  /**
   A node with windows that starts its command had, in the same pass, read them at a permitted second. From that second on to
   the one of the start, permission has not lapsed exactly if the whole seconds between them are fewer than were left of it.
   */
  lemma StartsAsPermitted(cs: Configs, s: State, steps: seq<Step>, k: nat, b: NodeId) returns (j: nat, later: nat)
    requires StartsAt(cs, s, steps, k, b) && b in cs && cs[b].windows.Some?
    ensures j < k && ReadOpenAt(cs, s, steps[..k], j, b)
    ensures TimeBefore(cs, s, steps, j) / SECOND + later == TimeBefore(cs, s, steps, k) / SECOND
    ensures Run(cs, s, steps[..k]).Some?
    ensures WeekSecond(Run(cs, s, steps[..k]).value.store.now) == (steps[j].event.second + later) % WEEK
    ensures var e, second := cs[b].windows.value, steps[j].event.second;
      Throughout(e, second, later) <==> later < Left(e, second) || Left(e, second) == WEEK
    ensures later < Left(cs[b].windows.value, steps[j].event.second) ==>
      OpenAt(cs[b], WeekSecond(Run(cs, s, steps[..k]).value.store.now))
  {
    hide Init, Decide, Left, Throughout, Apply;
    RunPrefix(cs, s, steps, k);
    RunPrefix(cs, s, steps, k + 1);
    assert steps[..k + 1][..k] == steps[..k];
    RunKeepsLadder(cs, s, steps[..k]);
    var end := Run(cs, s, steps[..k]).value;
    ExecutingIsPast(cs, end, b, steps[k].event, steps[k].applied);
    j := ReadBehind(cs, s, steps[..k], b);
    assert steps[..k][..j] == steps[..j];
    TimeIs(cs, s, steps, j);
    TimeIs(cs, s, steps, k);
    TimeGrows(cs, s, steps, j, k);
    var from, to := TimeBefore(cs, s, steps, j), TimeBefore(cs, s, steps, k);
    SecondsGrow(from, to);
    later := to / SECOND - from / SECOND;
    AddedAroundWeek(from / SECOND, later);
    LeftMeaning(cs[b].windows.value, steps[j].event.second, later);
    if later < Left(cs[b].windows.value, steps[j].event.second) {
      LastPermitted(cs[b].windows.value, steps[j].event.second, later);
    }
  }

  lemma LastPermitted(e: Evaluator, second: nat, later: nat)
    requires Throughout(e, second, later)
    ensures Decide(e, (second + later) % WEEK).allowed
  {
    assert PermittedAfter(e, second, later);
  }

  lemma SecondsGrow(a: int, b: int)
    requires a <= b
    ensures a / SECOND <= b / SECOND
  {
  }

  /** In every run, every reboot command starts at a second its node's windows permit. */
  ghost predicate StartsPermitted(cs: Configs) {
    forall s, steps: seq<Step>, k: nat, b | StartsAt(cs, s, steps, k, b) && Run(cs, s, steps[..k]).Some? && b in cs ::
      OpenAt(cs[b], WeekSecond(Run(cs, s, steps[..k]).value.store.now))
  }

  ghost predicate NeverDenied(c: NodeConfig) {
    forall second: nat | second < WEEK :: OpenAt(c, second)
  }

  /** That is so exactly when the windows of every node able to reboot permit every second: reading them once keeps nothing out. */
  lemma StartsPermittedExactly(cs: Configs)
    ensures StartsPermitted(cs) <==> forall n | n in cs && Able(cs[n]) :: NeverDenied(cs[n])
  {
    if n :| n in cs && Able(cs[n]) && !NeverDenied(cs[n]) {
      var denied: nat :| denied < WEEK && !OpenAt(cs[n], denied);
      hide Able, Apply, NoLiveExpiry, OpenAt;
      var t := DeniedStart(cs, n, denied);
      var k := |t.steps| - 1;
      assert StartsAt(cs, t.start, t.steps, k, n);
      ClockStep(cs, Run(cs, t.start, t.steps[..k]).value, t.steps[k]);
    } else {
      forall s, steps: seq<Step>, k: nat, b | StartsAt(cs, s, steps, k, b) && Run(cs, s, steps[..k]).Some? && b in cs
        ensures OpenAt(cs[b], WeekSecond(Run(cs, s, steps[..k]).value.store.now))
      {
        hide Able, Init, OpenAt;
        RunPrefix(cs, s, steps, k + 1);
        assert steps[..k + 1][..k] == steps[..k];
        OnlyAbleNodesAct(cs, s, steps[..k], b, steps[k].event, steps[k].applied);
      }
    }
  }
}
