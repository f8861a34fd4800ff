/**
 Health reporting by two threads of each node: the reboot loop and the heartbeat both run the health script, under one
 mutex per node, and both write the node's entry of a shared table after they have let go of the mutex.
 */
module HealthThreads {
  import opened Wrappers
  import opened Protocol
  import WindowEvaluator

  type NodeId = nat

  datatype Thread = LoopThread | HeartbeatThread

  datatype Activity = Quiet | Checking(phase: Phase, stage: HealthStage)

  /** A health script run that ended. */
  datatype ScriptRun = ScriptRun(phase: Phase, script: ScriptReading)

  datatype NodeHealth = NodeHealth(mutex: Option<Thread>, threads: map<Thread, Activity>, runs: seq<ScriptRun>)

  /** A stored entry; an unhealthy one tells the phase and exit code of the run that caused it. */
  datatype Entry = Entry(node: NodeId, healthy: bool, cause: Option<(Phase, int)>)

  datatype State = State(nodes: map<NodeId, NodeHealth>, table: map<NodeId, Entry>)

  datatype Step =
    | Begin(node: NodeId, thread: Thread, phase: Phase)
    | ThreadStep(node: NodeId, thread: Thread, event: Event, applied: bool)
    | Crash(node: NodeId)

  /** What a thread does after an event of a health run. */
  function NextActivity(publishes: bool, a: Activity, e: Event): Option<Activity> {
    if a.Quiet? then None
    else
      match (a.stage, e)
      case (WaitingMutex, MutexTaken) => Some(Checking(a.phase, InScript))
      case (InScript, ScriptRan(phase, _, _, script)) => if phase == a.phase then Some(Checking(phase, InMutex(script))) else None
      case (InMutex(script), MutexReleased) =>
        Some(if script.Exit? && publishes then Checking(a.phase, Reporting(script.code)) else Quiet)
      case (Reporting(code), Reported(phase, c, _)) => if phase == a.phase && c == code then Some(Quiet) else None
      case _ => None
  }

  function EntryFor(node: NodeId, phase: Phase, code: int): Entry {
    if code == 0 then Entry(node, true, None) else Entry(node, false, Some((phase, code)))
  }

  predicate MayBegin(thread: Thread, phase: Phase) {
    thread.HeartbeatThread? <==> phase == HeartbeatPhase
  }

  /** What a step makes of its node. */
  function NextNode(publishes: bool, n: NodeHealth, step: Step): Option<NodeHealth> {
    match step
    case Crash(_) => Some(NodeHealth(None, map t | t in n.threads :: Quiet, n.runs))
    case Begin(_, t, phase) =>
      if t in n.threads && n.threads[t] == Quiet && MayBegin(t, phase)
      then Some(n.(threads := n.threads[t := Checking(phase, WaitingMutex)])) else None
    case ThreadStep(_, t, e, _) =>
      if t !in n.threads || NextActivity(publishes, n.threads[t], e) == None || (e.MutexTaken? && n.mutex.Some?) then None
      else
        Some(NodeHealth(
          if e.MutexTaken? then Some(t) else if e.MutexReleased? then None else n.mutex,
          n.threads[t := NextActivity(publishes, n.threads[t], e).value],
          if e.ScriptRan? then n.runs + [ScriptRun(e.phase, e.script)] else n.runs))
  }

  /** A report overwrites the node's entry, if the write took effect. */
  function NextTable(table: map<NodeId, Entry>, step: Step): map<NodeId, Entry> {
    if step.ThreadStep? && step.event.Reported? && (step.event.write.Written? || step.applied)
    then table[step.node := EntryFor(step.node, step.event.phase, step.event.code)] else table
  }

  function Apply(publishes: bool, s: State, step: Step): Option<State> {
    if step.node !in s.nodes then None
    else
      match NextNode(publishes, s.nodes[step.node], step)
      case None => None
      case Some(n) => Some(State(s.nodes[step.node := n], NextTable(s.table, step)))
  }

  function Run(publishes: bool, s: State, steps: seq<Step>): Option<State> {
    if steps == [] then Some(s)
    else
      match Run(publishes, s, steps[..|steps| - 1])
      case None => None
      case Some(before) => Apply(publishes, before, steps[|steps| - 1])
  }

  function Fresh(): NodeHealth {
    NodeHealth(None, map[LoopThread := Quiet, HeartbeatThread := Quiet], [])
  }

  ghost predicate Init(s: State) {
    s.table == map[] && forall n | n in s.nodes :: s.nodes[n] == Fresh()
  }

  // ----- Safety -----

  predicate InsideMutex(a: Activity) {
    a.Checking? && (a.stage.InScript? || a.stage.InMutex?)
  }

  /** The run a thread is about to report on has ended with the verdict it reports. */
  predicate Backed(a: Activity, runs: seq<ScriptRun>) {
    match a
    case Checking(phase, InMutex(script)) => ScriptRun(phase, script) in runs
    case Checking(phase, Reporting(code)) => ScriptRun(phase, Exit(code)) in runs
    case _ => true
  }

  ghost predicate NodeInv(n: NodeHealth) {
    && n.threads.Keys == {LoopThread, HeartbeatThread}
    && (forall t | t in n.threads :: InsideMutex(n.threads[t]) <==> n.mutex == Some(t))
    && (forall t | t in n.threads :: Backed(n.threads[t], n.runs))
  }

  /** An entry sits under its own node and tells the verdict of a script run of that node that ended. */
  ghost predicate EntryInv(s: State, node: NodeId) {
    && node in s.nodes && node in s.table
    && s.table[node].node == node
    && (if s.table[node].healthy
        then s.table[node].cause == None && exists phase: Phase :: ScriptRun(phase, Exit(0)) in s.nodes[node].runs
        else s.table[node].cause.Some? && s.table[node].cause.value.1 != 0
             && ScriptRun(s.table[node].cause.value.0, Exit(s.table[node].cause.value.1)) in s.nodes[node].runs)
  }

  ghost predicate Inv(s: State) {
    (forall n | n in s.nodes :: NodeInv(s.nodes[n])) && (forall n | n in s.table :: EntryInv(s, n))
  }

  lemma NextNodeInv(publishes: bool, n: NodeHealth, step: Step)
    requires NodeInv(n) && NextNode(publishes, n, step).Some?
    ensures NodeInv(NextNode(publishes, n, step).value)
    ensures n.runs <= NextNode(publishes, n, step).value.runs
  {
    var n' := NextNode(publishes, n, step).value;
    assert forall r | r in n.runs :: r in n'.runs;
    if step.ThreadStep? && step.event.ScriptRan? {
      assert n'.runs[|n.runs|] == ScriptRun(step.event.phase, step.event.script);
    }
  }

  /** A report tells the verdict of a run that ended. */
  lemma ReportIsBacked(publishes: bool, n: NodeHealth, step: Step)
    requires NodeInv(n) && NextNode(publishes, n, step).Some? && step.ThreadStep? && step.event.Reported?
    ensures ScriptRun(step.event.phase, Exit(step.event.code)) in n.runs
    ensures NextNode(publishes, n, step).value.runs == n.runs
  {
  }

  lemma StepKeepsEntry(publishes: bool, s: State, step: Step, node: NodeId)
    requires Inv(s) && Apply(publishes, s, step).Some? && node in Apply(publishes, s, step).value.table
    ensures EntryInv(Apply(publishes, s, step).value, node)
  {
    hide NextNode, NodeInv;
    var s' := Apply(publishes, s, step).value;
    NextNodeInv(publishes, s.nodes[step.node], step);
    if s'.table != s.table && node == step.node {
      ReportIsBacked(publishes, s.nodes[node], step);
    } else {
      assert EntryInv(s, node);
      assert forall r | r in s.nodes[node].runs :: r in s'.nodes[node].runs;
    }
  }

  lemma StepKeepsInv(publishes: bool, s: State, step: Step)
    requires Inv(s) && Apply(publishes, s, step).Some?
    ensures Inv(Apply(publishes, s, step).value)
  {
    hide NextNode, NodeInv, EntryInv, NextTable;
    NextNodeInv(publishes, s.nodes[step.node], step);
    var s' := Apply(publishes, s, step).value;
    forall n | n in s'.table
      ensures EntryInv(s', n)
    {
      StepKeepsEntry(publishes, s, step, n);
    }
  }

  lemma {:induction false} RunKeepsInv(publishes: bool, s: State, steps: seq<Step>)
    requires Init(s) && Run(publishes, s, steps).Some?
    ensures Inv(Run(publishes, s, steps).value)
  {
    if steps != [] {
      hide Apply, Inv;
      RunKeepsInv(publishes, s, steps[..|steps| - 1]);
      StepKeepsInv(publishes, Run(publishes, s, steps[..|steps| - 1]).value, steps[|steps| - 1]);
    }
  }

  /** However the two threads of the nodes interleave, and whenever nodes crash, no node runs two health scripts at once. */
  lemma OneScriptAtATime(publishes: bool, s: State, steps: seq<Step>, node: NodeId, t: Thread, u: Thread)
    requires Init(s) && Run(publishes, s, steps).Some?
    requires var nodes := Run(publishes, s, steps).value.nodes; node in nodes && t in nodes[node].threads && u in nodes[node].threads
    requires var n := Run(publishes, s, steps).value.nodes[node];
      n.threads[t].Checking? && n.threads[t].stage.InScript? && n.threads[u].Checking? && n.threads[u].stage.InScript?
    ensures t == u
  {
    RunKeepsInv(publishes, s, steps);
    assert NodeInv(Run(publishes, s, steps).value.nodes[node]);
  }

  /** Every stored entry sits under its own node and tells the verdict of some health script run of that node. */
  lemma EntriesTellRuns(publishes: bool, s: State, steps: seq<Step>, node: NodeId)
    requires Init(s) && Run(publishes, s, steps).Some? && node in Run(publishes, s, steps).value.table
    ensures EntryInv(Run(publishes, s, steps).value, node)
  {
    RunKeepsInv(publishes, s, steps);
  }

  lemma {:induction false} RunConcat(publishes: bool, s: State, a: seq<Step>, b: seq<Step>)
    requires Run(publishes, s, a).Some?
    ensures Run(publishes, s, a + b) == Run(publishes, Run(publishes, s, a).value, b)
  {
    hide Apply;
    if b == [] {
      assert a + b == a;
    } else {
      assert (a + b)[..|a + b| - 1] == a + b[..|b| - 1];
      RunConcat(publishes, s, a, b[..|b| - 1]);
    }
  }

  // ----- The threads of this system are those of the node protocol -----

  function ActivityAt(pc: Pc): Activity {
    match pc
    case HealthAt(run, stage) => Checking(run.Phase(), stage)
    case _ => Quiet
  }

  predicate OfHealth(e: Event) {
    e.MutexTaken? || e.ScriptRan? || e.MutexReleased? || e.Reported?
  }

  /** Seen by its health runs alone, a step of the protocol is a step of a thread here, the beginning of a run, or nothing. */
  ghost predicate Seen(c: NodeConfig, pc: Pc, pc': Pc, e: Event) {
    if OfHealth(e) then NextActivity(c.PublishesHealth(), ActivityAt(pc), e) == Some(ActivityAt(pc'))
    else ActivityAt(pc) == Quiet && (ActivityAt(pc') == Quiet || (pc'.HealthAt? && pc'.stage.WaitingMutex?))
  }

  /** The places of each thread. */
  predicate Belongs(t: Thread, pc: Pc) {
    if t.HeartbeatThread? then pc.HeartbeatIdle? || pc.HeartbeatSleeping? || pc.Stopped? || (pc.HealthAt? && pc.run.HeartbeatRun?)
    else !pc.HeartbeatIdle? && !pc.HeartbeatSleeping? && (pc.HealthAt? ==> !pc.run.HeartbeatRun?)
  }

  /** A step stays in its thread, and is seen there. */
  ghost predicate SeenInThread(c: NodeConfig, pc: Pc, pc': Pc, e: Event) {
    Seen(c, pc, pc', e) && forall t | Belongs(t, pc) :: Belongs(t, pc')
  }

  lemma SeenBeforeLock(c: NodeConfig, pc: Pc, e: Event)
    ensures NextBeforeLock(c, pc, e).Some? ==> SeenInThread(c, pc, NextBeforeLock(c, pc, e).value, e)
  {
    hide Allows, WindowEvaluator.Decide;
  }

  lemma SeenAcquiring(c: NodeConfig, pc: Pc, e: Event)
    ensures NextAcquiring(c, pc, e).Some? ==> SeenInThread(c, pc, NextAcquiring(c, pc, e).value, e)
  {
    hide NodeConfig.LockBackoffCeiling, NodeConfig.LockBackoffMin;
  }

  lemma SeenUnderLock(c: NodeConfig, pc: Pc, e: Event)
    ensures NextUnderLock(c, pc, e).Some? ==> SeenInThread(c, pc, NextUnderLock(c, pc, e).value, e)
  {
    hide Allows;
  }

  lemma SeenInLoop(c: NodeConfig, pc: Pc, e: Event)
    ensures NextInLoop(c, pc, e).Some? ==> SeenInThread(c, pc, NextInLoop(c, pc, e).value, e)
  {
  }

  lemma SeenHeartbeat(c: NodeConfig, pc: Pc, e: Event)
    ensures NextHeartbeat(c, pc, e).Some? ==> SeenInThread(c, pc, NextHeartbeat(c, pc, e).value, e)
  {
  }

  lemma SeenHealth(c: NodeConfig, pc: Pc, e: Event)
    requires pc.HealthAt?
    ensures NextHealth(c, pc.run, pc.stage, e).Some? ==> SeenInThread(c, pc, NextHealth(c, pc.run, pc.stage, e).value, e)
  {
  }

  /** Every step of a node, in the reboot loop or the heartbeat loop, is such a step of its thread. */
  lemma SeenStep(c: NodeConfig, pc: Pc, e: Event)
    requires Next(c, pc, e).Some?
    ensures Seen(c, pc, Next(c, pc, e).value, e)
    ensures forall t | Belongs(t, pc) :: Belongs(t, Next(c, pc, e).value)
  {
    hide Next, NextHealth, NextBeforeLock, NextAcquiring, NextUnderLock, NextHeartbeat, NextInLoop, Seen, Belongs;
    NextCases(c, pc, e);
    SeenBeforeLock(c, pc, e);
    SeenAcquiring(c, pc, e);
    SeenUnderLock(c, pc, e);
    SeenInLoop(c, pc, e);
    SeenHeartbeat(c, pc, e);
    if pc.HealthAt? {
      SeenHealth(c, pc, e);
    }
  }

  // ----- The wait after each round -----

  /** Where a thread begins. */
  function Outset(t: Thread): Pc {
    if t.LoopThread? then Idle else HeartbeatIdle
  }

  lemma {:induction false} StaysInThread(c: NodeConfig, t: Thread, trace: seq<Event>)
    requires After(c, Outset(t), trace).Some?
    ensures Belongs(t, After(c, Outset(t), trace).value)
  {
    hide Next, Seen;
    if trace != [] {
      var n := |trace| - 1;
      StaysInThread(c, t, trace[..n]);
      SeenStep(c, After(c, Outset(t), trace[..n]).value, trace[n]);
    }
  }

  lemma WaitsWhere(c: NodeConfig, pc: Pc, e: Event)
    requires Next(c, pc, e).Some? && e.Slept?
    ensures (pc.Handled? && e.delay == c.RoundInterval()) || (pc.HeartbeatSleeping? && e.delay == c.publishInterval)
  {
    hide Allows, WindowEvaluator.Decide, NodeConfig.LockBackoffCeiling, NodeConfig.LockBackoffMin, NodeConfig.CooldownSeconds;
    hide NodeConfig.RoundInterval;
  }

  /** After every round, the loop waits its check interval and the heartbeat its publish interval. */
  lemma RoundsAreWaited(c: NodeConfig, t: Thread, trace: seq<Event>, i: nat)
    requires After(c, Outset(t), trace).Some? && i < |trace| && trace[i].Slept?
    ensures trace[i].delay == if t.LoopThread? then c.RoundInterval() else c.publishInterval
  {
    hide Next, NodeConfig.RoundInterval;
    PrefixRuns(c, Outset(t), trace, i + 1);
    assert trace[..i + 1][..i] == trace[..i];
    StaysInThread(c, t, trace[..i]);
    WaitsWhere(c, After(c, Outset(t), trace[..i]).value, trace[i]);
  }

  // ----- Two threads of one node -----

  /** One thread's next event, or a crash of the node, after which both threads begin anew. */
  datatype Move = Move(thread: Thread, event: Event) | Crashes

  /** Where the two threads of a node are, and which of them has the mutex. */
  datatype Duo = Duo(loop: Pc, beat: Pc, mutex: Option<Thread>) {
    function At(t: Thread): Pc {
      if t.LoopThread? then loop else beat
    }
  }

  function Anew(): Duo {
    Duo(Idle, HeartbeatIdle, None)
  }

  /** Either thread goes on as the protocol says, but takes the mutex only when it is free. */
  ghost function NextDuo(c: NodeConfig, d: Duo, m: Move): Option<Duo> {
    if m.Crashes? then Some(Anew())
    else if m.event.MutexTaken? && d.mutex.Some? then None
    else
      match Next(c, d.At(m.thread), m.event)
      case None => None
      case Some(pc) => Some(
        Duo(if m.thread.LoopThread? then pc else d.loop, if m.thread.LoopThread? then d.beat else pc,
            if m.event.MutexTaken? then Some(m.thread) else if m.event.MutexReleased? then None else d.mutex))
  }

  ghost function Interleaved(c: NodeConfig, moves: seq<Move>): Option<Duo> {
    if moves == [] then Some(Anew())
    else
      match Interleaved(c, moves[..|moves| - 1])
      case None => None
      case Some(d) => NextDuo(c, d, moves[|moves| - 1])
  }

  /** The events of a thread since the node last began. */
  function EventsOf(moves: seq<Move>, t: Thread): seq<Event> {
    if moves == [] || moves[|moves| - 1].Crashes? then []
    else EventsOf(moves[..|moves| - 1], t) + if moves[|moves| - 1].thread == t then [moves[|moves| - 1].event] else []
  }

  /** What each thread does in an interleaving, from one crash to the next, is a trace of the protocol. */
  lemma {:induction false} EachIsTrace(c: NodeConfig, moves: seq<Move>, t: Thread)
    requires Interleaved(c, moves).Some?
    ensures After(c, if t.LoopThread? then Idle else HeartbeatIdle, EventsOf(moves, t)) == Some(Interleaved(c, moves).value.At(t))
  {
    hide Next;
    if moves != [] && moves[|moves| - 1].Move? {
      var n := |moves| - 1;
      EachIsTrace(c, moves[..n], t);
      var events := EventsOf(moves[..n], t);
      if moves[n].thread == t {
        assert (events + [moves[n].event])[..|events|] == events;
        assert EventsOf(moves, t) == events + [moves[n].event];
      } else {
        assert EventsOf(moves, t) == events;
      }
    }
  }

  function Alone(node: NodeId): State {
    State(map[node := Fresh()], map[])
  }

  /** What a state of this system shows of two threads. */
  ghost predicate Shows(s: State, node: NodeId, d: Duo) {
    && s.nodes.Keys == {node}
    && s.nodes[node].mutex == d.mutex
    && s.nodes[node].threads == map[LoopThread := ActivityAt(d.loop), HeartbeatThread := ActivityAt(d.beat)]
  }

  lemma ShownPhase(t: Thread, pc: Pc)
    requires Belongs(t, pc) && ActivityAt(pc).Checking?
    ensures MayBegin(t, ActivityAt(pc).phase)
  {
  }

  lemma OnlyStep(publishes: bool, s: State, node: NodeId, step: Step, n: NodeHealth)
    requires s.nodes.Keys == {node} && step.node == node && NextNode(publishes, s.nodes[node], step) == Some(n)
    ensures Run(publishes, s, [step]) == Some(State(map[node := n], NextTable(s.table, step)))
  {
    hide NextNode, NextTable;
    assert [step][..0] == [];
    assert s.nodes[node := n] == map[node := n];
  }

  lemma TwoThreads<V>(loop: V, beat: V, t: Thread, v: V)
    ensures var threads := map[LoopThread := loop, HeartbeatThread := beat];
      threads[t := v] == map[LoopThread := if t.LoopThread? then v else loop, HeartbeatThread := if t.LoopThread? then beat else v]
      && threads[t] == if t.LoopThread? then loop else beat
  {
  }

  /** One move is one step of this system or none. */
  lemma MoveShows(c: NodeConfig, s: State, node: NodeId, d: Duo, m: Move) returns (steps: seq<Step>, end: State)
    requires Shows(s, node, d) && m.Move? && NextDuo(c, d, m).Some? && Belongs(m.thread, d.At(m.thread))
    ensures Run(c.PublishesHealth(), s, steps) == Some(end) && Shows(end, node, NextDuo(c, d, m).value)
  {
    SeenStep(c, d.At(m.thread), m.event);
    var d', publishes := NextDuo(c, d, m).value, c.PublishesHealth();
    var before, after := ActivityAt(d.At(m.thread)), ActivityAt(d'.At(m.thread));
    if after.Checking? {
      ShownPhase(m.thread, d'.At(m.thread));
    }
    TwoThreads(ActivityAt(d.loop), ActivityAt(d.beat), m.thread, after);
    var n := s.nodes[node];
    hide Next, ActivityAt, Belongs, MayBegin, NextActivity;
    if OfHealth(m.event) {
      var step := ThreadStep(node, m.thread, m.event, false);
      var runs := if m.event.ScriptRan? then n.runs + [ScriptRun(m.event.phase, m.event.script)] else n.runs;
      var n' := NodeHealth(d'.mutex, n.threads[m.thread := after], runs);
      OnlyStep(publishes, s, node, step, n');
      steps, end := [step], State(map[node := n'], NextTable(s.table, step));
    } else if after.Checking? {
      var step := Begin(node, m.thread, after.phase);
      var n' := n.(threads := n.threads[m.thread := after]);
      OnlyStep(publishes, s, node, step, n');
      steps, end := [step], State(map[node := n'], NextTable(s.table, step));
    } else {
      steps, end := [], s;
    }
  }

  /** A crash of the node is one of this system. */
  lemma CrashShows(publishes: bool, s: State, node: NodeId, d: Duo) returns (end: State)
    requires Shows(s, node, d)
    ensures Run(publishes, s, [Crash(node)]) == Some(end) && Shows(end, node, Anew())
  {
    var n := s.nodes[node];
    var n' := NodeHealth(None, map[LoopThread := Quiet, HeartbeatThread := Quiet], n.runs);
    assert (map t | t in n.threads :: Quiet) == n'.threads;
    OnlyStep(publishes, s, node, Crash(node), n');
    end := State(map[node := n'], s.table);
  }

  /**
   The two threads of a node, each on its own a trace of the protocol from one crash to the next and neither taking the mutex from
   the other, are a run of this system, however they are interleaved.
   */
  lemma {:induction false} InterleavingIsRun(c: NodeConfig, moves: seq<Move>, node: NodeId) returns (steps: seq<Step>, end: State)
    requires Interleaved(c, moves).Some?
    ensures Run(c.PublishesHealth(), Alone(node), steps) == Some(end) && Shows(end, node, Interleaved(c, moves).value)
  {
    if moves == [] {
      steps, end := [], Alone(node);
    } else {
      var n := |moves| - 1;
      var first, mid := InterleavingIsRun(c, moves[..n], node);
      InThreads(c, moves[..n]);
      hide NextDuo, Shows, Belongs, Apply;
      var more;
      if moves[n].Crashes? {
        more := [Crash(node)];
        end := CrashShows(c.PublishesHealth(), mid, node, Interleaved(c, moves[..n]).value);
        CrashAnew(c, Interleaved(c, moves[..n]).value);
      } else {
        more, end := MoveShows(c, mid, node, Interleaved(c, moves[..n]).value, moves[n]);
      }
      RunConcat(c.PublishesHealth(), Alone(node), first, more);
      steps := first + more;
    }
  }

  lemma CrashAnew(c: NodeConfig, d: Duo)
    ensures NextDuo(c, d, Crashes) == Some(Anew())
  {
  }

  lemma {:induction false} InThreads(c: NodeConfig, moves: seq<Move>)
    requires Interleaved(c, moves).Some?
    ensures forall t :: Belongs(t, Interleaved(c, moves).value.At(t))
  {
    if moves != [] {
      var n := |moves| - 1;
      InThreads(c, moves[..n]);
      var d, m := Interleaved(c, moves[..n]).value, moves[n];
      if m.Move? {
        SeenStep(c, d.At(m.thread), m.event);
        hide Next, Belongs;
        forall t
          ensures Belongs(t, Interleaved(c, moves).value.At(t))
        {
          assert t != m.thread ==> Interleaved(c, moves).value.At(t) == d.At(t);
        }
      }
    }
  }
}
