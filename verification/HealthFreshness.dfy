/** When the stored record tells the newest health script run of its node, and how it comes not to. */
module HealthFreshness {
  import opened Wrappers
  import opened Protocol
  import opened HealthThreads

  // ----- While reports are not overtaken -----

  predicate IsReporting(a: Activity) {
    a.Checking? && a.stage.Reporting?
  }

  /** Nothing of this node gets in the way of a report: no script begins beside one, none fails, and every report is written. */
  ghost predicate OrderlyStep(s: State, step: Step, node: NodeId) {
    step.node == node && node in s.nodes ==>
      && !step.Crash?
      && (step.ThreadStep? ==>
        && (step.event.MutexTaken? ==> forall t | t in s.nodes[node].threads :: !IsReporting(s.nodes[node].threads[t]))
        && (step.event.ScriptRan? ==> step.event.script.Exit?)
        && (step.event.Reported? ==> step.event.write.Written?))
  }

  ghost predicate Orderly(s: State, steps: seq<Step>, node: NodeId) {
    forall i | 0 <= i < |steps| && Run(true, s, steps[..i]).Some? :: OrderlyStep(Run(true, s, steps[..i]).value, steps[i], node)
  }

  /** From entering the script to having reported on it. */
  predicate Busy(a: Activity) {
    a.Checking? && !a.stage.WaitingMutex?
  }

  /** What a thread has in hand, the newest run has said. */
  predicate InHand(a: Activity, runs: seq<ScriptRun>) {
    match a
    case Checking(phase, InMutex(script)) => script.Exit? && runs != [] && runs[|runs| - 1] == ScriptRun(phase, script)
    case Checking(phase, Reporting(code)) => runs != [] && runs[|runs| - 1] == ScriptRun(phase, Exit(code))
    case _ => true
  }

  predicate Pending(a: Activity) {
    a.Checking? && (a.stage.InMutex? || a.stage.Reporting?)
  }

  /** The record tells the newest run, if there was one. */
  predicate Tells(table: map<NodeId, Entry>, node: NodeId, runs: seq<ScriptRun>) {
    runs != [] ==>
      var last := runs[|runs| - 1];
      last.script.Exit? && node in table && table[node] == EntryFor(node, last.phase, last.script.code)
  }

  ghost predicate FreshNode(n: NodeHealth, table: map<NodeId, Entry>, node: NodeId) {
    && (forall t, u | t in n.threads && u in n.threads && Busy(n.threads[t]) && Busy(n.threads[u]) :: t == u)
    && (forall t | t in n.threads :: InHand(n.threads[t], n.runs))
    && ((forall t | t in n.threads :: !Pending(n.threads[t])) ==> Tells(table, node, n.runs))
  }

  lemma OwnStepFresh(s: State, step: Step, node: NodeId)
    requires node in s.nodes && step.node == node && NodeInv(s.nodes[node]) && FreshNode(s.nodes[node], s.table, node)
    requires NextNode(true, s.nodes[node], step).Some? && OrderlyStep(s, step, node)
    ensures FreshNode(NextNode(true, s.nodes[node], step).value, NextTable(s.table, step), node)
  {
    var n, n' := s.nodes[node], NextNode(true, s.nodes[node], step).value;
    BusyIsSingle(n, n', step);
    OnlyOneMoves(n, n', step);
    MoveInHand(n, n', step);
    MoveTells(n, n', step, s.table);
    hide NextNode, NextTable, Busy, InHand, Pending, Tells, NodeInv;
  }

  lemma OnlyOneMoves(n: NodeHealth, n': NodeHealth, step: Step)
    requires NextNode(true, n, step) == Some(n') && !step.Crash?
    ensures step.thread in n.threads && n'.threads == n.threads[step.thread := n'.threads[step.thread]]
  {
  }

  lemma MoveInHand(n: NodeHealth, n': NodeHealth, step: Step)
    requires NextNode(true, n, step) == Some(n') && !step.Crash?
    requires step.ThreadStep? && step.event.ScriptRan? ==> step.event.script.Exit?
    requires forall t, u | t in n.threads && u in n.threads && Busy(n.threads[t]) && Busy(n.threads[u]) :: t == u
    requires forall t | t in n.threads :: InHand(n.threads[t], n.runs)
    ensures forall t | t in n'.threads :: InHand(n'.threads[t], n'.runs)
  {
    OnlyOneMoves(n, n', step);
    if step.ThreadStep? && step.event.ScriptRan? {
      assert Busy(n.threads[step.thread]);
      assert forall t | t in n.threads && t != step.thread :: !Busy(n.threads[t]);
    }
  }

  lemma MoveTells(n: NodeHealth, n': NodeHealth, step: Step, table: map<NodeId, Entry>)
    requires NextNode(true, n, step) == Some(n') && !step.Crash?
    requires step.ThreadStep? && step.event.Reported? ==> step.event.write.Written?
    requires forall t | t in n.threads :: InHand(n.threads[t], n.runs)
    requires (forall t | t in n.threads :: !Pending(n.threads[t])) ==> Tells(table, step.node, n.runs)
    ensures (forall t | t in n'.threads :: !Pending(n'.threads[t])) ==> Tells(NextTable(table, step), step.node, n'.runs)
  {
    OnlyOneMoves(n, n', step);
    var t := step.thread;
    if step.ThreadStep? && (step.event.ScriptRan? || step.event.MutexReleased?) {
      assert InHand(n.threads[t], n.runs) && Pending(n'.threads[t]);
    } else if step.ThreadStep? && step.event.Reported? {
      assert InHand(n.threads[t], n.runs);
    } else {
      assert !Pending(n.threads[t]);
      if forall u | u in n'.threads :: !Pending(n'.threads[u]) {
        assert forall u | u in n.threads && u != t :: n.threads[u] == n'.threads[u];
      }
    }
  }

  lemma BusyIsSingle(n: NodeHealth, n': NodeHealth, step: Step)
    requires NodeInv(n) && NextNode(true, n, step) == Some(n') && !step.Crash?
    requires step.ThreadStep? && step.event.MutexTaken? ==> forall t | t in n.threads :: !IsReporting(n.threads[t])
    requires forall t, u | t in n.threads && u in n.threads && Busy(n.threads[t]) && Busy(n.threads[u]) :: t == u
    ensures forall t, u | t in n'.threads && u in n'.threads && Busy(n'.threads[t]) && Busy(n'.threads[u]) :: t == u
  {
    var t := step.thread;
    assert Busy(n.threads[t]) || step.Begin? || step.event.MutexTaken?;
    if step.ThreadStep? && step.event.MutexTaken? {
      assert forall u | u in n.threads && u != t :: !Busy(n.threads[u]) by {
        assert forall u | u in n.threads :: InsideMutex(n.threads[u]) ==> n.mutex == Some(u);
      }
    }
  }

  lemma {:induction false} RunFresh(s: State, steps: seq<Step>, node: NodeId)
    requires Init(s) && Run(true, s, steps).Some? && Orderly(s, steps, node) && node in Run(true, s, steps).value.nodes
    ensures var end := Run(true, s, steps).value; FreshNode(end.nodes[node], end.table, node)
  {
    if steps != [] {
      var n := |steps| - 1;
      var before := Run(true, s, steps[..n]).value;
      assert Orderly(s, steps[..n], node) by {
        assert forall i | 0 <= i < n :: steps[..n][..i] == steps[..i];
      }
      hide NextNode, NextTable, OrderlyStep, FreshNode;
      RunFresh(s, steps[..n], node);
      RunKeepsInv(true, s, steps[..n]);
      if steps[n].node == node {
        OwnStepFresh(before, steps[n], node);
      } else {
        OtherStepFresh(before, steps[n], node);
      }
    }
  }

  lemma OtherStepFresh(s: State, step: Step, node: NodeId)
    requires node in s.nodes && step.node != node && FreshNode(s.nodes[node], s.table, node)
    ensures FreshNode(s.nodes[node], NextTable(s.table, step), node)
  {
  }

  predicate QuietNode(n: NodeHealth) {
    forall t | t in n.threads :: n.threads[t] == Quiet
  }

  /**
   As long as no script of a node begins while a report of it is under way, none fails, every report is written and the node
   does not crash, its record tells the newest run whenever both its threads are quiet.
   */
  lemma QuietRecordIsNewest(s: State, steps: seq<Step>, node: NodeId)
    requires Init(s) && Run(true, s, steps).Some? && Orderly(s, steps, node) && node in Run(true, s, steps).value.nodes
    requires QuietNode(Run(true, s, steps).value.nodes[node])
    ensures var end := Run(true, s, steps).value; Tells(end.table, node, end.nodes[node].runs)
  {
    RunFresh(s, steps, node);
  }

  // ----- When a report is overtaken -----

  lemma OneMore(s: State, steps: seq<Step>, mid: State, step: Step, n: NodeHealth)
    requires Run(true, s, steps) == Some(mid) && step.node in mid.nodes && NextNode(true, mid.nodes[step.node], step) == Some(n)
    ensures Run(true, s, steps + [step]) == Some(State(mid.nodes[step.node := n], NextTable(mid.table, step)))
  {
    hide NextNode, NextTable;
    assert (steps + [step])[..|steps|] == steps;
  }

  function Other(t: Thread): Thread {
    if t.LoopThread? then HeartbeatThread else LoopThread
  }

  function PhaseOf(t: Thread): Phase {
    if t.LoopThread? then PreLock else HeartbeatPhase
  }

  /** The other thread gets to wait for the mutex. */
  lemma GetsToWait(s: State, node: NodeId, u: Thread) returns (steps: seq<Step>, mid: State, phase: Phase)
    requires Inv(s) && node in s.nodes && s.nodes[node].mutex == None
    ensures Run(true, s, steps) == Some(mid) && node in mid.nodes && mid.nodes[node].mutex == None
    ensures mid.nodes[node].threads == s.nodes[node].threads[u := Checking(phase, WaitingMutex)]
  {
    assert NodeInv(s.nodes[node]);
    var n := s.nodes[node];
    assert !InsideMutex(n.threads[u]);
    assert s.nodes[node := n] == s.nodes;
    assert Run(true, s, []) == Some(s);
    hide Run, Inv, NodeInv, EntryInv;
    match n.threads[u]
    case Quiet =>
      phase := PhaseOf(u);
      steps, mid := Begins(s, [], s, node, u);
    case Checking(p, WaitingMutex) =>
      steps, mid, phase := [], s, p;
      assert n.threads[u := n.threads[u]] == n.threads;
    case Checking(p, Reporting(code)) =>
      phase := PhaseOf(u);
      steps, mid := ReportsThenBegins(s, node, u, p, code);
  }

  lemma ReportsThenBegins(s: State, node: NodeId, u: Thread, phase: Phase, code: int) returns (steps: seq<Step>, mid: State)
    requires node in s.nodes && u in s.nodes[node].threads && s.nodes[node].threads[u] == Checking(phase, Reporting(code))
    requires s.nodes[node].mutex == None && Run(true, s, []) == Some(s)
    ensures Run(true, s, steps) == Some(mid) && node in mid.nodes && mid.nodes[node].mutex == None
    ensures mid.nodes[node].threads == s.nodes[node].threads[u := Checking(PhaseOf(u), WaitingMutex)]
  {
    hide Run, PhaseOf;
    var first, reported := Reports(s, [], s, node, u, phase, code);
    steps, mid := Begins(s, first, reported, node, u);
    var waiting := Checking(PhaseOf(u), WaitingMutex);
    assert s.nodes[node].threads[u := Quiet][u := waiting] == s.nodes[node].threads[u := waiting];
  }

  lemma Begins(s: State, steps: seq<Step>, mid: State, node: NodeId, u: Thread) returns (more: seq<Step>, end: State)
    requires Run(true, s, steps) == Some(mid) && node in mid.nodes && u in mid.nodes[node].threads
    requires mid.nodes[node].threads[u] == Quiet
    ensures Run(true, s, more) == Some(end) && node in end.nodes && end.nodes[node].mutex == mid.nodes[node].mutex
    ensures end.nodes[node].threads == mid.nodes[node].threads[u := Checking(PhaseOf(u), WaitingMutex)]
  {
    var n := mid.nodes[node];
    var n' := n.(threads := n.threads[u := Checking(PhaseOf(u), WaitingMutex)]);
    var step := Begin(node, u, PhaseOf(u));
    more, end := steps + [step], State(mid.nodes[node := n'], mid.table);
    OneMore(s, steps, mid, step, n');
  }

  lemma Reports(s: State, steps: seq<Step>, mid: State, node: NodeId, u: Thread, phase: Phase, code: int)
    returns (more: seq<Step>, end: State)
    requires Run(true, s, steps) == Some(mid) && node in mid.nodes && u in mid.nodes[node].threads
    requires mid.nodes[node].threads[u] == Checking(phase, Reporting(code))
    ensures Run(true, s, more) == Some(end)
    ensures end.nodes == mid.nodes[node := mid.nodes[node].(threads := mid.nodes[node].threads[u := Quiet])]
    ensures node in end.table && end.table[node] == EntryFor(node, phase, code)
  {
    var n := mid.nodes[node];
    var n' := n.(threads := n.threads[u := Quiet]);
    var step := ThreadStep(node, u, Reported(phase, code, Written), false);
    more, end := steps + [step], State(mid.nodes[node := n'], mid.table[node := EntryFor(node, phase, code)]);
    NodeReports(n, n', step);
    OneMore(s, steps, mid, step, n');
  }

  lemma NodeReports(n: NodeHealth, n': NodeHealth, step: Step)
    requires step.ThreadStep? && step.event.Reported? && step.thread in n.threads
    requires n.threads[step.thread] == Checking(step.event.phase, Reporting(step.event.code))
    requires n' == n.(threads := n.threads[step.thread := Quiet])
    ensures NextNode(true, n, step) == Some(n')
  {
  }

  /** A waiting thread, with the mutex free, runs the script up to its report. */
  lemma RunsScript(s: State, steps: seq<Step>, mid: State, node: NodeId, u: Thread, phase: Phase, code: int)
    returns (more: seq<Step>, end: State)
    requires Run(true, s, steps) == Some(mid) && node in mid.nodes && mid.nodes[node].mutex == None && u in mid.nodes[node].threads
    requires mid.nodes[node].threads[u] == Checking(phase, WaitingMutex)
    ensures Run(true, s, more) == Some(end) && node in end.nodes
    ensures end.nodes[node] == NodeHealth(None, mid.nodes[node].threads[u := Checking(phase, Reporting(code))],
                                          mid.nodes[node].runs + [ScriptRun(phase, Exit(code))])
  {
    var n, a, b, c := mid.nodes[node], ThreadStep(node, u, MutexTaken, false),
                      ThreadStep(node, u, ScriptRan(phase, false, 0, Exit(code)), false), ThreadStep(node, u, MutexReleased, false);
    var n1, n2, n3 := ScriptStages(n, node, u, phase, code);
    hide NextNode;
    OneMore(s, steps, mid, a, n1);
    var s1 := State(mid.nodes[node := n1], mid.table);
    OneMore(s, steps + [a], s1, b, n2);
    var s2 := State(s1.nodes[node := n2], mid.table);
    OneMore(s, steps + [a] + [b], s2, c, n3);
    more, end := steps + [a] + [b] + [c], State(s2.nodes[node := n3], mid.table);
  }

  lemma ScriptStages(n: NodeHealth, node: NodeId, u: Thread, phase: Phase, code: int)
    returns (n1: NodeHealth, n2: NodeHealth, n3: NodeHealth)
    requires n.mutex == None && u in n.threads && n.threads[u] == Checking(phase, WaitingMutex)
    ensures NextNode(true, n, ThreadStep(node, u, MutexTaken, false)) == Some(n1)
    ensures NextNode(true, n1, ThreadStep(node, u, ScriptRan(phase, false, 0, Exit(code)), false)) == Some(n2)
    ensures NextNode(true, n2, ThreadStep(node, u, MutexReleased, false)) == Some(n3)
    ensures n3 == NodeHealth(None, n.threads[u := Checking(phase, Reporting(code))], n.runs + [ScriptRun(phase, Exit(code))])
  {
    n1 := NodeHealth(Some(u), n.threads[u := Checking(phase, InScript)], n.runs);
    n2 := NodeHealth(Some(u), n1.threads[u := Checking(phase, InMutex(Exit(code)))], n.runs + [ScriptRun(phase, Exit(code))]);
    n3 := NodeHealth(None, n2.threads[u := Checking(phase, Reporting(code))], n2.runs);
    assert n1.threads[u := Checking(phase, InMutex(Exit(code)))][u := Checking(phase, Reporting(code))]
        == n.threads[u := Checking(phase, Reporting(code))];
  }

  /**
   Once a thread is about to report and the mutex is free, its report can be overtaken: some way on from there ends with both
   threads quiet and a record that does not tell the newest run.
   */
  lemma ReportCanBeOvertaken(s: State, node: NodeId, t: Thread) returns (steps: seq<Step>, end: State)
    requires Inv(s) && node in s.nodes && t in s.nodes[node].threads
    requires IsReporting(s.nodes[node].threads[t]) && s.nodes[node].mutex == None
    ensures Run(true, s, steps) == Some(end) && node in end.nodes && QuietNode(end.nodes[node])
    ensures !Tells(end.table, node, end.nodes[node].runs)
  {
    assert NodeInv(s.nodes[node]);
    hide Run, Inv, NodeInv, EntryInv, Tells, QuietNode, EntryFor;
    var u, a := Other(t), s.nodes[node].threads[t];
    var code := if a.stage.code == 0 then 1 else 0;
    var waiting, mid, phase := GetsToWait(s, node, u);
    var ran, afterScript := RunsScript(s, waiting, mid, node, u, phase, code);
    var told, afterOther := Reports(s, ran, afterScript, node, u, phase, code);
    steps, end := Reports(s, told, afterOther, node, t, a.phase, a.stage.code);
    BothQuiet(mid.nodes[node].threads, end.nodes[node], t, u, phase, code);
    OlderTold(end.table, node, end.nodes[node].runs, ScriptRun(phase, Exit(code)), a.phase, a.stage.code);
  }

  lemma BothQuiet(threads: map<Thread, Activity>, n: NodeHealth, t: Thread, u: Thread, phase: Phase, code: int)
    requires threads.Keys <= {t, u}
    requires n.threads == threads[u := Checking(phase, Reporting(code))][u := Quiet][t := Quiet]
    ensures QuietNode(n)
  {
  }

  lemma OlderTold(table: map<NodeId, Entry>, node: NodeId, runs: seq<ScriptRun>, newest: ScriptRun, phase: Phase, code: int)
    requires runs != [] && runs[|runs| - 1] == newest && newest.script.Exit? && (newest.script.code == 0 <==> code != 0)
    requires node in table && table[node] == EntryFor(node, phase, code)
    ensures !Tells(table, node, runs)
  {
  }

  /** A run from the beginning after which both threads are quiet and the record does not tell the newest run of the script. */
  lemma EntryCanBeStale(node: NodeId) returns (s: State, steps: seq<Step>, end: State)
    ensures Init(s) && Run(true, s, steps) == Some(end) && node in end.nodes && QuietNode(end.nodes[node])
    ensures !Tells(end.table, node, end.nodes[node].runs)
  {
    s := Alone(node);
    var first, begun := Begins(s, [], s, node, LoopThread);
    var ran, reporting := RunsScript(s, first, begun, node, LoopThread, PreLock, 0);
    RunKeepsInv(true, s, ran);
    hide Run, Inv, Init, Tells, QuietNode;
    var more;
    more, end := ReportCanBeOvertaken(reporting, node, LoopThread);
    RunConcat(true, s, ran, more);
    steps := ran + more;
  }
}
