/**
 Runs of any cluster that has nodes able to reboot: what the guarantees cannot do without. Each holds of every such
 cluster, whatever its nodes are named, whatever windows and policies they have.
 */
module ClusterRuns {
  import opened Wrappers
  import opened Backoff
  import opened ClusterPolicy
  import opened WindowLanguage
  import opened Protocol
  import opened NodeSafety
  import opened Cluster
  import opened CooldownSpacing
  import opened Ability
  import opened RebootPath

  /** A run: where it starts, its steps, and where it ends. */
  datatype Trip = Trip(start: State, steps: seq<Step>, end: State)

  /** The run is possible from an initial state, and, if harmless, no live session expires in it. */
  ghost predicate Possible(cs: Configs, t: Trip, harmless: bool) {
    && Init(cs, t.start) && Run(cs, t.start, t.steps) == Some(t.end)
    && (harmless ==> NoLiveExpiry(cs, t.start, t.steps))
  }

  predicate At(s: State, n: NodeId, pc: Pc) {
    n in s.nodes && s.nodes[n].Up? && s.nodes[n].pc == pc
  }

  /** Only node n has moved, and the store is now this one. */
  predicate Moved(before: State, after: State, n: NodeId, pc: Pc, store: Store) {
    At(after, n, pc) && after == State(before.nodes[n := after.nodes[n]], store)
  }

  /** Every node is up and about to begin. */
  function Origin(cs: Configs, now: int): State {
    State(map n | n in cs :: Up(Idle, []), Store(None, 0, None, map[], 0, now))
  }

  function Steps(n: NodeId, events: seq<Event>): seq<Step> {
    seq(|events|, i requires 0 <= i < |events| => NodeStep(n, events[i], false))
  }

  /** The run goes on, without a write of the cooldown key that is not told. */
  ghost predicate GoesOn(t: Trip, u: Trip) {
    u.start == t.start && t.steps <= u.steps && forall i | |t.steps| <= i < |u.steps| :: !UntoldWrite(u.steps[i])
  }

  predicate Smooth(e: Event) {
    !e.CooldownRead? && !(e.ExecEnded? && !e.ok)
  }

  /** As it goes on, nobody reads the cooldown key, no command fails, and no node restarts. */
  ghost predicate GoesSmoothly(t: Trip, u: Trip) {
    forall i | |t.steps| <= i < |u.steps| :: !u.steps[i].Restart? && (u.steps[i].NodeStep? ==> Smooth(u.steps[i].event))
  }

  // ----- Taking steps -----

  lemma NothingHappened(cs: Configs, now: int) returns (t: Trip)
    ensures Possible(cs, t, true) && t == Trip(Origin(cs, now), [], Origin(cs, now))
  {
    t := Trip(Origin(cs, now), [], Origin(cs, now));
  }

  lemma RunTakes(cs: Configs, s: State, steps: seq<Step>, end: State, step: Step)
    requires Run(cs, s, steps) == Some(end)
    ensures Run(cs, s, steps + [step]) == Apply(cs, end, step)
  {
    hide Apply;
    assert (steps + [step])[..|steps|] == steps;
  }

  lemma StaysHarmless(cs: Configs, s: State, steps: seq<Step>, end: State, step: Step)
    requires Run(cs, s, steps) == Some(end) && NoLiveExpiry(cs, s, steps) && !LiveExpiry(end, step)
    ensures NoLiveExpiry(cs, s, steps + [step])
  {
    hide Run, LiveExpiry;
    var more := steps + [step];
    forall i | 0 <= i < |more| && Run(cs, s, more[..i]).Some?
      ensures !LiveExpiry(Run(cs, s, more[..i]).value, more[i])
    {
      if i < |steps| {
        assert more[..i] == steps[..i];
      } else {
        assert more[..i] == steps;
      }
    }
  }

  /** One more step of a run. */
  lemma Take(cs: Configs, t: Trip, step: Step, harmless: bool) returns (u: Trip)
    requires Possible(cs, t, harmless) && Apply(cs, t.end, step).Some?
    requires harmless ==> !LiveExpiry(t.end, step)
    ensures u == Trip(t.start, t.steps + [step], Apply(cs, t.end, step).value) && Possible(cs, u, harmless)
  {
    hide Apply, Init, LiveExpiry, NoLiveExpiry, Run;
    u := Trip(t.start, t.steps + [step], Apply(cs, t.end, step).value);
    RunTakes(cs, t.start, t.steps, t.end, step);
    if harmless {
      StaysHarmless(cs, t.start, t.steps, t.end, step);
    }
  }

  /** One more event of a node. */
  lemma TakeEvent(cs: Configs, t: Trip, harmless: bool, n: NodeId, e: Event, applied: bool, pc: Pc, pc': Pc, store: Store)
    returns (u: Trip)
    requires Possible(cs, t, harmless) && n in cs && At(t.end, n, pc)
    requires Next(cs[n], pc, e) == Some(pc') && Effect(t.end.store, e, applied) == Some(store)
    ensures u.start == t.start && u.steps == t.steps + [NodeStep(n, e, applied)]
    ensures Possible(cs, u, harmless) && Moved(t.end, u.end, n, pc', store)
    ensures At(u.end, n, pc') && u.end.store == store
  {
    hide Next, Effect, Possible;
    u := Take(cs, t, NodeStep(n, e, applied), harmless);
  }

  /** A list of events, each leaving the store alone, taken one after the other. */
  lemma {:induction false} Look(cs: Configs, t: Trip, harmless: bool, n: NodeId, events: seq<Event>, from: Pc, to: Pc)
    returns (u: Trip)
    requires Possible(cs, t, harmless) && n in cs && At(t.end, n, from) && After(cs[n], from, events) == Some(to)
    requires forall e | e in events :: Effect(t.end.store, e, false) == Some(t.end.store)
    ensures u.start == t.start && u.steps == t.steps + Steps(n, events)
    ensures Possible(cs, u, harmless) && Moved(t.end, u.end, n, to, t.end.store)
    ensures At(u.end, n, to) && u.end.store == t.end.store
  {
    hide Next, Effect, Possible;
    if events == [] {
      u := t;
      assert t.end.nodes[n := t.end.nodes[n]] == t.end.nodes;
    } else {
      var before, last := events[..|events| - 1], events[|events| - 1];
      var middle := After(cs[n], from, before).value;
      var v := Look(cs, t, harmless, n, before, from, middle);
      u := TakeEvent(cs, v, harmless, n, last, false, middle, to, t.end.store);
      assert Steps(n, events) == Steps(n, before) + [NodeStep(n, last, false)];
    }
  }

  lemma AddedSteps(t: Trip, u: Trip, n: NodeId, events: seq<Event>)
    requires u.start == t.start && u.steps == t.steps + Steps(n, events)
    requires forall e | e in events :: !e.CooldownPut?
    ensures GoesOn(t, u)
    ensures (forall e | e in events :: Smooth(e)) ==> GoesSmoothly(t, u)
    ensures |u.steps| == |t.steps| + |events|
    ensures forall i | 0 <= i < |events| :: u.steps[|t.steps| + i] == NodeStep(n, events[i], false)
  {
    forall i | |t.steps| <= i < |u.steps|
      ensures u.steps[i] == NodeStep(n, events[i - |t.steps|], false) && events[i - |t.steps|] in events
    {
    }
  }

  /** An event that tells what it did, and goes smoothly. */
  lemma AddedTold(t: Trip, u: Trip, n: NodeId, e: Event)
    requires u.start == t.start && u.steps == t.steps + [NodeStep(n, e, false)] && Smooth(e)
    ensures GoesOn(t, u) && GoesSmoothly(t, u)
  {
  }

  lemma Joined(t: Trip, u: Trip, v: Trip)
    requires GoesOn(t, u) && GoesOn(u, v)
    ensures GoesOn(t, v) && |t.steps| <= |u.steps| <= |v.steps|
    ensures GoesSmoothly(t, u) && GoesSmoothly(u, v) ==> GoesSmoothly(t, v)
  {
  }

  lemma MovedOn(a: State, b: State, c: State, n: NodeId, pc: Pc, store: Store, pc': Pc, store': Store)
    requires Moved(a, b, n, pc, store) && Moved(b, c, n, pc', store')
    ensures Moved(a, c, n, pc', store')
  {
    assert a.nodes[n := b.nodes[n]][n := c.nodes[n]] == a.nodes[n := c.nodes[n]];
  }

  lemma NotMoved(a: State, n: NodeId, pc: Pc)
    requires At(a, n, pc)
    ensures Moved(a, a, n, pc, a.store)
  {
    assert a.nodes[n := a.nodes[n]] == a.nodes;
  }

  // ----- The parts of a pass -----

  lemma BeforeTheLockLooks(c: NodeConfig, second: nat, records: seq<Record>, store: Store)
    requires store.key == None && WeekSecond(store.now) == second
    ensures forall e | e in BeforeTheLock(c, second, records) :: Effect(store, e, false) == Some(store) && !e.CooldownPut?
    ensures var events := BeforeTheLock(c, second, records);
      events != [] && events[0] == Began(false) && (c.cooldown > 0 ==> events[|events| - 1] == CooldownRead(Absent))
  {
  }

  /** Everything before the lock, at a second the windows permit, with no cooldown to be seen. */
  lemma ChecksBeforeLock(cs: Configs, t: Trip, harmless: bool, n: NodeId, records: seq<Record>) returns (u: Trip)
    requires Possible(cs, t, harmless) && n in cs && At(t.end, n, Idle) && t.end.store.key == None
    requires Goes(cs[n], WeekSecond(t.end.store.now), records)
    ensures GoesOn(t, u) && Possible(cs, u, harmless) && Moved(t.end, u.end, n, Trying(0), t.end.store)
    ensures At(u.end, n, Trying(0)) && u.end.store == t.end.store
    ensures |u.steps| > |t.steps| && u.steps[|t.steps|] == NodeStep(n, Began(false), false)
    ensures cs[n].cooldown > 0 ==> u.steps[|u.steps| - 1] == NodeStep(n, CooldownRead(Absent), false)
  {
    hide *;
    var second := WeekSecond(t.end.store.now);
    var events := BeforeTheLock(cs[n], second, records);
    BeforeTheLockPath(cs[n], second, records);
    BeforeTheLockLooks(cs[n], second, records, t.end.store);
    u := Look(cs, t, harmless, n, events, Idle, Trying(0));
    AddedSteps(t, u, n, events);
  }

  lemma UnderTheLockLooks(c: NodeConfig, session: nat, records: seq<Record>, store: Store)
    requires store.lock == Some(session)
    ensures forall e | e in UnderTheLock(c, session, records) ::
      Effect(store, e, false) == Some(store) && !e.CooldownPut? && Smooth(e)
  {
  }

  function Locking(store: Store): Store {
    store.(lock := Some(store.nextSession), nextSession := store.nextSession + 1)
  }

  lemma GrantEffect(store: Store)
    requires store.lock == None
    ensures Effect(store, TryLocked(Granted(store.nextSession)), false) == Some(Locking(store))
    ensures Locking(store).lock == Some(store.nextSession)
  {
  }

  /** The lock is taken and every check under it passes, at whatever time. */
  lemma ChecksUnderLock(cs: Configs, t: Trip, harmless: bool, n: NodeId, second: nat, records: seq<Record>) returns (u: Trip)
    requires Possible(cs, t, harmless) && n in cs && At(t.end, n, Trying(0)) && t.end.store.lock == None
    requires Goes(cs[n], second, records)
    ensures GoesOn(t, u) && GoesSmoothly(t, u) && Possible(cs, u, harmless)
    ensures Moved(t.end, u.end, n, Handled(Holding(t.end.store.nextSession)), Locking(t.end.store))
    ensures At(u.end, n, Handled(Holding(t.end.store.nextSession))) && u.end.store == Locking(t.end.store)
  {
    var session := t.end.store.nextSession;
    var grant, events := TryLocked(Granted(session)), UnderTheLock(cs[n], session, records);
    AcquiringSteps(cs[n], session);
    UnderTheLockPath(cs[n], session, second, records);
    UnderTheLockLooks(cs[n], session, records, Locking(t.end.store));
    GrantEffect(t.end.store);
    hide *;
    var v := TakeEvent(cs, t, harmless, n, grant, false, Trying(0), Annotating(0, session), Locking(t.end.store));
    u := Look(cs, v, harmless, n, events, Annotating(0, session), Handled(Holding(session)));
    AddedSteps(v, u, n, events);
    AddedTold(t, v, n, grant);
    Joined(t, v, u);
    MovedOn(t.end, v.end, u.end, n, Annotating(0, session), Locking(t.end.store),
            Handled(Holding(session)), Locking(t.end.store));
  }

  function Granting(c: NodeConfig, store: Store): Store {
    store.(nextLease := store.nextLease + 1,
           leases := store.leases[store.nextLease := Lease(store.now, c.CooldownSeconds(), Live)])
  }

  /** The store once the node has started its cooldown, if it has one. */
  function Started(c: NodeConfig, store: Store): Store {
    if c.cooldown > 0 then Granting(c, store).(key := Some(store.nextLease)) else store
  }

  lemma StartEffects(c: NodeConfig, store: Store)
    ensures Effect(store, LeaseGranted(c.CooldownSeconds(), Some(store.nextLease)), false) == Some(Granting(c, store))
    ensures c.cooldown > 0 ==> Effect(Granting(c, store), CooldownPut(store.nextLease, true), false) == Some(Started(c, store))
    ensures Effect(store, ExecStarted(c.command), false) == Some(store)
  {
  }

  /** The cooldown is started. */
  lemma StartsCooldown(cs: Configs, t: Trip, harmless: bool, n: NodeId, session: nat) returns (u: Trip)
    requires Possible(cs, t, harmless) && n in cs && At(t.end, n, Handled(Holding(session)))
    ensures GoesOn(t, u) && GoesSmoothly(t, u) && Possible(cs, u, harmless)
    ensures Moved(t.end, u.end, n, Armed(cs[n], session), Started(cs[n], t.end.store))
    ensures At(u.end, n, Armed(cs[n], session)) && u.end.store == Started(cs[n], t.end.store)
    ensures cs[n].cooldown > 0 ==>
      |u.steps| > |t.steps| && u.steps[|u.steps| - 1] == NodeStep(n, CooldownPut(t.end.store.nextLease, true), false)
  {
    var c, lease := cs[n], t.end.store.nextLease;
    if c.cooldown > 0 {
      StartSteps(c, session, lease);
      StartEffects(c, t.end.store);
      hide *;
      var grant, put := LeaseGranted(c.CooldownSeconds(), Some(lease)), CooldownPut(lease, true);
      var v := TakeEvent(cs, t, harmless, n, grant, false, Handled(Holding(session)), Putting(session, lease), Granting(c, t.end.store));
      u := TakeEvent(cs, v, harmless, n, put, false, Putting(session, lease), Armed(c, session), Started(c, t.end.store));
      AddedTold(t, v, n, grant);
      AddedTold(v, u, n, put);
      Joined(t, v, u);
      MovedOn(t.end, v.end, u.end, n, Putting(session, lease), Granting(c, t.end.store), Armed(c, session), Started(c, t.end.store));
    } else {
      u := t;
      NotMoved(t.end, n, Handled(Holding(session)));
    }
  }

  /** The cooldown is started, if there is one, and the command begins. */
  lemma StartsCommand(cs: Configs, t: Trip, harmless: bool, n: NodeId, session: nat) returns (u: Trip)
    requires Possible(cs, t, harmless) && n in cs && At(t.end, n, Handled(Holding(session)))
    ensures GoesOn(t, u) && GoesSmoothly(t, u) && Possible(cs, u, harmless)
    ensures Moved(t.end, u.end, n, Executing(session), Started(cs[n], t.end.store))
    ensures At(u.end, n, Executing(session)) && u.end.store == Started(cs[n], t.end.store)
    ensures |u.steps| > |t.steps| && u.steps[|u.steps| - 1] == NodeStep(n, ExecStarted(cs[n].command), false)
    ensures cs[n].cooldown > 0 ==>
      |u.steps| > |t.steps| + 1 && u.steps[|u.steps| - 2] == NodeStep(n, CooldownPut(t.end.store.nextLease, true), false)
  {
    hide *;
    var c := cs[n];
    CommandSteps(c, session);
    StartEffects(c, Started(c, t.end.store));
    var v := StartsCooldown(cs, t, harmless, n, session);
    u := TakeEvent(cs, v, harmless, n, ExecStarted(c.command), false, Armed(c, session), Executing(session), Started(c, t.end.store));
    AddedTold(v, u, n, ExecStarted(c.command));
    Joined(t, v, u);
    MovedOn(t.end, v.end, u.end, n, Armed(c, session), Started(c, t.end.store), Executing(session), Started(c, t.end.store));
  }

  // ----- Between passes -----

  /** With the owner down, the session it held is nobody's. */
  lemma SessionWithoutOwner(cs: Configs, t: Trip, n: NodeId)
    requires Possible(cs, t, true) && n in t.end.nodes && HeldBy(t.end.nodes[n]).Some?
    ensures HeldBy(t.end.nodes[n]) == t.end.store.lock
    ensures !LiveExpiry(State(t.end.nodes[n := Down], t.end.store), SessionExpires)
  {
    RunKeepsInv(cs, t.start, t.steps);
    hide Run, Init, NoLiveExpiry, NodesOnLadder, HeldBy, TouchedBy;
    HeldIsTouched(Down);
    forall m | m in t.end.nodes
      ensures HeldBy(t.end.nodes[m]).Some? ==> TouchedBy(t.end.nodes[m]) == HeldBy(t.end.nodes[m])
    {
      HeldIsTouched(t.end.nodes[m]);
    }
    DownHoldsNothing();
  }

  lemma DownHoldsNothing()
    ensures HeldBy(Down) == None
  {
  }

  /** The command succeeds, the node goes down, and its session expires after it. */
  lemma GoesDown(cs: Configs, t: Trip, n: NodeId, session: nat) returns (u: Trip)
    requires Possible(cs, t, true) && n in cs && At(t.end, n, Executing(session)) && t.end.store.lock == Some(session)
    ensures GoesOn(t, u) && GoesSmoothly(t, u) && Possible(cs, u, true)
    ensures u.end == State(t.end.nodes[n := Down], t.end.store.(lock := None))
  {
    hide *;
    CommandSteps(cs[n], session);
    EndEffect(t.end.store);
    var a := TakeEvent(cs, t, true, n, ExecEnded(true), false, Executing(session), Rebooting(session), t.end.store);
    AddedTold(t, a, n, ExecEnded(true));
    u := Leaves(cs, a, n, session);
    Joined(t, a, u);
    MovedAndGone(t.end, a.end, n, Rebooting(session));
  }

  lemma EndEffect(store: Store)
    ensures Effect(store, ExecEnded(true), false) == Some(store)
  {
  }

  lemma MovedAndGone(a: State, b: State, n: NodeId, pc: Pc)
    requires Moved(a, b, n, pc, a.store)
    ensures State(b.nodes[n := Down], b.store.(lock := None)) == State(a.nodes[n := Down], a.store.(lock := None))
  {
    assert b.nodes[n := Down] == a.nodes[n := Down];
  }

  /** A node that has rebooted is down, and its session expires after it. */
  lemma Leaves(cs: Configs, t: Trip, n: NodeId, session: nat) returns (u: Trip)
    requires Possible(cs, t, true) && At(t.end, n, Rebooting(session))
    ensures GoesOn(t, u) && GoesSmoothly(t, u) && Possible(cs, u, true)
    ensures u.end == State(t.end.nodes[n := Down], t.end.store.(lock := None))
  {
    assert HeldBy(t.end.nodes[n]) == Some(session);
    SessionWithoutOwner(cs, t, n);
    hide *;
    var v := Crashes(cs, t, n);
    u := LosesSession(cs, v);
    Joined(t, v, u);
  }

  lemma Crashes(cs: Configs, t: Trip, n: NodeId) returns (u: Trip)
    requires Possible(cs, t, true) && n in t.end.nodes
    ensures GoesOn(t, u) && GoesSmoothly(t, u) && Possible(cs, u, true)
    ensures u.end == State(t.end.nodes[n := Down], t.end.store)
  {
    hide Possible, Next, Effect;
    u := Take(cs, t, Crash(n), true);
  }

  lemma LosesSession(cs: Configs, t: Trip) returns (u: Trip)
    requires Possible(cs, t, true) && !LiveExpiry(t.end, SessionExpires)
    ensures GoesOn(t, u) && GoesSmoothly(t, u) && Possible(cs, u, true)
    ensures u.end == State(t.end.nodes, t.end.store.(lock := None))
  {
    hide Possible, Next, Effect, LiveExpiry;
    u := Take(cs, t, SessionExpires, true);
  }

  lemma WeekSecondMoves(now: int, seconds: nat)
    ensures WeekSecond(now + seconds * SECOND) == (WeekSecond(now) + seconds) % WEEK
  {
    WholeSeconds(now, seconds);
    AddedAroundWeek(now / SECOND, seconds);
  }

  lemma WholeSeconds(now: int, seconds: nat)
    ensures (now + seconds * SECOND) / SECOND == now / SECOND + seconds
  {
  }

  lemma AddedAroundWeek(a: int, b: int)
    ensures (a + b) % WEEK == (a % WEEK + b) % WEEK
  {
  }

  lemma Ticks(cs: Configs, t: Trip, harmless: bool, elapsed: nat) returns (u: Trip)
    requires Possible(cs, t, harmless)
    ensures GoesOn(t, u) && GoesSmoothly(t, u) && Possible(cs, u, harmless)
    ensures u.end == State(t.end.nodes, t.end.store.(now := t.end.store.now + elapsed))
  {
    hide Possible, Next, Effect;
    u := Take(cs, t, Tick(elapsed), harmless);
  }

  /** Time passes until a second of the week. */
  lemma Waits(cs: Configs, t: Trip, harmless: bool, second: nat) returns (u: Trip)
    requires Possible(cs, t, harmless) && second < WEEK
    ensures GoesOn(t, u) && GoesSmoothly(t, u) && Possible(cs, u, harmless)
    ensures u.end.nodes == t.end.nodes && u.end.store == t.end.store.(now := u.end.store.now)
    ensures WeekSecond(u.end.store.now) == second && t.end.store.now <= u.end.store.now
  {
    var here := WeekSecond(t.end.store.now);
    var seconds := if second >= here then second - here else second - here + WEEK;
    WeekSecondMoves(t.end.store.now, seconds);
    ModWithin(here + seconds, WEEK);
    u := Ticks(cs, t, harmless, seconds * SECOND);
  }

  /** A restarted node begins anew. */
  lemma Restarts(cs: Configs, t: Trip, harmless: bool, n: NodeId) returns (u: Trip)
    requires Possible(cs, t, harmless) && n in t.end.nodes && t.end.nodes[n].Down?
    ensures GoesOn(t, u) && Possible(cs, u, harmless)
    ensures u.end == State(t.end.nodes[n := Up(Idle, [])], t.end.store) && At(u.end, n, Idle)
  {
    hide Possible, Next, Effect;
    u := Take(cs, t, Restart(n), harmless);
  }

  // ----- Whole passes -----

  /** From the first attempt on the lock to the command. */
  lemma Reboots(cs: Configs, t: Trip, harmless: bool, n: NodeId, second: nat, records: seq<Record>) returns (u: Trip)
    requires Possible(cs, t, harmless) && n in cs && At(t.end, n, Trying(0)) && t.end.store.lock == None
    requires Goes(cs[n], second, records)
    ensures GoesOn(t, u) && GoesSmoothly(t, u) && Possible(cs, u, harmless)
    ensures var session := t.end.store.nextSession;
      && Moved(t.end, u.end, n, Executing(session), Started(cs[n], Locking(t.end.store))) && At(u.end, n, Executing(session))
      && u.end.store == Started(cs[n], Locking(t.end.store)) && u.end.store.lock == Some(session)
    ensures |u.steps| > |t.steps| && u.steps[|u.steps| - 1] == NodeStep(n, ExecStarted(cs[n].command), false)
    ensures cs[n].cooldown > 0 ==>
      |u.steps| > |t.steps| + 1 && u.steps[|u.steps| - 2] == NodeStep(n, CooldownPut(t.end.store.nextLease, true), false)
  {
    var session := t.end.store.nextSession;
    StartedKeeps(cs[n], t.end.store);
    hide *;
    var v := ChecksUnderLock(cs, t, harmless, n, second, records);
    u := StartsCommand(cs, v, harmless, n, session);
    Joined(t, v, u);
    MovedOn(t.end, v.end, u.end, n, Handled(Holding(session)), Locking(t.end.store),
            Executing(session), Started(cs[n], Locking(t.end.store)));
  }

  lemma StartedKeeps(c: NodeConfig, store: Store)
    ensures Started(c, Locking(store)).lock == Some(store.nextSession) && Locking(store).nextLease == store.nextLease
  {
  }

  lemma StaysAt(a: State, b: State, n: NodeId, pc: Pc, store: Store, m: NodeId, pc': Pc)
    requires Moved(a, b, n, pc, store) && At(a, m, pc') && n != m
    ensures At(b, m, pc')
  {
  }

  /** Of an able node: a second its windows permit and a listing its policies let it reboot on. */
  lemma WayOf(c: NodeConfig) returns (second: nat, records: seq<Record>)
    requires Able(c)
    ensures second < WEEK && Goes(c, second, records)
  {
    second :| second < WEEK && OpenAt(c, second);
    records :| ListingAllows(c, records);
  }

  /** The clock stands at a second of the week. */
  lemma ClockAt(second: nat) returns (now: int)
    requires second < WEEK
    ensures WeekSecond(now) == second
  {
    now := second * SECOND;
    WholeSeconds(0, second);
  }

  lemma OriginIdle(cs: Configs, now: int)
    ensures forall n | n in cs :: At(Origin(cs, now), n, Idle)
    ensures Origin(cs, now).store == Store(None, 0, None, map[], 0, now)
  {
  }

  /** Two able nodes have made every check before the lock, with no cooldown to be seen. */
  lemma BothChecked(cs: Configs, x: NodeId, y: NodeId, secondX: nat, recordsX: seq<Record>, secondY: nat, recordsY: seq<Record>)
    returns (t: Trip)
    requires x in cs && y in cs && x != y && secondX < WEEK && secondY < WEEK
    requires Goes(cs[x], secondX, recordsX) && Goes(cs[y], secondY, recordsY)
    ensures Possible(cs, t, true) && At(t.end, x, Trying(0)) && At(t.end, y, Trying(0))
    ensures t.end.store == Store(None, 0, None, map[], 0, t.end.store.now) && WeekSecond(t.end.store.now) == secondX
  {
    hide *;
    var now := ClockAt(secondY);
    var o := NothingHappened(cs, now);
    OriginIdle(cs, now);
    var a := ChecksBeforeLock(cs, o, true, y, recordsY);
    StaysAt(o.end, a.end, y, Trying(0), o.end.store, x, Idle);
    var b := Waits(cs, a, true, secondX);
    SameNodes(a.end, b.end);
    t := ChecksBeforeLock(cs, b, true, x, recordsX);
    StaysAt(b.end, t.end, x, Trying(0), b.end.store, y, Trying(0));
  }

  lemma SameNodes(a: State, b: State)
    requires a.nodes == b.nodes
    ensures forall n, pc :: At(a, n, pc) <==> At(b, n, pc)
  {
  }

  // ----- What the guarantees cannot do without -----

  /** Node x has rebooted and is down; node y, which had checked before, may take the lock. Trip c ends as x's command begins. */
  lemma FirstDown(cs: Configs, x: NodeId, y: NodeId, secondX: nat, recordsX: seq<Record>, secondY: nat, recordsY: seq<Record>)
    returns (c: Trip, t: Trip)
    requires x in cs && y in cs && x != y && secondX < WEEK && secondY < WEEK
    requires Goes(cs[x], secondX, recordsX) && Goes(cs[y], secondY, recordsY)
    ensures Possible(cs, t, true) && At(t.end, y, Trying(0)) && x in t.end.nodes && t.end.nodes[x].Down?
    ensures t.end.store == Started(cs[x], Locking(Store(None, 0, None, map[], 0, t.end.store.now))).(lock := None)
    ensures WeekSecond(t.end.store.now) == secondX && GoesOn(c, t) && GoesSmoothly(c, t)
    ensures |c.steps| > 0 && c.steps[|c.steps| - 1] == NodeStep(x, ExecStarted(cs[x].command), false)
    ensures cs[x].cooldown > 0 ==> |c.steps| > 1 && c.steps[|c.steps| - 2] == NodeStep(x, CooldownPut(0, true), false)
  {
    hide Possible, Goes, WeekSecond, GoesOn, GoesSmoothly, Next, Effect;
    var b := BothChecked(cs, x, y, secondX, recordsX, secondY, recordsY);
    c := Reboots(cs, b, true, x, secondX, recordsX);
    StaysAt(b.end, c.end, x, Executing(0), Started(cs[x], Locking(b.end.store)), y, Trying(0));
    t := GoesDown(cs, c, x, 0);
  }

  /** The same with a cooldown, which stands. */
  lemma FirstGone(cs: Configs, x: NodeId, y: NodeId, secondX: nat, recordsX: seq<Record>, secondY: nat, recordsY: seq<Record>)
    returns (t: Trip, i: nat)
    requires x in cs && y in cs && x != y && secondX < WEEK && secondY < WEEK && cs[x].cooldown > 0
    requires Goes(cs[x], secondX, recordsX) && Goes(cs[y], secondY, recordsY)
    ensures Possible(cs, t, true) && At(t.end, y, Trying(0)) && x in t.end.nodes && t.end.nodes[x].Down?
    ensures t.end.store
         == Store(None, 1, Some(0), map[0 := Lease(t.end.store.now, cs[x].CooldownSeconds(), Live)], 1, t.end.store.now)
    ensures WeekSecond(t.end.store.now) == secondX
    ensures i < |t.steps| && t.steps[i] == NodeStep(x, CooldownPut(0, true), false)
  {
    hide Possible, Goes, WeekSecond, GoesOn, GoesSmoothly, Next, Effect, At;
    var c;
    c, t := FirstDown(cs, x, y, secondX, recordsX, secondY, recordsY);
    i := |c.steps| - 2;
    StepStays(c, t, i);
  }

  lemma StepStays(t: Trip, u: Trip, i: nat)
    requires GoesOn(t, u) && i < |t.steps|
    ensures i < |u.steps| && u.steps[i] == t.steps[i]
  {
  }

  lemma StartedSince(c: NodeConfig, store: Store)
    requires 0 in store.leases && 0 < store.nextLease
    ensures 0 in Started(c, Locking(store)).leases && Started(c, Locking(store)).leases[0] == store.leases[0]
    ensures Started(c, Locking(store)).now == store.now
  {
  }

  /**
   The cooldown is not looked at again under the lock, so a node that checked before another's start is not held back: in
   every cluster with two able nodes, one with a cooldown, the other can reboot right after it, within the same instant.
   */
  lemma EarlyReaderReboots(cs: Configs, x: NodeId, y: NodeId) returns (t: Trip, i: nat)
    requires x in cs && y in cs && x != y && Able(cs[x]) && Able(cs[y]) && cs[x].cooldown > 0
    ensures Possible(cs, t, true)
    ensures i < |t.steps| - 1 && t.steps[i] == NodeStep(x, CooldownPut(0, true), false)
    ensures t.steps[|t.steps| - 1] == NodeStep(y, ExecStarted(cs[y].command), false)
    ensures 0 in t.end.store.leases && t.end.store.leases[0].granted == t.end.store.now
  {
    hide *;
    var secondX, recordsX := WayOf(cs[x]);
    var secondY, recordsY := WayOf(cs[y]);
    var first;
    first, i := FirstGone(cs, x, y, secondX, recordsX, secondY, recordsY);
    t := Reboots(cs, first, true, y, secondY, recordsY);
    StepStays(first, t, i);
    StartedSince(cs[y], first.end.store);
  }

  lemma FreeAfter(c: NodeConfig, store: Store)
    ensures Started(c, Locking(store)).(lock := None).lock == None
  {
  }

  /** Two able nodes can be rebooting at once: the second begins its command while the first, up no more, has not come back. */
  lemma SecondRebootsMeanwhile(cs: Configs, x: NodeId, y: NodeId) returns (c: Trip, t: Trip)
    requires x in cs && y in cs && x != y && Able(cs[x]) && Able(cs[y])
    ensures Possible(cs, t, true) && GoesOn(c, t) && GoesSmoothly(c, t) && |t.steps| > |c.steps| > 0
    ensures c.steps[|c.steps| - 1] == NodeStep(x, ExecStarted(cs[x].command), false) && t.steps[|t.steps| - 1] == NodeStep(y, ExecStarted(cs[y].command), false)
  {
    hide *;
    var secondX, recordsX := WayOf(cs[x]);
    var secondY, recordsY := WayOf(cs[y]);
    var down;
    c, down := FirstDown(cs, x, y, secondX, recordsX, secondY, recordsY);
    FreeAfter(cs[x], Store(None, 0, None, map[], 0, down.end.store.now));
    t := Reboots(cs, down, true, y, secondY, recordsY);
    Joined(c, down, t);
  }

  /** If the session of a live node does expire, two able nodes can run the reboot command at the same time. */
  lemma LiveExpiryBreaksExclusion(cs: Configs, x: NodeId, y: NodeId) returns (t: Trip)
    requires x in cs && y in cs && x != y && Able(cs[x]) && Able(cs[y])
    ensures Possible(cs, t, false) && At(t.end, x, Executing(0)) && At(t.end, y, Executing(1))
  {
    hide Goes, WeekSecond, GoesOn, GoesSmoothly, Next, Effect, Able, Run, Init, NoLiveExpiry, Started;
    var secondX, recordsX := WayOf(cs[x]);
    var secondY, recordsY := WayOf(cs[y]);
    var b := BothChecked(cs, x, y, secondX, recordsX, secondY, recordsY);
    var c := Reboots(cs, b, true, x, secondX, recordsX);
    var expired := Take(cs, Trip(c.start, c.steps, c.end), SessionExpires, false);
    SessionCount(cs[x], b.end.store);
    StaysAt(b.end, c.end, x, Executing(0), Started(cs[x], Locking(b.end.store)), y, Trying(0));
    SameNodes(c.end, expired.end);
    t := Reboots(cs, expired, false, y, secondY, recordsY);
    StaysAt(expired.end, t.end, y, Executing(1), Started(cs[y], Locking(expired.end.store)), x, Executing(0));
  }

  lemma SessionCount(c: NodeConfig, store: Store)
    ensures Started(c, Locking(store)).nextSession == store.nextSession + 1
  {
  }

  /** A node whose windows deny some second can start its command at that second: they are read before the lock only. */
  lemma DeniedStart(cs: Configs, x: NodeId, denied: nat) returns (t: Trip)
    requires x in cs && Able(cs[x]) && denied < WEEK
    ensures Possible(cs, t, true) && |t.steps| > 0 && t.steps[|t.steps| - 1] == NodeStep(x, ExecStarted(cs[x].command), false)
    ensures WeekSecond(t.end.store.now) == denied
  {
    hide *;
    var second, records := WayOf(cs[x]);
    var now := ClockAt(second);
    var o := NothingHappened(cs, now);
    OriginIdle(cs, now);
    var a := ChecksBeforeLock(cs, o, true, x, records);
    var b := Waits(cs, a, true, denied);
    SameNodes(a.end, b.end);
    t := Reboots(cs, b, true, x, second, records);
    StartedNow(cs[x], b.end.store);
  }

  lemma StartedNow(c: NodeConfig, store: Store)
    ensures Started(c, Locking(store)).now == store.now
  {
  }

  // ----- A reboot once the cooldown is over -----

  /**
   A run that meets every condition of RebootsAreSpaced: a node reads the cooldown after its start and reboots once more.
   */
  lemma LateReaderReboots(cs: Configs, x: NodeId) returns (t: Trip, i: nat, j: nat)
    requires x in cs && Able(cs[x]) && cs[x].cooldown > 0
    ensures Possible(cs, t, true)
    ensures |t.steps| > 0 && t.steps[|t.steps| - 1] == NodeStep(x, ExecStarted(cs[x].command), false)
    ensures StartedAt(t.steps, i, |t.steps| - 1, x, 0) && LastReadAt(t.steps, j, |t.steps| - 1, x) && i < j
  {
    hide *;
    var second, records := WayOf(cs[x]);
    var now := ClockAt(second);
    var o := NothingHappened(cs, now);
    OriginIdle(cs, now);
    var a := ChecksBeforeLock(cs, o, true, x, records);
    var b := Reboots(cs, a, true, x, second, records);
    var c := GoesDown(cs, b, x, 0);
    StartedLive(cs[x], a.end.store);
    DownAfter(b.end.nodes, x);
    var d := RunsOut(cs, c, x, second);
    var e := ChecksBeforeLock(cs, d, true, x, records);
    t := Reboots(cs, e, true, x, second, records);
    i, j := |b.steps| - 2, |e.steps| - 1;
    Joined(b, c, d);
    Joined(b, d, e);
    Joined(b, e, t);
    PlacesOfLateReader(b, e, t, i, j, x);
  }

  lemma StartedLive(c: NodeConfig, store: Store)
    requires c.cooldown > 0 && store.nextLease == 0
    ensures var started := Started(c, Locking(store)).(lock := None);
      started.key == Some(0) && LiveLease(started, 0)
  {
  }

  lemma DownAfter(nodes: map<NodeId, Node>, n: NodeId)
    ensures n in nodes[n := Down] && nodes[n := Down][n].Down?
  {
  }

  lemma PlacesOfLateReader(b: Trip, e: Trip, t: Trip, i: nat, j: nat, x: NodeId)
    requires GoesOn(b, e) && GoesOn(e, t) && GoesOn(b, t) && GoesSmoothly(e, t) && |t.steps| > |e.steps| > |b.steps|
    requires i == |b.steps| - 2 && b.steps[i] == NodeStep(x, CooldownPut(0, true), false)
    requires b.steps[i + 1].NodeStep? && b.steps[i + 1].event.ExecStarted?
    requires j == |e.steps| - 1 && e.steps[j] == NodeStep(x, CooldownRead(Absent), false)
    ensures StartedAt(t.steps, i, |t.steps| - 1, x, 0) && LastReadAt(t.steps, j, |t.steps| - 1, x) && i < j
  {
  }

  /** The cooldown of a node that is down runs out; the node starts again at a second of the week. */
  lemma RunsOut(cs: Configs, t: Trip, n: NodeId, second: nat) returns (u: Trip)
    requires Possible(cs, t, true) && n in t.end.nodes && t.end.nodes[n].Down? && second < WEEK
    requires t.end.store.key == Some(0) && LiveLease(t.end.store, 0)
    ensures GoesOn(t, u) && Possible(cs, u, true) && At(u.end, n, Idle)
    ensures u.end.store.key == None && u.end.store.lock == t.end.store.lock && WeekSecond(u.end.store.now) == second
  {
    hide Possible, WeekSecond, GoesOn, GoesSmoothly, Next, Effect, LiveExpiry;
    var lease := t.end.store.leases[0];
    var wait := if lease.Deadline() > t.end.store.now then lease.Deadline() - t.end.store.now else 0;
    var a := Ticks(cs, t, true, wait);
    var b := Expires(cs, a);
    var c := Waits(cs, b, true, second);
    u := Restarts(cs, c, true, n);
    Joined(t, a, b);
    Joined(t, b, c);
    Joined(t, c, u);
  }

  lemma Expires(cs: Configs, t: Trip) returns (u: Trip)
    requires Possible(cs, t, true) && t.end.store.key == Some(0) && LiveLease(t.end.store, 0)
    requires t.end.store.now >= t.end.store.leases[0].Deadline()
    ensures GoesOn(t, u) && GoesSmoothly(t, u) && Possible(cs, u, true)
    ensures u.end.nodes == t.end.nodes && u.end.store.key == None && u.end.store.lock == t.end.store.lock
  {
    hide Possible, Next, Effect;
    u := Take(cs, t, LeaseExpires(0), true);
  }

  // ----- A cooldown cleared by a write that was not told -----

  /** The store after a write that was taken back: whatever key there was is gone, although its lease may live. */
  function Cleared(c: NodeConfig, store: Store): Store {
    Drop(Granting(c, store).(key := Some(store.nextLease)), store.nextLease, Revoked)
  }

  lemma FailedStartEffects(c: NodeConfig, store: Store)
    ensures Effect(store, LeaseGranted(c.CooldownSeconds(), Some(store.nextLease)), false) == Some(Granting(c, store))
    ensures Effect(Granting(c, store), CooldownPut(store.nextLease, false), true)
         == Some(Granting(c, store).(key := Some(store.nextLease)))
    ensures Effect(Granting(c, store).(key := Some(store.nextLease)), LeaseRevoked(store.nextLease, true), false)
         == Some(Cleared(c, store))
  {
  }

  /** A node writes the key, is told that it did not, and takes its lease back, and the key with it. */
  lemma StartFailsUntold(cs: Configs, t: Trip, n: NodeId, session: nat) returns (u: Trip)
    requires Possible(cs, t, true) && n in cs && At(t.end, n, Handled(Holding(session))) && cs[n].cooldown > 0
    ensures Possible(cs, u, true) && u.start == t.start && t.steps <= u.steps
    ensures Moved(t.end, u.end, n, Unlocking(session, LoopEnds), Cleared(cs[n], t.end.store))
    ensures At(u.end, n, Unlocking(session, LoopEnds)) && u.end.store == Cleared(cs[n], t.end.store)
  {
    hide *;
    var c, lease := cs[n], t.end.store.nextLease;
    StartSteps(c, session, lease);
    FailedStartSteps(c, session, lease);
    FailedStartEffects(c, t.end.store);
    var granted := Granting(c, t.end.store);
    var written := granted.(key := Some(lease));
    var a := TakeEvent(cs, t, true, n, LeaseGranted(c.CooldownSeconds(), Some(lease)), false,
                       Handled(Holding(session)), Putting(session, lease), granted);
    var b := TakeEvent(cs, a, true, n, CooldownPut(lease, false), true, Putting(session, lease), Revoking(session, lease), written);
    u := TakeEvent(cs, b, true, n, LeaseRevoked(lease, true), false,
                   Revoking(session, lease), Unlocking(session, LoopEnds), Cleared(c, t.end.store));
    MovedOn(t.end, a.end, b.end, n, Putting(session, lease), granted, Revoking(session, lease), written);
    MovedOn(t.end, b.end, u.end, n, Revoking(session, lease), written, Unlocking(session, LoopEnds), Cleared(c, t.end.store));
  }

  lemma FreeEffects(store: Store, session: nat)
    requires store.lock == Some(session)
    ensures Effect(store, Unlocked(session, true), false) == Some(store.(lock := None))
    ensures Effect(store.(lock := None), Closed(session, true), false) == Some(store.(lock := None))
  {
  }

  /** The node gives the lock back and ends. */
  lemma GivesUp(cs: Configs, t: Trip, n: NodeId, session: nat) returns (u: Trip)
    requires Possible(cs, t, true) && n in cs && At(t.end, n, Unlocking(session, LoopEnds)) && t.end.store.lock == Some(session)
    ensures Possible(cs, u, true) && u.start == t.start && t.steps <= u.steps
    ensures Moved(t.end, u.end, n, Stopped, t.end.store.(lock := None)) && u.end.store == t.end.store.(lock := None)
  {
    hide *;
    GivingUpSteps(cs[n], session);
    FreeEffects(t.end.store, session);
    var free := t.end.store.(lock := None);
    var a := TakeEvent(cs, t, true, n, Unlocked(session, true), false,
                       Unlocking(session, LoopEnds), Closing(session, LoopEnds, true), free);
    u := TakeEvent(cs, a, true, n, Closed(session, true), false, Closing(session, LoopEnds, true), Stopped, free);
    MovedOn(t.end, a.end, u.end, n, Closing(session, LoopEnds, true), free, Stopped, free);
  }

  lemma ClearedStore(c: NodeConfig, store: Store)
    requires 0 in store.leases && 0 < store.nextLease
    ensures var after := Cleared(c, Locking(store));
      && after.key == None && after.lock == Some(store.nextSession) && after.now == store.now
      && 0 in after.leases && after.leases[0] == store.leases[0] && after.nextLease > 0
  {
  }

  lemma DownStays(a: State, b: State, n: NodeId, pc: Pc, store: Store, m: NodeId)
    requires Moved(a, b, n, pc, store) && m in a.nodes && a.nodes[m].Down? && n != m
    ensures m in b.nodes && b.nodes[m].Down?
  {
  }

  /** Node y's start fails without being told, and leaves no cooldown behind; node x is up again. */
  lemma SecondFails(cs: Configs, t: Trip, x: NodeId, y: NodeId, secondY: nat, recordsY: seq<Record>) returns (u: Trip)
    requires Possible(cs, t, true) && y in cs && x != y && At(t.end, y, Trying(0)) && x in t.end.nodes && t.end.nodes[x].Down?
    requires t.end.store.lock == None && 0 in t.end.store.leases && 0 < t.end.store.nextLease
    requires Goes(cs[y], secondY, recordsY) && cs[y].cooldown > 0
    ensures Possible(cs, u, true) && u.start == t.start && t.steps <= u.steps && At(u.end, x, Idle)
    ensures u.end.store.key == None && u.end.store.lock == None && u.end.store.now == t.end.store.now
    ensures 0 in u.end.store.leases && u.end.store.leases[0] == t.end.store.leases[0] && 0 < u.end.store.nextLease
  {
    hide *;
    var session, store := t.end.store.nextSession, t.end.store;
    ClearedStore(cs[y], store);
    var a := ChecksUnderLock(cs, t, true, y, secondY, recordsY);
    var b := StartFailsUntold(cs, a, y, session);
    var c := GivesUp(cs, b, y, session);
    DownStays(t.end, a.end, y, Handled(Holding(session)), Locking(store), x);
    DownStays(a.end, b.end, y, Unlocking(session, LoopEnds), Cleared(cs[y], Locking(store)), x);
    DownStays(b.end, c.end, y, Stopped, Cleared(cs[y], Locking(store)).(lock := None), x);
    u := Restarts(cs, c, true, x);
    Prefixes(t, a, c, u);
  }

  lemma Prefixes(t: Trip, a: Trip, c: Trip, u: Trip)
    requires GoesOn(t, a) && a.start == c.start && a.steps <= c.steps && GoesOn(c, u)
    ensures u.start == t.start && t.steps <= u.steps
  {
  }

  lemma LastRead(t: Trip, u: Trip, n: NodeId)
    requires GoesOn(t, u) && GoesSmoothly(t, u) && |u.steps| > |t.steps| > 0
    requires t.steps[|t.steps| - 1] == NodeStep(n, CooldownRead(Absent), false)
    ensures LastReadAt(u.steps, |t.steps| - 1, |u.steps| - 1, n)
  {
  }

  /**
   Even a node that reads the cooldown after its start is not held back when, in between, a write of the cooldown took
   effect although it reported an error: taking that write back takes away the cooldown it had replaced. In every cluster
   with two able nodes with cooldowns, one of them can so reboot twice within the same instant.
   */
  lemma UntoldWriteClearsCooldown(cs: Configs, x: NodeId, y: NodeId) returns (t: Trip, i: nat, j: nat)
    requires x in cs && y in cs && x != y && Able(cs[x]) && Able(cs[y]) && cs[x].cooldown > 0 && cs[y].cooldown > 0
    ensures Possible(cs, t, true)
    ensures i < j < |t.steps| - 1 && LastReadAt(t.steps, j, |t.steps| - 1, x)
    ensures t.steps[i] == NodeStep(x, CooldownPut(0, true), false)
    ensures t.steps[|t.steps| - 1] == NodeStep(x, ExecStarted(cs[x].command), false)
    ensures 0 in t.end.store.leases && t.end.store.leases[0].granted == t.end.store.now
  {
    hide Possible, Goes, WeekSecond, Able, Next, Effect, GoesOn, GoesSmoothly, Apply, Moved, Started;
    var secondX, recordsX := WayOf(cs[x]);
    var secondY, recordsY := WayOf(cs[y]);
    var first;
    first, i := FirstGone(cs, x, y, secondX, recordsX, secondY, recordsY);
    var cleared := SecondFails(cs, first, x, y, secondY, recordsY);
    var checked := ChecksBeforeLock(cs, cleared, true, x, recordsX);
    t := Reboots(cs, checked, true, x, secondX, recordsX);
    j := |checked.steps| - 1;
    StepStays(cleared, checked, i);
    StepStays(checked, t, i);
    LastRead(checked, t, x);
    StartedSince(cs[x], checked.end.store);
  }
}
