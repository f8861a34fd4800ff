/** The three clients of the shared store: the lock, the cooldown and the cluster health records. */
module Managers {
  import opened Wrappers
  import opened Backoff
  import opened ClusterPolicy
  import opened Protocol
  import opened Environment

  datatype AcquireResult = Acquired(session: nat) | NotAcquired | AcquireFailed

  /** Where a node is once an attempt on the lock has come to a result. */
  function AfterAcquire(c: NodeConfig, attempt: nat, r: AcquireResult): Pc {
    match r
    case Acquired(session) => KillPost(session, attempt + 1)
    case NotAcquired =>
      if attempt + 1 >= c.maxLockTries then Returned(Done(LockUnavailable, false)) else BackingOff(attempt)
    case AcquireFailed => Returned(Failed)
  }

  /** Where a node is once it has tried to give a lease back. */
  function AfterRelease(next: Then, ok: bool): Pc {
    match next
    case PassEnds(result) => Returned(if ok then result else Failed)
    case AcquireFails => Returned(Failed)
    case LoopEnds => Stopped
  }

  /** A lock that was granted but not annotated, and how giving it up went. */
  function GivenUp(session: nat, unlocked: bool, closed: bool): seq<Event> {
    [TryLocked(Granted(session)), Annotated(session, false), Unlocked(session, unlocked), Closed(session, closed)]
  }

  function Taken(session: nat): seq<Event> {
    [TryLocked(Granted(session)), Annotated(session, true)]
  }

  /** What an attempt on the lock does outside, by its result. */
  ghost predicate AcquireEvents(r: AcquireResult, events: seq<Event>) {
    match r
    case Acquired(session) => events == Taken(session)
    case NotAcquired => events == [TryLocked(Busy)]
    case AcquireFailed =>
      events == [TryLocked(TryFailed)] || exists session, unlocked, closed :: events == GivenUp(session, unlocked, closed)
  }

  class LockManager {
    const world: World

    constructor (world: World)
      ensures this.world == world
    {
      this.world := world;
    }

    /** A lock that was taken but could not be annotated is given up again. */
    method Acquire(attempt: nat) returns (r: AcquireResult)
      requires world.Valid() && world.pc == Trying(attempt)
      modifies world
      ensures world.Valid() && world.tally == old(world.tally)
      ensures world.pc == AfterAcquire(world.config, attempt, r)
      ensures exists events :: AcquireEvents(r, events) && world.trace == old(world.trace) + events
    {
      hide World.Valid, Next, Counted, AcquireEvents;
      AcquireEventsOf();
      var lock := world.TryLock();
      match lock {
        case Busy => return NotAcquired;
        case TryFailed => return AcquireFailed;
        case Granted(session) =>
          var annotated := world.Annotate(session);
          if !annotated {
            var unlocked := world.Unlock(session);
            var closed := world.CloseSession(session);
            assert world.trace == old(world.trace) + GivenUp(session, unlocked, closed);
            return AcquireFailed;
          }
          assert world.trace == old(world.trace) + Taken(session);
          return Acquired(session);
      }
    }

    /** The session is closed even when the lock could not be deleted. */
    method Release(session: nat, ghost next: Then) returns (ok: bool)
      requires world.Valid() && world.pc == Unlocking(session, next)
      modifies world
      ensures world.Valid() && world.tally == old(world.tally)
      ensures world.pc == AfterRelease(next, ok)
      ensures exists unlocked, closed ::
        ok == (unlocked && closed) && world.trace == old(world.trace) + [Unlocked(session, unlocked)] + [Closed(session, closed)]
    {
      hide World.Valid, Next;
      var unlocked := world.Unlock(session);
      var closed := world.CloseSession(session);
      if !unlocked {
        return false;
      }
      if !closed {
        return false;
      }
      return true;
    }
  }

  datatype CooldownStatus = StatusFailed | Inactive | Active

  /** The key, found under a lease, and the time left to it. */
  function KeyReadings(lease: nat, ttl: Option<int>): seq<Event> {
    [CooldownRead(Present(Some(lease))), TtlRead(lease, ttl)]
  }

  /** What is read to learn of the cooldown, by what is learned. */
  ghost predicate StatusEvents(status: CooldownStatus, events: seq<Event>) {
    match status
    case StatusFailed =>
      events == [CooldownRead(CooldownUnread)] || exists lease :: events == KeyReadings(lease, None)
    case Inactive =>
      events == [CooldownRead(Absent)] || exists lease, ttl :: ttl <= 0 && events == KeyReadings(lease, Some(ttl))
    case Active =>
      events == [CooldownRead(Present(None))] || exists lease, ttl :: ttl > 0 && events == KeyReadings(lease, Some(ttl))
  }

  function Stored(seconds: nat, lease: nat): seq<Event> {
    [LeaseGranted(seconds, Some(lease)), CooldownPut(lease, true)]
  }

  function TakenBack(seconds: nat, lease: nat, revoked: bool): seq<Event> {
    [LeaseGranted(seconds, Some(lease)), CooldownPut(lease, false), LeaseRevoked(lease, revoked)]
  }

  /** What is written to start a cooldown of some seconds, by whether it succeeds. */
  ghost predicate StartEvents(ok: bool, seconds: nat, events: seq<Event>) {
    if ok then exists lease :: events == Stored(seconds, lease)
    else events == [LeaseGranted(seconds, None)] || exists lease, revoked :: events == TakenBack(seconds, lease, revoked)
  }

  class CooldownManager {
    const world: World

    constructor (world: World)
      ensures this.world == world
    {
      this.world := world;
    }

    /** The cooldown counts while its key is there, and, when the key has a lease, while that lease has time left. */
    method Status() returns (status: CooldownStatus)
      requires world.Valid() && world.pc == CooldownPre
      modifies world
      ensures world.Valid() && world.tally == old(world.tally)
      ensures status == StatusFailed ==> world.pc == Returned(Failed)
      ensures status == Inactive ==> world.pc == BeforeLock(world.config)
      ensures status == Active ==> world.pc == Returned(Done(CooldownActive, false))
      ensures exists events :: StatusEvents(status, events) && world.trace == old(world.trace) + events
    {
      hide World.Valid, Next;
      var reading := world.GetCooldown();
      match reading {
        case CooldownUnread =>
          assert StatusEvents(StatusFailed, [CooldownRead(reading)]);
          return StatusFailed;
        case Absent =>
          assert StatusEvents(Inactive, [CooldownRead(reading)]);
          return Inactive;
        case Present(None) =>
          assert StatusEvents(Active, [CooldownRead(reading)]);
          return Active;
        case Present(Some(lease)) =>
          var ttl := world.TimeToLive(lease);
          assert world.trace == old(world.trace) + KeyReadings(lease, ttl);
          if ttl.None? {
            assert StatusEvents(StatusFailed, KeyReadings(lease, ttl));
            return StatusFailed;
          }
          if ttl.value <= 0 {
            assert StatusEvents(Inactive, KeyReadings(lease, ttl));
            return Inactive;
          }
          assert StatusEvents(Active, KeyReadings(lease, ttl));
          return Active;
      }
    }

    /** The key goes under a lease of its own, of the interval rounded up to whole seconds; a lease that gets no key is revoked. */
    method Start(interval: nat, ghost session: nat) returns (ok: bool)
      requires world.Valid() && world.pc == Handled(Holding(session))
      requires interval == world.config.cooldown > 0
      modifies world
      ensures world.Valid() && world.tally == old(world.tally)
      ensures world.pc == if ok then Starting(session) else Unlocking(session, LoopEnds)
      ensures exists events ::
        StartEvents(ok, world.config.CooldownSeconds(), events) && world.trace == old(world.trace) + events
    {
      hide World.Valid, Next, NextInLoop, Counted, StartEvents, NodeConfig.CooldownSeconds;
      var seconds := interval / SECOND;
      if interval % SECOND > 0 {
        seconds := seconds + 1;
      }
      RoundedUp(world.config);
      var granted := world.GrantLease(seconds);
      if granted.None? {
        StartEventsOf(seconds, 0, false);
        assert world.trace == old(world.trace) + [LeaseGranted(seconds, None)];
        return false;
      }
      StartEventsOf(seconds, granted.value, false);
      var put := world.PutCooldown(granted.value);
      if !put {
        var revoked := world.RevokeLease(granted.value);
        StartEventsOf(seconds, granted.value, revoked);
        assert world.trace == old(world.trace) + TakenBack(seconds, granted.value, revoked);
        return false;
      }
      assert world.trace == old(world.trace) + Stored(seconds, granted.value);
      return true;
    }
  }

  lemma AcquireEventsOf()
    ensures AcquireEvents(NotAcquired, [TryLocked(Busy)]) && AcquireEvents(AcquireFailed, [TryLocked(TryFailed)])
    ensures forall session :: AcquireEvents(Acquired(session), Taken(session))
    ensures forall session, unlocked, closed :: AcquireEvents(AcquireFailed, GivenUp(session, unlocked, closed))
  {
  }

  lemma StartEventsOf(seconds: nat, lease: nat, revoked: bool)
    ensures StartEvents(true, seconds, Stored(seconds, lease))
    ensures StartEvents(false, seconds, [LeaseGranted(seconds, None)])
    ensures StartEvents(false, seconds, TakenBack(seconds, lease, revoked))
  {
  }

  lemma RoundedUp(c: NodeConfig)
    ensures c.CooldownSeconds() == c.cooldown / SECOND + if c.cooldown % SECOND > 0 then 1 else 0
  {
  }

  /** The health records; both threads of a node write through it, each in its own world. */
  class HealthStore {
    constructor ()
    {
    }

    method ReportHealthy(world: World, phase: Phase, ghost run: HealthRun) returns (write: WriteReading)
      requires world.Valid() && world.pc == HealthAt(run, Reporting(0)) && phase == run.Phase()
      modifies world
      ensures world.Took(Reported(phase, 0, write))
      ensures Some(world.pc) == NextHealth(world.config, run, Reporting(0), Reported(phase, 0, write))
    {
      hide World.Valid, Next;
      write := world.PutHealth(phase, 0, run);
    }

    method ReportUnhealthy(world: World, phase: Phase, code: int, ghost run: HealthRun) returns (write: WriteReading)
      requires world.Valid() && world.pc == HealthAt(run, Reporting(code)) && phase == run.Phase()
      requires code != 0
      modifies world
      ensures world.Took(Reported(phase, code, write))
      ensures Some(world.pc) == NextHealth(world.config, run, Reporting(code), Reported(phase, code, write))
    {
      hide World.Valid, Next;
      write := world.PutHealth(phase, code, run);
    }

    method Status(world: World, phase: Phase) returns (records: Option<seq<Record>>)
      requires world.Valid() && world.config.inspects
      requires if phase == PreLock then world.pc.InspectPre? else phase == PostLock && world.pc.InspectPost?
      modifies world
      ensures world.Took(Inspected(phase, records))
      ensures Some(world.pc) == Next(world.config, old(world.pc), Inspected(phase, records))
    {
      hide World.Valid, Next;
      records := world.ListHealth(phase);
    }
  }
}
