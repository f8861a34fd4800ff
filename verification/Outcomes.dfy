/** The outcome of one pass, and what it carries to the loop: a lease to give back and a cooldown to start. */
module Outcomes {
  import opened Wrappers
  import opened ClusterPolicy
  import opened Protocol
  import opened Environment
  import opened Managers

  /** What is compared to tell whether an outcome repeats the one before it. */
  datatype Summary = Summary(status: Status, message: string, dryRun: bool, lockAcquired: bool)

  class Outcome {
    var status: Option<Status>
    var message: string
    var dryRun: bool
    var lockAcquired: bool
    var command: seq<string>
    var clusterUnhealthy: seq<Record>
    var lockRelease: Option<nat>
    var cooldownStart: Option<nat>
    var cooldownStarted: bool

    constructor ()
      ensures IsZero()
    {
      status, message, dryRun, lockAcquired, command := None, "", false, false, [];
      clusterUnhealthy, lockRelease, cooldownStart, cooldownStarted := [], None, None, false;
    }

    /** Nothing is set but, maybe, the text and records of a message. */
    predicate IsZero()
      reads this
    {
      && status.None? && !dryRun && !lockAcquired && command == []
      && lockRelease.None? && cooldownStart.None? && !cooldownStarted
    }

    /** The outcome owns nothing. */
    predicate OwnsNothing()
      reads this
    {
      lockRelease.None? && cooldownStart.None?
    }

    /** What the protocol sees of a pass that returned this outcome, or an error with it. */
    function Result(err: bool): PassResult
      reads this
    {
      if err || status.None? then Failed
      else if lockRelease.Some? then Holding(lockRelease.value)
      else Done(status.value, lockAcquired)
    }

    /** An outcome whose lease is to be kept for a reboot says so, and carries the reboot and its cooldown with it. */
    predicate Coherent(c: NodeConfig)
      reads this
    {
      && (if status.Some? && status.value in {Ready, LockSkipped} then dryRun == c.dryRun && command == c.command
          else !dryRun && command == [])
      && (lockRelease.Some? <==> status == Some(Ready) && c.Reboots())
      && (lockRelease.Some? ==> lockAcquired)
      && (cooldownStart == if lockRelease.Some? && c.cooldown > 0 then Some(c.cooldown) else None)
    }

    function ToSummary(): Summary
      reads this
      requires status.Some?
    {
      Summary(status.value, message, dryRun, lockAcquired)
    }

    /** Gives the lease back the first time it is called; an outcome that owns none does nothing. */
    method ReleaseLock(locker: LockManager, ghost next: Then) returns (ok: bool)
      requires locker.world.Valid()
      requires lockRelease.Some? ==> locker.world.pc == Unlocking(lockRelease.value, next)
      modifies this`lockRelease, locker.world
      ensures locker.world.Valid() && locker.world.tally == old(locker.world.tally)
      ensures lockRelease.None?
      ensures if old(lockRelease).Some? then locker.world.pc == AfterRelease(next, ok)
              else ok && locker.world.pc == old(locker.world.pc) && locker.world.trace == old(locker.world.trace)
    {
      hide World.Valid, Next;
      if lockRelease.None? {
        return true;
      }
      var session := lockRelease.value;
      lockRelease := None;
      ok := locker.Release(session, next);
    }

    /** Starts the cooldown the first time it is called, if there is one to start. */
    method StartCooldown(cooldown: CooldownManager, ghost session: nat) returns (ok: bool)
      requires cooldown.world.Valid()
      requires cooldownStart.Some? ==>
        cooldown.world.pc == Handled(Holding(session)) && cooldownStart.value == cooldown.world.config.cooldown > 0
      modifies this`cooldownStart, this`cooldownStarted, cooldown.world
      ensures cooldown.world.Valid() && cooldown.world.tally == old(cooldown.world.tally)
      ensures cooldownStart.None? && cooldownStarted == (old(cooldownStarted) || (old(cooldownStart).Some? && ok))
      ensures if old(cooldownStart).Some?
              then cooldown.world.pc == if ok then Starting(session) else Unlocking(session, LoopEnds)
              else ok && cooldown.world.pc == old(cooldown.world.pc) && cooldown.world.trace == old(cooldown.world.trace)
    {
      hide World.Valid, Next, StartEvents;
      if cooldownStart.None? {
        return true;
      }
      var interval := cooldownStart.value;
      cooldownStart := None;
      ok := cooldown.Start(interval, session);
      if !ok {
        return false;
      }
      cooldownStarted := true;
    }

    /** A second outcome with the same contents, as passing one by value makes. */
    method Copy() returns (copy: Outcome)
      ensures fresh(copy)
      ensures copy.status == status && copy.message == message && copy.dryRun == dryRun
      ensures copy.lockAcquired == lockAcquired && copy.command == command && copy.clusterUnhealthy == clusterUnhealthy
      ensures copy.lockRelease == lockRelease && copy.cooldownStart == cooldownStart && copy.cooldownStarted == cooldownStarted
    {
      copy := new Outcome();
      copy.status, copy.message, copy.dryRun := status, message, dryRun;
      copy.lockAcquired, copy.command, copy.clusterUnhealthy := lockAcquired, command, clusterUnhealthy;
      copy.lockRelease, copy.cooldownStart, copy.cooldownStarted := lockRelease, cooldownStart, cooldownStarted;
    }
  }
}
