# Verification of clusterrebootd

clusterrebootd reboots the nodes of a cluster one at a time. Every node runs a loop of passes; a pass goes through a list
of checks, takes a lock in etcd, goes through most of the checks again, starts a cooldown and runs the reboot command.
This project models that behaviour in Dafny 4.11 and proves what it guarantees, and, where it guarantees less than its
documentation says, by which run it falls short and under which condition it does not.

`dafny verify dfyconfig.toml` checks everything. No file needs anything but the others.

## How the model is built

- **One node as a step system** (`Protocol`). Every read, write and call that leaves the process is an event with whatever
  answer the outside gives; `Next` says where a node is after an event, and `After` where it is after a trace. A heartbeat
  thread is a second start of the same system. `NodeSafety` proves what holds of every trace of one node; `PassOutcome` says
  what every pass comes to by its events alone, which reading decides for which status, and proves that the protocol agrees;
  `Endings` says the same of the ends of both loops.
- **The program text, as classes** (`Environment`, `Managers`, `Outcomes`, `Runner`, `Loop`). `Environment.World` is the
  outside of one thread: each of its methods answers arbitrarily, records the event, and can be called only where the
  protocol allows it whatever the answer. `Runner.RunOnce`, the lock and cooldown clients, `Loop.Run`, the heartbeat
  publisher and the main program around the loop are written as the program runs them, on updated fields, and verified
  against `World`; so each of their executions is a trace of the protocol, and all trace theorems hold of them.
- **The cluster** (`Cluster`, `CooldownSpacing`). Any number of nodes take protocol steps in any order against one store with
  a lock, a cooldown key and leases, and one clock; nodes crash and restart, sessions and leases expire, calls that report an
  error may have taken effect.
- **What the cluster's guarantees depend on** (`Ability`, `RebootPath`, `ClusterRuns`, `SpacingCondition`, `OneAtATime`,
  `WindowTiming`, `AcceptedNodes`). Which configurations can ever reboot; how every one of those does, event by event; and,
  from both, exact conditions on the configurations under which spacing, exclusion and windows hold in all runs, also for
  clusters of configurations that validation accepts.
- **The two health threads** (`HealthThreads`, `HealthFreshness`). Loop and heartbeat of each node, the mutex they share, and
  the health records; every interleaving of two protocol traces that respects the mutex is a run of this system.
- **Cluster policies** (`ClusterPolicy`, `PolicyBounds`, `ReasonOrder`), **the peer log** (`PeerLog`), **the outcome log**
  (`OutcomeLog`), **delays in 64-bit arithmetic** (`Backoff`).
- **The configuration** (`Config`): every default and every check of its validation. `Daemon` puts the program together, from
  the configuration file over its windows to the end of the loop, and says in the fields of the file what its run may do.
- **The window language** (`Text`, `WindowLanguage`, `WindowSyntax`, `WindowParser`, `DayNames`, `WindowText`,
  `WindowGrammar`, `WindowRefusals`, `WindowEvaluator`): the parser as loops over texts, proved against a description of the
  language, whose meaning is arithmetic around the week. `WindowGrammar` says without the parser which texts are windows, and
  which: names of days are spelled out of a list of the seven, letter by letter, and numbers by place value. What the parser
  accepts is exactly that; `WindowRefusals` says for which error it refuses the rest.

Durations are nanoseconds. A week-second counts from Sunday midnight.

## Where the program does less than one might expect

- **Cooldown.** docs/OPERATIONS.md:63-66 promises a cluster-wide interval between reboots. The cooldown is read only before
  the lock, so a node that read it before another node's start reboots right after that node. The interval is kept in every
  run exactly if nobody else is able to reboot beside a node that starts a cooldown (`SpacingCondition.SpacedExactly`). Every
  other cluster has the failing run (`ClusterRuns.EarlyReaderReboots`, `AcceptedNodes.TwoAcceptedNotSpaced`).
- **Cooldown, read late.** A node whose last reading came after the start is not safe either: when a write of the key takes effect
  although it reports an error, the program revokes its lease, and with it goes the cooldown that the write had replaced
  (`ClusterRuns.UntoldWriteClearsCooldown`). Late readers keep the interval in every run exactly if at most one node able to
  reboot has a cooldown (`SpacingCondition.LateSpacedExactly`); within one run of any cluster they do as long as no such write
  happens after the start (`CooldownSpacing.RebootsAreSpaced`). For configurations that validation accepts, both come to the
  same: at most one node ever reboots (`AcceptedNodes.AcceptedSpacedExactly`).
- **One node at a time** (PRD.md:12) holds while the program runs. Once the command has succeeded, the program ends and its lock
  lapses, whether the node is back or not. At most one node is between its command and its restart in every run exactly if at
  most one node is able to reboot (`OneAtATime.RebootsAloneExactly`).
- **Lock.** Nobody watches whether a held session is still alive. Mutual exclusion holds as long as no node loses the session
  it owns while it is up (`Cluster.MutualExclusion`, with `Cluster.NoLiveExpiry` as the assumption); without that assumption
  it holds exactly if there is nobody to exclude (`SpacingCondition.ExclusiveExactly`).
- **Windows** are read once, before the lock. docs/OPERATIONS.md:168-169 lets no reboot start outside them; a command starts
  permitted without a lapse exactly if the seconds since the reading are fewer than were left of the permission
  (`WindowTiming.StartsAsPermitted`), and all commands of all runs start permitted exactly if no node able to reboot has
  windows that deny anything (`WindowTiming.StartsPermittedExactly`, for written windows
  `AcceptedNodes.AcceptedWindowsKeptExactly`).
- **Health records.** The mutex covers the script, not the report after it. A record tells the newest script run of its quiet
  node as long as no script begins beside a report, none fails, every report is written and the node does not crash
  (`HealthFreshness.QuietRecordIsNewest`); whenever a thread is about to report and the mutex is free, some way on ends with a
  record that does not (`HealthFreshness.ReportCanBeOvertaken`).
- **Peer events.** A snapshot with contradicting records of one peer is logged with loss, and only such a one:
  `PeerLog.LosslessWhenConsistent`.
- **Policies.** The fraction never decides anything (`ClusterPolicy.FractionAddsNothing`): without an unhealthy peer all
  counted nodes are healthy. The decision ignores the order in which records are listed (`ClusterPolicy.DecisionIgnoresOrder`);
  the reported reasons do not (`ReasonOrder.ReasonsFollowOrder`). Those that follow from counts ignore it exactly if no two
  records of one peer contradict each other, all of them exactly if, besides, no two different unhealthy peers are listed
  (`ReasonOrder.CountsIgnoreOrderExactly`, `ReasonOrder.ReasonsIgnoreOrderExactly`).
- **A node counts itself as healthy**, so the policy bounds include the node that is about to reboot, while
  docs/OPERATIONS.md:67-70 promises minimum healthy nodes and fallback protection. Those left miss a bound exactly if all
  nodes only just make it (`PolicyBounds.BoundsWithoutThisNode`); whatever may be listed, they keep the minimum exactly if it
  is zero, or one where the node is a fallback node that must not be alone (`PolicyBounds.MinimumKeptExactly`), the fraction
  exactly if it leaves out one of the fewest nodes that suffice (`PolicyBounds.FractionKeptExactly`), and are never fallback
  nodes only, where that is forbidden, exactly if the node is one itself, or there are none or too few
  (`PolicyBounds.NotOnlyFallbackKeptExactly`). That a healthy fallback node stays (PRD.md:106) no policies see to
  (`PolicyBounds.NoFallbackKept`).
- **Delays.** Doubling wraps at 64 bits. The lock delay stays in bounds all the same, but its ceiling falls back to the
  minimum once the product no longer fits, and exactly then, save for minimum delays of which not even the double fits
  (`Backoff.CeilingNeverFallsExactly`); within the five attempts the program makes, that takes a minimum of more than 36
  years, which validation accepts (`Config.Config.AcceptedCeilings`, `Config.Config.LongBackoffFalls`). The error backoff is
  the doubled minimum cut at the maximum exactly when the maximum is below 2^62 ns or equals the minimum
  (`Backoff.ErrorBackoffClosedForm`).

## Model

| member | source | states |
|---|---|---|
| Loop.CommandRun | cmd/clusterrebootd/main.go:300-347 | Whatever the outside answers, the command's run is a protocol trace to an end: every started reboot command is the configured one, not empty, and passed all gates in order, every retry delay lies between the minimum and the backoff after the failures in a row, and unless the reboot command succeeded every lock session was released and closed exactly as often as granted; logged outcomes are the recorded ones without repetitions |
| Daemon.Run | cmd/clusterrebootd/main.go:87-347 | The program on any configuration file: it runs exactly if what the file gives is acceptable and each of its windows is; then its run is all that Loop.CommandRun says. Every reboot command it starts is the file's, wanted by file and call; its pass has, before and under the lock, the switch off, a reboot needed, listed records on which the file's policies do not block and a health script that ended with zero, then the lock, a reading at a moment the written windows permit, the cooldown over and a new one granted for the file's interval. Every other pass comes to what its last reading says, windows and policies being the file's and the attempts five; and every wait is as long as the file has it |
| Daemon.WantedOne | pkg/orchestrator/runner.go:389-611 | Behind one reboot command of a configuration that runs, whatever trace it is part of: the checks of its pass in the fields of the file |
| Daemon.WrittenOne | pkg/orchestrator/runner.go:389-571 | What a status decided by a pass says of the file: denied or outside exactly where its written windows forbid the second read, blocked exactly where its script failed or its policies block on the records listed, unavailable exactly after five contended attempts, and the lock is never skipped |
| Daemon.RebootWasPermitted | pkg/orchestrator/runner.go:400-413 | If windows are written at all, every reboot of any trace has in its pass a reading at a second they permit |
| Loop.RunCommand | cmd/clusterrebootd/main.go:320-347 | After the loop the kept copy of the last outcome releases nothing: it owns no lease when the loop ended without error and nothing was executed; `executed` is true exactly when the loop ended in a reboot |
| Loop.EndIsFinal | cmd/clusterrebootd/main.go:320-345 | No trace goes on past the end of the loop: what was given back is not given back again |
| Loop.IterationHook.Observe | cmd/clusterrebootd/main.go:304-310 | The hook keeps a separate copy of the outcome, its status, texts, command and the lease it then owned, and counts it |
| Loop.TrackingExecutor.Execute | cmd/clusterrebootd/main.go:698-709 | The command handed over, which is the configured one, is started and ends; the flag is set exactly by one that succeeded, a failed one leaves the lease to be released |
| Loop.Loop.constructor | pkg/orchestrator/loop.go:82-130 | Whatever is asked for, 0 < min <= max and a positive interval result; sensible ones are kept, absent ones are 5 s and 1 min and the check interval, or a minute where that is no time at all |
| Loop.Loop.Run | pkg/orchestrator/loop.go:133-201 | The loop ends only where the protocol ends, has executed exactly when it ends in a reboot, the configured command having been started last, keeps its backoff in step with the failed passes in a row, and hands on exactly the outcomes that were recorded |
| Loop.Loop.Iterate | pkg/orchestrator/loop.go:145-199 | One pass and its handling: a failed pass is retried after a delay, any other outcome restarts the backoff, goes to the hook, and ends in a reboot, a dry run, an error or the next round |
| Loop.Loop.HandOn | pkg/orchestrator/loop.go:160-164 | A pass without an error restarts the backoff and goes to the hook, once |
| Loop.Loop.Retry | pkg/orchestrator/loop.go:145-160 | After an error the delay lies within the bounds that the number of failures in a row sets, and the loop goes on unless cancelled |
| Loop.Loop.Reboot | pkg/orchestrator/loop.go:166-190 | A ready outcome ends the loop: dry runs own nothing, a failed cooldown start or command gives the lease back, a successful command keeps it; what is executed is the command of the outcome, never an empty one |
| Loop.Loop.Pause | pkg/orchestrator/loop.go:192-198 | Any other outcome owns nothing, so its release does nothing, and the loop waits its interval |
| Loop.Loop.NextErrorDelay | pkg/orchestrator/loop.go:203-230 | The backoff grows as specified for a further failure; the delay is the minimum, or the minimum plus one draw whose bound is exactly the distance to the backoff plus one, always positive |
| Loop.HealthPublisher.Run | pkg/orchestrator/health_publisher.go:71-103 | The heartbeat is a protocol trace that ends only by cancellation, waits its interval after every round and hands no outcome on |
| Runner.Runner.RunOnce | pkg/orchestrator/runner.go:378-614 | The outcome says what the protocol says of the pass, and what its last reading decides for (PassOutcome.Decides), or the pass has a failure among its events; a pass with an error, also of its deferred release, owns nothing and is not recorded; any other is recorded once, in its own status, message, dry run and lock |
| Runner.Runner.RunLocked | pkg/orchestrator/runner.go:503-613 | From the first attempt on the lock: a lease that is not handed on is given back whatever came of the pass |
| Runner.Runner.CheckBeforeLock | pkg/orchestrator/runner.go:389-501 | A pass up to the lock: an outcome decided here owns nothing, and only a pass that came through all checks tries the lock |
| Runner.Runner.CheckAllowed | pkg/orchestrator/runner.go:389-413 | Kill switch, then windows: stopped exactly by what was read last, a switch that is on or cannot be read, or a second that a deny window covers or no allow window does, with that status |
| Runner.Runner.CheckRequired | pkg/orchestrator/runner.go:415-435 | Detectors, and the monitoring health run when they need no reboot: no action only after that run ended with zero, blocked after any other exit code, an error after a failure |
| Runner.Runner.CheckPolicies | pkg/orchestrator/runner.go:437-446 | Blocks exactly when the policies block on the listed records, with their reasons as message and the unhealthy peers as blockers, before and under the lock |
| Runner.Runner.CheckHealthAndCooldown | pkg/orchestrator/runner.go:448-501 | Health, cooldown and disabled lock before the lock is tried |
| Runner.Runner.CheckUnderLock | pkg/orchestrator/runner.go:523-566 | Kill switch, policies, detectors and health again under the lock; every failing check leaves the lease to be released |
| Runner.Runner.CheckStillRequired | pkg/orchestrator/runner.go:545-566 | Detectors and health under the lock, the script told that the lock is held and after how many attempts |
| Runner.Runner.MakeReady | pkg/orchestrator/runner.go:568-611 | The outcome takes the lease over exactly when a reboot is to follow, with the cooldown to start if there is one |
| Runner.Runner.AcquireLock | pkg/orchestrator/runner.go:652-697 | Ends holding the lock after the counted attempts, or unavailable after the last contended one, or failed; between attempts it waits within the attempt's bounds |
| Runner.Runner.NextBackoffDelay | pkg/orchestrator/runner.go:699-720 | For every attempt and 0 < min <= max the delay lies between min and the attempt's ceiling, and any draw has the positive bound ceiling - min + 1 |
| Runner.Runner.RunHealthAndUpdate | pkg/orchestrator/runner.go:759-789 | The script runs between taking and releasing the mutex and the report follows after, if there is one; the result leads where the protocol says for each of the four purposes |
| Runner.Runner.PublishHeartbeat | pkg/orchestrator/runner.go:803-809 | Does nothing without publishing; otherwise one heartbeat health run, after which only cancellation stops the thread |
| Runner.Runner.InspectClusterHealth | pkg/orchestrator/runner.go:862-876 | One inspection, after which the peer log still replays to the tracked peers, and these are the peers listed, each as its last record has it; a failed listing finds every peer missing |
| Runner.Runner.RecordClusterHealthStatus | pkg/orchestrator/runner.go:1030-1035 | Every inspection keeps: as long as no snapshot contradicted itself, replaying all peer events from nothing gives the tracked peers; these are the peers listed, or none when nothing was attempted |
| Runner.Runner.UpdateClusterPeerStates | pkg/orchestrator/runner.go:1073-1123 | Tracks exactly the trimmed visible names but its own, each healthy or not, with the stage and reason of the last record under it; reports, in order, exactly the records that differ from what was tracked, in these three fields, and one missing event per vanished peer; says changed exactly when it emitted something |
| Runner.Runner.EmitMissing | pkg/orchestrator/runner.go:1111-1119 | Exactly one event for each tracked peer that is gone, in whatever order |
| Runner.Runner.RecordOutcome | pkg/orchestrator/runner.go:1680-1740 | Logs nothing exactly when status, message, dry run and lock all equal those of the outcome recorded before, else one entry with exactly these four; the counter counts every recorded outcome, and the log is the record with adjacent repeats removed |
| Outcomes.Outcome.ReleaseLock | pkg/orchestrator/runner.go:86-93 | Releases the lease at the first call and does nothing ever after |
| Outcomes.Outcome.StartCooldown | pkg/orchestrator/runner.go:95-106 | Starts the cooldown at most once and notes exactly a successful start |
| Outcomes.Outcome.Copy | cmd/clusterrebootd/main.go:309 | A copy shares nothing with its original: releasing one leaves the other's fields alone |
| Managers.LockManager.Acquire | pkg/lock/etcd_manager.go:125-164 | The lock is held on success only, granted and annotated; a lock that was granted but not annotated is unlocked and its session closed, in this order |
| Managers.LockManager.Release | pkg/lock/etcd_manager.go:174-198 | Unlocks and then closes the session in any case, and succeeds exactly when both did |
| Managers.CooldownManager.Status | pkg/cooldown/etcd.go:92-155 | Active exactly when the key was read to be there and its lease, if any, to have time left; what was read is exactly that |
| Managers.CooldownManager.Start | pkg/cooldown/etcd.go:158-204 | The key is put under a new lease of the interval rounded up to seconds; a lease whose key was not written is revoked, and nothing else is written |
| Managers.HealthStore.ReportHealthy | pkg/clusterhealth/etcd.go:100-124 | One write of the node's record for a script that exited with zero |
| Managers.HealthStore.ReportUnhealthy | pkg/clusterhealth/etcd.go:127-153 | One write of the node's record for any other exit code, with its phase |
| Managers.HealthStore.Status | pkg/clusterhealth/etcd.go:156-201 | One listing of all records, or a failure |
| Environment.RunFollowsProtocol | pkg/orchestrator/loop.go:133-201 | Whatever happens through the outside of a thread is a trace the protocol accepts, ending where the thread stands |
| Environment.World.RunScript | pkg/orchestrator/runner.go:759-778 | The script runs strictly between taking and releasing the mutex |
| Environment.DelaysFitMeaning | pkg/orchestrator/loop.go:203-234 | The tally the loop keeps says of every retry delay in a trace that it lies between min and the backoff after the failures in a row before it |
| NodeSafety.RebootPassedAllGates | pkg/orchestrator/runner.go:389-571 | Whenever the reboot command starts, the checks its pass came through are exactly all gates, each once and in order: kill switch, window, detectors, policies, health, cooldown, lock, then kill switch, policies, detectors, health again, and the cooldown started |
| NodeSafety.LadderStep | pkg/orchestrator/runner.go:389-571 | Every step of a node keeps: a pass that still leads to a reboot has passed exactly the gates behind it |
| PassOutcome.StatusIsDecided | pkg/orchestrator/runner.go:389-611 | The status handed on is the one, and the only one, that the last reading of its pass decides for: the switch on; a second denied, or outside; no reboot needed and the monitoring script ended with zero; a script that did not, or records that block; a cooldown present with time left; the last attempt contended; the lock disabled after the check before it; cleared under the lock; the script under the lock ended with zero. No event of the pass is a failure |
| PassOutcome.FailureIsTold | pkg/orchestrator/loop.go:145-164 | The loop waits as after an error exactly after a pass with a failure among its events |
| PassOutcome.VerdictsAreReported | pkg/orchestrator/runner.go:780-789 | When a pass ends, each verdict of its script has been reported once and as it was, where health is published; nothing is reported otherwise |
| PassOutcome.HeartbeatIsTold | pkg/orchestrator/runner.go:803-809 | A round of the heartbeat that comes to its wait has run the script in its own phase and reported what it said, or nothing at all where health is not published |
| PassOutcome.CooldownIsBegun | pkg/orchestrator/loop.go:171-179 | Before a reboot command that has a cooldown to start, its pass was granted a lease of the interval rounded up to seconds, and put the key under that lease |
| PassOutcome.DelayFitsTries | pkg/orchestrator/runner.go:673-696 | The delay after a contended attempt lies within the bounds for the number of attempts its pass has made, and there is none after the last |
| Endings.LoopEndsExactly | pkg/orchestrator/loop.go:133-201 | The loop has ended exactly when its last event is a cancellation, before a pass or in a wait, a ready outcome that is not to reboot, a reboot command that succeeded, or the second step of giving the lease back after a pass was handed on, which follows a failed cooldown start or command |
| Endings.HeartbeatEndsExactly | pkg/orchestrator/health_publisher.go:71-103 | The heartbeat has ended exactly when its last event is a cancellation, before a round, in its wait, in its report, or in its script, seen when the mutex is released; it survives every other failure |
| NodeSafety.SessionsConserved | pkg/orchestrator/runner.go:514-521 | In every trace each lock session is unlocked as often as granted and closed as often as unlocked, up to the one the node now owns or is closing |
| NodeSafety.PassBeginsOwingNothing | pkg/orchestrator/loop.go:138-146 | Each pass begins with every earlier session released and closed |
| NodeSafety.EndsOwingOnlyAfterReboot | pkg/orchestrator/loop.go:166-190 | The loop ends with an unreleased session only if its last event is the success of the reboot command |
| Cluster.MutualExclusion | pkg/lock/etcd_manager.go:125-197 | For any number of nodes and any interleaving with crashes and expiries of dead holders' sessions, at most one node is between being granted the lock and trying to give it back |
| Cluster.StepKeepsInv | pkg/lock/etcd_manager.go:125-197 | The invariant behind it survives every step: sessions of nodes are distinct and older than the next one, and an owned session holds the lock |
| Cluster.ExecutingPassedAllGates | pkg/orchestrator/runner.go:389-571 | In every reachable cluster state a node that executes came through all gates in this pass |
| CooldownSpacing.RebootsAreSpaced | pkg/orchestrator/runner.go:460-489 | A reboot whose last cooldown reading came after a successful start, with no untold write since, begins no earlier than the interval after that start's lease was granted, less the second a reading of the remaining time is cut by |
| CooldownSpacing.StepShielded | pkg/cooldown/etcd.go:158-204 | Once started, the key stays under a lease that covers the interval until it is over, across every step that is not an untold write |
| SpacingCondition.SpacedExactly | pkg/orchestrator/runner.go:460-489 | In every run without the expiry of a live session every reboot of a later pass keeps the interval, less a second, from every start, exactly when no other node is able to reboot beside an able node with a cooldown |
| SpacingCondition.SpacedExactlyWhenOneAble | pkg/orchestrator/runner.go:583-598 | In a cluster whose nodes all have a cooldown: exactly when at most one node is able to reboot |
| SpacingCondition.LateSpacedExactly | pkg/orchestrator/runner.go:460-489 | In every such run every reboot of a node with a cooldown that read it after a start keeps the interval, less a second, from that start, exactly when at most one node able to reboot has a cooldown |
| SpacingCondition.KeptSince | pkg/cooldown/etcd.go:158-204 | Where only one able node has a cooldown, it is held back from its start on, in every run: in the pass of that start, or before the check of a later one, or the interval is over but for a second |
| SpacingCondition.ExclusiveExactly | pkg/lock/etcd_manager.go:132-164 | Whatever becomes of sessions, at most one node runs its command in every run exactly when at most one is able to reboot |
| OneAtATime.RebootsAloneExactly | cmd/clusterrebootd/main.go:320-347 | At most one node is between its reboot command and its restart, in every run without the expiry of a live session, exactly when at most one is able to reboot |
| ClusterRuns.SecondRebootsMeanwhile | cmd/clusterrebootd/main.go:320-347 | Every cluster with two able nodes has a run in which the second starts its command while the first, down after its own, has not restarted |
| Ability.OnlyAbleNodesAct | pkg/orchestrator/runner.go:389-571 | Whoever starts a cooldown or a command, in whatever run, takes locks, reboots, has windows that permit some second and policies that pass on some records |
| AcceptedNodes.AcceptedAble | pkg/config/config.go:122-203 | An accepted configuration is able to reboot exactly when it is no dry run and its written windows permit some second |
| AcceptedNodes.AcceptedSpacedExactly | pkg/config/config.go:367-372 | A cluster of accepted configurations keeps its common interval in every run, be the cooldown read early or late, and reboots one node at a time until it is back, exactly when at most one of its nodes ever reboots |
| AcceptedNodes.AcceptedWindowsKeptExactly | pkg/orchestrator/runner.go:400-413 | Every command of every run of such a cluster starts at a second the written windows permit exactly when the windows of every node that ever reboots permit every second |
| AcceptedNodes.TwoAcceptedNotSpaced | pkg/orchestrator/runner.go:460-489 | Any two accepted configurations with different names, no dry run and windows that permit some second have a run in which one reboots in the instant of the other's start |
| ClusterRuns.EarlyReaderReboots | pkg/orchestrator/runner.go:460-489 | Every cluster with two able nodes, one with a cooldown, has a run without any live session expiring in which the other reboots in the instant of its start |
| ClusterRuns.UntoldWriteClearsCooldown | pkg/cooldown/etcd.go:192-201 | Every cluster with two able nodes with cooldowns has a run in which a node's last reading of the cooldown comes after its start and it still reboots at once, because taking back another node's write cleared it |
| ClusterRuns.LateReaderReboots | pkg/orchestrator/runner.go:460-489 | Every able node with a cooldown has a run that meets every condition of the spacing theorem |
| ClusterRuns.LiveExpiryBreaksExclusion | pkg/lock/etcd_manager.go:132-164 | Every cluster with two able nodes has a run in which a live node's session expires and both execute the command together |
| WindowTiming.StartsAsPermitted | pkg/orchestrator/runner.go:400-413 | Behind every start of a command lies a permitted reading in the same pass, and permission has not lapsed since exactly if the seconds between are fewer than were left of it |
| WindowTiming.StartsPermittedExactly | pkg/orchestrator/runner.go:400-413 | Every command of every run starts at a permitted second exactly when no node able to reboot has windows that deny one |
| WindowTiming.LeftMeaning | pkg/windows/windows.go:86-110 | Every second up to a later one is permitted exactly when fewer pass than are left, counted around the week, or nothing is ever denied |
| ClusterRuns.DeniedStart | pkg/orchestrator/runner.go:400-413 | Every able node can start its command at any second, also one its windows deny |
| HealthThreads.OneScriptAtATime | pkg/orchestrator/runner.go:759-778 | However the threads interleave and nodes crash, no node runs two health scripts at once |
| HealthThreads.EntriesTellRuns | pkg/clusterhealth/etcd.go:100-153 | Every record is under its own node and tells the verdict of a script run of that node that ended |
| HealthFreshness.QuietRecordIsNewest | pkg/orchestrator/runner.go:780-789 | As long as no script of a node begins beside a report of it, none fails, every report is written and the node does not crash, its record tells the newest run whenever both its threads are quiet |
| HealthFreshness.ReportCanBeOvertaken | pkg/orchestrator/runner.go:780-789 | From every reachable state with a thread about to report and the mutex free, some way on ends with both threads quiet and a record that does not tell the newest run |
| HealthFreshness.EntryCanBeStale | pkg/orchestrator/runner.go:780-789 | So does a run from the beginning |
| HealthThreads.InterleavingIsRun | pkg/orchestrator/runner.go:759-791 | Two protocol traces of one node, beginning anew after each crash and interleaved so that neither takes the mutex from the other, are a run of this system that shows both threads where the traces leave them |
| HealthThreads.EachIsTrace | pkg/orchestrator/health_publisher.go:71-103 | What either thread does in an interleaving since the last crash is a trace of the protocol |
| HealthThreads.RoundsAreWaited | pkg/orchestrator/loop.go:197-199 | After every round of any trace the loop waits its check interval, or a minute where that is no time at all, and the heartbeat its publish interval |
| HealthThreads.SeenStep | pkg/orchestrator/health_publisher.go:71-103 | Every protocol step of either thread is a step of this thread system, the beginning of a health run, or none of its events |
| ClusterPolicy.EvaluateClusterPolicies | pkg/orchestrator/runner.go:878-952 | Blocks, and reports reasons and unhealthy peers, as the counts of distinct trimmed names demand |
| ClusterPolicy.CountNodes | pkg/orchestrator/runner.go:895-926 | The three counters are the sizes of the sets of named, healthy and healthy non-fallback nodes, this node always healthy |
| ClusterPolicy.FilterClusterRecords | pkg/orchestrator/runner.go:811-829 | Keeps exactly the unhealthy records of other nodes, in order |
| ClusterPolicy.FallbackSet | pkg/orchestrator/runner.go:885-893 | The set of trimmed, non-blank fallback names |
| ClusterPolicy.DecisionBySet | pkg/orchestrator/runner.go:878-952 | The decision in terms of the set of names alone: a peer is down, too few nodes are named, or only fallback nodes are |
| ClusterPolicy.HealthyMeaning | pkg/orchestrator/runner.go:895-926 | Counted as healthy are this node, if it has a name, and every other visible name whose first record says so |
| ClusterPolicy.ReasonsTell | pkg/orchestrator/runner.go:928-951 | Each reason is given exactly when it holds, with the numbers it holds for, once and in this order: unhealthy peers, minimum, fraction, fallback |
| ClusterPolicy.RequiredIsLeast | pkg/orchestrator/runner.go:935-942 | A number of nodes reaches the required one exactly when it is at least the fraction of all |
| ClusterPolicy.DecisionIgnoresOrder | pkg/orchestrator/runner.go:878-952 | Lists with the same records, in any order and multiplicity, even contradicting ones, give the same decision |
| ReasonOrder.CountsIgnoreOrderExactly | pkg/orchestrator/runner.go:910-946 | The reasons that follow from counts are the same in every order of the records, whatever valid policies ask for, exactly when no two records of another node contradict each other |
| ReasonOrder.ReasonsIgnoreOrderExactly | pkg/orchestrator/runner.go:878-952 | All reasons are, exactly when besides no two records of unhealthy peers differ: these are reported in the order they are listed in |
| ReasonOrder.ReasonsFollowOrder | pkg/orchestrator/runner.go:910-926 | Two contradicting records of a peer, listed in two orders, for which the reported reasons differ |
| PolicyBounds.BoundsWithoutThisNode | pkg/orchestrator/runner.go:901-946 | Where a named node is not held back, the nodes without it keep the minimum, or the fraction, exactly unless all named nodes are exactly as many as it demands; they are fallback nodes only exactly if they are all the fallback nodes named |
| PolicyBounds.MinimumKeptExactly | pkg/orchestrator/runner.go:928-933 | They keep the minimum in every listing exactly if it is absent or 0, or is 1 with a sole fallback node forbidden and the node a fallback node |
| PolicyBounds.FractionKeptExactly | pkg/orchestrator/runner.go:935-942 | They keep the fraction in every listing exactly if the fraction of the fewest nodes that suffice is at least one node less than these |
| PolicyBounds.NotOnlyFallbackKeptExactly | pkg/orchestrator/runner.go:944-946 | Where that is forbidden, they are fallback nodes only in no listing exactly if the node is one itself, there are none, or the minimum is out of their reach |
| PolicyBounds.NoFallbackKept | pkg/orchestrator/runner.go:944-946 | Every valid policies let a named node reboot on some listing that leaves nodes, but no fallback node |
| ClusterPolicy.FractionAddsNothing | pkg/orchestrator/runner.go:935-942 | Removing a fraction of at most one changes no decision |
| ClusterPolicy.FractionAboveOneBlocks | pkg/config/config.go:325-328 | A fraction above one, which validation rejects, would always block a named node |
| ClusterPolicy.HealthyPeerAddsNoBlock | pkg/orchestrator/runner.go:895-946 | One more healthy record makes an allowed decision a blocked one exactly when nobody was named before, and the new node is a forbidden sole fallback; never for a node with a name |
| PeerLog.SnapshotReplay | pkg/orchestrator/runner.go:1073-1123 | A reader who knew the tracked peers before an inspection knows them after reading its events |
| PeerLog.LosslessWhenConsistent | pkg/orchestrator/runner.go:1073-1123 | A snapshot is logged without loss, whatever was tracked before, exactly when no peer contradicts itself in it |
| PeerLog.ContradictionIsLost | pkg/orchestrator/runner.go:1081-1109 | For every contradicting snapshot there are tracked peers for which the log misleads its reader |
| PeerLog.TrackedAsListed | pkg/orchestrator/runner.go:1081-1092 | The tracked names are exactly the trimmed visible ones but this node's own, each with the health, stage and reason of its last record |
| PeerLog.ReportsTell | pkg/orchestrator/runner.go:1094-1109 | The reports tell, in order and in these three fields, exactly the records that differ from what was tracked of their name, together with that |
| OutcomeLog.LogTellsHistory | pkg/orchestrator/runner.go:1702-1707 | The log determines the history up to repetition: each recorded outcome stands at a known entry, which moves on exactly where the outcome changes |
| OutcomeLog.NoAdjacentRepeats | pkg/orchestrator/runner.go:1702-1707 | No logged outcome repeats the one before it |
| Backoff.CeilingMeaning | pkg/orchestrator/runner.go:699-713 | The lock delay's ceiling lies in [min, max] for every attempt, is min(max, min * 2^attempt) as long as that fits 64 bits, and is min from attempt 63 on |
| Backoff.CeilingGrows | pkg/orchestrator/runner.go:699-713 | Without wrap-around the ceiling never falls |
| Backoff.CeilingNeverFallsExactly | pkg/orchestrator/runner.go:699-713 | Up to the attempt after n it never falls exactly when min * 2^n fits 64 bits, or the bounds coincide, or twice the minimum does not fit and no product before that attempt, cut to 64 bits, is above it |
| Backoff.FallsAfter | pkg/orchestrator/runner.go:699-713 | At the first attempt whose product does not fit, it is back at the minimum, having been above |
| Backoff.LockBounds | pkg/orchestrator/runner.go:652-659 | The bounds satisfy 0 < min <= max whatever was configured, and are the configured ones where these do and fit |
| Backoff.ErrorBackoffBounded | pkg/orchestrator/loop.go:203-217 | After any number of failures in a row the backoff lies in [min, max] |
| Backoff.ErrorBackoffClosedForm | pkg/orchestrator/loop.go:203-217 | It is min(max, min * 2^(k-1)) after every k failures exactly when max < 2^62 or min = max |
| Config.Config.Decode | pkg/config/config.go:104-120 | A file is accepted exactly when what it gives is acceptable, whatever it leaves out; each default is filled in exactly where nothing was given, and all else stays |
| Config.Minimal | pkg/config/config.go:205-239 | A file that names only the node, its detectors, its health script and its endpoints is accepted exactly when both names are visible, there is a detector and each is valid, and there is an endpoint |
| Config.Config.Validate | pkg/config/config.go:122-203 | Reports every problem there is and no other, once and in the order of the checks |
| Config.Config.AcceptedRuns | pkg/config/config.go:342-372 | A configuration without problems makes a node the protocol can run, with its name, policies, windows, command and dry run, that inspects and reports health and makes five attempts on the lock, with the configured delays, intervals and cooldown as far as they fit 64 bits |
| Config.Config.AcceptedCeilings | pkg/config/config.go:357-359 | Over the five attempts of an accepted configuration, its bounds being what 64 bits make of them, the delay ceilings never fall exactly when eight times the minimum fits 64 bits, or the bounds coincide, or twice the minimum does not fit and four times it, cut to 64 bits, is not above it |
| Config.Config.LongBackoffFalls | pkg/config/config.go:357-359 | An accepted configuration for which they do fall, from the third delay to the fourth |
| Config.Config.AcceptedPolicies | pkg/config/config.go:323-339 | Its policies decide on the set of records, without regard to the fraction, and never block for one more healthy record |
| WindowLanguage.IntervalsMeanWindow | pkg/windows/windows.go:139-185 | The stored intervals hold a week-second exactly when it lies, counted around the week, less than the window's length after the start on some start day; equal end points mean a full day or, with an end day, a full week |
| WindowLanguage.IntervalsShape | pkg/windows/windows.go:148-185 | Each interval is within the week and not empty, they are pairwise disjoint, and their total length is start days times window length |
| WindowLanguage.ContainsPlainly | pkg/windows/windows.go:139-185 | What a window holds, day by day and time by time: without an end day the times of its days between start and end, past midnight into the next day if the end is not later; with one, all from start to end going around the week |
| WindowSyntax.AcceptedIsValid | pkg/windows/windows.go:123-186 | Every accepted expression is a proper window: start days without repetition, times within the day, one start day when there is an end day |
| WindowSyntax.DaySpecUnique | pkg/windows/windows.go:234-292 | An accepted day specification gives at least one day and none twice |
| WindowSyntax.DayRangeMeaning | pkg/windows/windows.go:314-328 | A day range holds exactly the days met going forward from its first to its last, ((last - first) mod 7) + 1 of them, none twice |
| DayNames.DayNameExactly | pkg/windows/windows.go:294-312 | A text is read as a day exactly when it is, white space around it aside and each letter in either case, the name of that day, its first three letters, or one of tues, weds, thur and thurs |
| WindowGrammar.EveryDayIsRead | pkg/windows/windows.go:279-286 | Every day of the calendar, by its full name or the first three letters of it in any letter case and with white space around it, is read as that day alone |
| WindowGrammar.ReadDayBegins | pkg/windows/windows.go:294-312 | Conversely, whatever is read as a day begins, white space aside, with the first three letters of its name in either case |
| WindowParser.ExpandDayRange | pkg/windows/windows.go:314-328 | The loop over the days terminates with that range |
| WindowParser.ParseDaySpec | pkg/windows/windows.go:234-292 | Gives the first occurrences of the days of all parts in order, or the error of the first bad part; which texts these are is WindowGrammar.DaysExactly |
| WindowText.ReadItem | pkg/windows/windows.go:253-287 | A day or a range of days of the calendar, in any spelling and letter case and with white space around its words, is read as its days |
| WindowGrammar.PartExactly | pkg/windows/windows.go:253-287 | A part of a day list is read as some days exactly when it is a day or a range, written, of these |
| WindowRefusals.PartRefused | pkg/windows/windows.go:253-282 | A part of a day list is refused exactly when it is blank, or for the first name in it, around its first dash if it has one, that is no day |
| WindowText.ReadStart | pkg/windows/windows.go:192-211 | The start side, as written with or without days, is read as its days, every day when none are written, and its time |
| WindowText.ReadEnd | pkg/windows/windows.go:213-232 | The end side is read as its time, and as days only if some are written |
| WindowParser.SpanIntervals | pkg/windows/windows.go:155-166 | The intervals of a window with an end day; the loop that moves the end past the start ends after at most one week |
| WindowParser.DailyIntervals | pkg/windows/windows.go:169-185 | The intervals of every start day, in order, split where they pass the end of the week |
| WindowParser.ParseExpression | pkg/windows/windows.go:123-186 | Accepts exactly the expressions that describe a window, with the error the description gives otherwise, and returns that window's intervals; which texts these are is WindowGrammar.WindowExactly |
| WindowText.SidesOfWritten | pkg/windows/windows.go:123-137 | In every written window the dash between the times is found, whatever dashes its day ranges have |
| WindowGrammar.SidesExactly | pkg/windows/windows.go:123-137 | An expression is parted exactly at the first dash after its first colon, into two sides that are not blank, white space around each taken away |
| WindowRefusals.SidesRefused | pkg/windows/windows.go:123-137 | An expression has no two sides exactly when a colon is missing, or a dash after the first one, or all text after that dash |
| WindowText.ReadDays | pkg/windows/windows.go:234-292 | Every day list, range or star of days of the calendar, in any spelling and with white space around every word, is read as these days, each once |
| WindowGrammar.DaysExactly | pkg/windows/windows.go:234-292 | A text is read as some days exactly when it is a star or a list of items, written, of these, each once |
| WindowRefusals.DaysRefused | pkg/windows/windows.go:234-292 | Days are refused exactly when there are none, or for the first part of them that is, and never for coming to nothing |
| WindowText.DaysRejoined | pkg/windows/windows.go:193-205 | Splitting written days into words and joining them with single spaces leaves the same days written |
| WindowText.ReadClock | pkg/windows/windows.go:330-350 | Every HH:MM is read as its seconds |
| WindowGrammar.TimeExactly | pkg/windows/windows.go:330-350 | A text is read as a time exactly when it is two numbers around the only colon, an hour below 24 and a minute below 60, by their place values, signs and leading zeros allowed |
| WindowRefusals.TimeRefused | pkg/windows/windows.go:330-350 | A text with one colon is refused as a time exactly for the first thing wrong with the numbers around it: no hour, no minute, hour out of range, minute out of range |
| WindowRefusals.NoTimeRefused | pkg/windows/windows.go:331-334 | A text with no colon or with several is refused as no time at all, and only such a text |
| WindowText.ReadWritten | pkg/windows/windows.go:123-153 | Round trip: a window written with days of the calendar, with white space wherever words are, is read as these days, its times and end day, and refused exactly when its end day is not one day or goes with other than one start day |
| WindowGrammar.WindowExactly | pkg/windows/windows.go:123-186 | An expression is read as a window exactly when the grammar, which does not mention the parser, says that it describes that window |
| WindowGrammar.ExpressionExactly | pkg/windows/windows.go:49-62 | Of an expression in a list, with white space around it, the evaluator keeps exactly the window that the grammar gives it |
| WindowGrammar.CoversExactly | pkg/windows/windows.go:86-110 | An expression covers a week-second, in what the decision is stated by, exactly when the grammar says that it describes a window that holds it |
| WindowEvaluator.Moment.SecondsSinceWeekStart | pkg/windows/windows.go:116-121 | The week-second of a moment gives back its day and its time |
| WindowEvaluator.Evaluator.Evaluate | pkg/windows/windows.go:86-110 | Decides as specified, first match first |
| WindowEvaluator.ParseList | pkg/windows/windows.go:49-62 | The intervals of all expressions in order, each with its text, or the error of the first bad one with its index |
| WindowEvaluator.NewEvaluator | pkg/windows/windows.go:46-84 | Deny list before allow list; no evaluator when both are empty |
| WindowEvaluator.AcceptedEach | pkg/windows/windows.go:46-84 | A list is accepted exactly when each of its expressions is |
| WindowEvaluator.FirstBadIsTold | pkg/windows/windows.go:49-62 | A refused list tells the first of its expressions that is refused, its index and why |
| WindowEvaluator.DecisionMeansWindows | pkg/windows/windows.go:86-110 | A moment is allowed exactly when no deny window covers it and, if there are allow windows, one of them does |
| WindowEvaluator.MatchIsFirstCovering | pkg/windows/windows.go:90-106 | The reported match is the first expression that covers the moment |
| WindowEvaluator.OrderDoesNotMatter | pkg/windows/windows.go:86-110 | Reordering or repeating expressions changes no decision |

## Left out

- Cluster.MutualExclusion: assumes that the session of a node that is up does not expire, which the store's keep-alive is there for and the program does not watch.
- Runner.Runner.RunOnce: does not say which text an outcome carries, except when policies block; the texts are constructors rendered by an arbitrary function, and remaining times in them are arbitrary.
- Managers.CooldownManager.Start: an interval of zero, which deletes the key, is not modelled; the loop never starts one and never clears the cooldown. The interval is rounded up exactly, where the program goes through a floating-point number of seconds; configured intervals are whole seconds.
- Managers.CooldownManager.Status: node, start and expiry of a stored cooldown, which only go into texts; an unreadable payload is a failed reading.
- Daemon.Run: clients, detectors and the metrics listener that cannot be set up end the program before its loop and are not modelled.
- Managers.LockManager.Acquire: a session that cannot be opened and an attempt that fails are one answer; closing the session after a failed attempt is no event, as it holds nothing.
- Loop.Loop.Run: runs are cut off by a cancellation after finitely many passes, however many, so infinite runs are covered by their finite beginnings; The guards against non-positive delays that the constructor rules out are left out.
- Runner.Runner.NextBackoffDelay: its guard against a non-positive jitter range, which cannot be met there, is left out.
- Runner.Runner.RecordClusterHealthStatus: the summary event of an inspection and its repetition check are not modelled.
- ClusterPolicy.EvaluateClusterPolicies: the fraction is a real number; for a fraction of at most one, rounding the product to a double leaves it at most the count, on which the results rest. Not-a-number is not modelled.
- WindowTiming.StartsAsPermitted: the store's clock is the clock the windows are read by, in one time zone without changes of it.
- Managers.HealthStore.Status: how a record is parsed, and that one without a name takes it from its key; a record that does not parse is a failed listing.
- Config.Config.Decode: how the file is read as YAML; one that cannot be, or has unknown fields, is not modelled.
- Config.Config.Validate: names and exit codes of detectors, which are not validated; the fraction is a real number.
- HealthThreads.EntriesTellRuns: the time stamp of a record, and names that differ but give the same path after cleaning, are not modelled.
- Cluster.ExecutingPassedAllGates: the records an inspection answers are any records, not those of HealthThreads: whoever has access to the store, also nodes outside the modelled cluster, may have written them.
- WindowParser.ParseExpression: texts are sequences of characters, not bytes, and error texts are constructors; letters outside ASCII are lower-cased only where that gives an ASCII letter.
- The single-pass mode and the other commands of the program, signal handling, exit codes and the metrics server.
- The etcd client, its encodings, timeouts and namespaces: each call is atomic and answers, or fails with or without effect.
- Health script, detectors and reboot command: each gives a result or an error. The command is executed as it is configured; expansion of variables in it is not modelled.
- Structured logging and metrics other than the outcome counter, the outcome events and the peer events.
- Fairness and liveness: nothing says that a node gets to reboot.
