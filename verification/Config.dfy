/** The part of the configuration the protocol depends on: its defaults, its validation, and the node it describes. */
module Config {
  import opened Wrappers
  import opened Text
  import opened Backoff
  import opened ClusterPolicy
  import opened WindowEvaluator
  import opened Protocol

  datatype Problem =
    | NodeNameMissing | DetectorsMissing
    | DetectorTypeMissing(index: nat) | DetectorPathMissing(index: nat) | DetectorCommandMissing(index: nat)
    | DetectorTypeUnsupported(index: nat) | DetectorTimeoutNegative(index: nat)
    | HealthScriptMissing
    | HealthTimeoutTooSmall | PublishIntervalTooSmall | CheckIntervalTooSmall
    | BackoffMinTooSmall | BackoffMaxTooSmall | BackoffReversed
    | RebootIntervalNegative | LockTtlTooSmall | LockTtlWithinHealthTimeout
    | LockKeyMissing | EndpointsMissing | CaFileMissing | CertFileMissing | KeyFileMissing
    | CommandMissing | FractionOutOfRange | AbsoluteNegative | MetricsListenMissing
  {
    predicate OfDetector() {
      DetectorTypeMissing? || DetectorPathMissing? || DetectorCommandMissing? || DetectorTypeUnsupported? || DetectorTimeoutNegative?
    }
  }

  /** The place of each check in the validation of a configuration with a number of detectors. */
  function Rank(p: Problem, detectors: nat): nat {
    match p
    case NodeNameMissing => 0
    case DetectorsMissing => 1
    case DetectorTypeMissing(i) => FirstOf(i)
    case DetectorPathMissing(i) => FirstOf(i) + 1
    case DetectorCommandMissing(i) => FirstOf(i) + 2
    case DetectorTypeUnsupported(i) => FirstOf(i) + 3
    case DetectorTimeoutNegative(i) => FirstOf(i) + 4
    case HealthScriptMissing => FirstOf(detectors)
    case HealthTimeoutTooSmall => FirstOf(detectors) + 1
    case PublishIntervalTooSmall => FirstOf(detectors) + 2
    case CheckIntervalTooSmall => FirstOf(detectors) + 3
    case BackoffMinTooSmall => FirstOf(detectors) + 4
    case BackoffMaxTooSmall => FirstOf(detectors) + 5
    case BackoffReversed => FirstOf(detectors) + 6
    case RebootIntervalNegative => FirstOf(detectors) + 7
    case LockTtlTooSmall => FirstOf(detectors) + 8
    case LockTtlWithinHealthTimeout => FirstOf(detectors) + 9
    case LockKeyMissing => FirstOf(detectors) + 10
    case EndpointsMissing => FirstOf(detectors) + 11
    case CaFileMissing => FirstOf(detectors) + 12
    case CertFileMissing => FirstOf(detectors) + 13
    case KeyFileMissing => FirstOf(detectors) + 14
    case CommandMissing => FirstOf(detectors) + 15
    case FractionOutOfRange => FirstOf(detectors) + 16
    case AbsoluteNegative => FirstOf(detectors) + 17
    case MetricsListenMissing => FirstOf(detectors) + 18
  }

  const CHECKS_AFTER_DETECTORS := 19

  /** The place of the first check of a detector, or of what follows the detectors. */
  function FirstOf(index: nat): nat {
    2 + 5 * index
  }

  /** Two checks that are made have different places. */
  lemma RankTellsProblem(p: Problem, q: Problem, detectors: nat)
    requires Rank(p, detectors) == Rank(q, detectors)
    requires (p.OfDetector() ==> p.index < detectors) && (q.OfDetector() ==> q.index < detectors)
    ensures p == q
  {
  }

  lemma RankIsBounded(p: Problem, detectors: nat)
    requires p.OfDetector() ==> p.index < detectors
    ensures Rank(p, detectors) < FirstOf(detectors) + CHECKS_AFTER_DETECTORS
  {
  }

  /** How a node finds out that it needs a reboot: a file that is there, or a command that exits so. */
  datatype Detector = Detector(kind: string, path: string, cmd: seq<string>, timeoutSec: int) {
    predicate Valid() {
      ((kind == "file" && Trim(path) != "") || (kind == "command" && cmd != [])) && timeoutSec >= 0
    }
  }

  lemma KnownKinds()
    ensures Trim("file") == "file" && Trim("command") == "command"
  {
    TrimPadded("", "file", "");
    TrimPadded("", "command", "");
    assert "" + "file" + "" == "file" && "" + "command" + "" == "command";
  }

  datatype Tls = Tls(enabled: bool, caFile: string, certFile: string, keyFile: string) {
    predicate Valid() {
      enabled ==> Trim(caFile) != "" && Trim(certFile) != "" && Trim(keyFile) != ""
    }
  }

  datatype Metrics = Metrics(enabled: bool, listen: string)

  const LOCK_TRIES := 5
  const LOCK_KEY := "/cluster/clusterrebootd/lock"
  const REBOOT_COMMAND := ["/sbin/shutdown", "-r", "now", "coordinated kernel reboot"]
  const METRICS_LISTEN := "127.0.0.1:9090"

  /** A number that was left out reads as zero. */
  function OrDefault(given: int, default: int): int {
    if given == 0 then default else given
  }

  lemma DefaultsAreVisible()
    ensures Trim(LOCK_KEY) != "" && REBOOT_COMMAND != [] && Trim(METRICS_LISTEN) != ""
  {
    TrimPadded("", LOCK_KEY, "");
    TrimPadded("", METRICS_LISTEN, "");
    assert "" + LOCK_KEY + "" == LOCK_KEY && "" + METRICS_LISTEN + "" == METRICS_LISTEN;
  }

  /** A file that names only the node, its detectors, its health script and the endpoints of its store. */
  method Minimal(nodeName: string, detectors: seq<Detector>, healthScript: string, endpoints: seq<string>)
    returns (c: Config, problems: seq<Problem>)
    ensures c.nodeName == nodeName && c.healthScript == healthScript && (problems == [] <==> c.Accepted())
    ensures problems == [] <==>
      && Trim(nodeName) != "" && Trim(healthScript) != ""
      && detectors != [] && (forall d | d in detectors :: d.Valid()) && endpoints != []
  {
    hide Trim;
    c := new Config(nodeName, detectors, healthScript, 0, 0, 0, 0, 0, 0, "", 0, endpoints, None, [],
                    Policies(None, None, false, []), [], [], Metrics(false, ""), false);
    problems := c.Decode();
  }

  /** Seconds are a duration as they stand, as long as that fits 64 bits; and back. */
  lemma AsWritten(seconds: int)
    requires 0 <= seconds
    ensures seconds * SECOND < TWO63 ==> Wrap(seconds * SECOND) == seconds * SECOND
    ensures (seconds * SECOND + SECOND - 1) / SECOND == seconds
  {
  }

  class Config {
    const nodeName: string
    const detectors: seq<Detector>
    const healthScript: string
    var healthTimeoutSec: int
    var healthPublishIntervalSec: int
    var checkIntervalSec: int
    var backoffMinSec: int
    var backoffMaxSec: int
    const minRebootIntervalSec: int
    var lockKey: string
    var lockTtlSec: int
    const endpoints: seq<string>
    const tls: Option<Tls>
    var rebootCommand: seq<string>
    const policies: Policies
    const allow: seq<string>
    const deny: seq<string>
    var metrics: Metrics
    var dryRun: bool

    constructor (nodeName: string, detectors: seq<Detector>, healthScript: string,
                 healthTimeoutSec: int, healthPublishIntervalSec: int, checkIntervalSec: int, backoffMinSec: int, backoffMaxSec: int,
                 minRebootIntervalSec: int, lockKey: string, lockTtlSec: int, endpoints: seq<string>, tls: Option<Tls>,
                 rebootCommand: seq<string>, policies: Policies, allow: seq<string>, deny: seq<string>, metrics: Metrics, dryRun: bool)
      ensures this.nodeName == nodeName && this.detectors == detectors && this.healthScript == healthScript
      ensures this.healthTimeoutSec == healthTimeoutSec && this.healthPublishIntervalSec == healthPublishIntervalSec
      ensures this.checkIntervalSec == checkIntervalSec && this.minRebootIntervalSec == minRebootIntervalSec
      ensures this.backoffMinSec == backoffMinSec && this.backoffMaxSec == backoffMaxSec
      ensures this.lockKey == lockKey && this.lockTtlSec == lockTtlSec && this.endpoints == endpoints && this.tls == tls
      ensures this.rebootCommand == rebootCommand && this.policies == policies && this.allow == allow && this.deny == deny
      ensures this.metrics == metrics && this.dryRun == dryRun
    {
      this.nodeName, this.detectors, this.healthScript := nodeName, detectors, healthScript;
      this.healthTimeoutSec, this.healthPublishIntervalSec := healthTimeoutSec, healthPublishIntervalSec;
      this.checkIntervalSec, this.backoffMinSec, this.backoffMaxSec := checkIntervalSec, backoffMinSec, backoffMaxSec;
      this.minRebootIntervalSec, this.lockKey, this.lockTtlSec := minRebootIntervalSec, lockKey, lockTtlSec;
      this.endpoints, this.tls, this.rebootCommand, this.policies := endpoints, tls, rebootCommand, policies;
      this.allow, this.deny, this.metrics, this.dryRun := allow, deny, metrics, dryRun;
    }

    /** What was left out has its default, and what was given stays. */
    twostate predicate Defaulted()
      reads this
    {
      && healthTimeoutSec == (if old(healthTimeoutSec) == 0 then 30 else old(healthTimeoutSec))
      && healthPublishIntervalSec == (if old(healthPublishIntervalSec) == 0 then 15 else old(healthPublishIntervalSec))
      && checkIntervalSec == (if old(checkIntervalSec) == 0 then 60 else old(checkIntervalSec))
      && backoffMinSec == (if old(backoffMinSec) == 0 then 5 else old(backoffMinSec))
      && backoffMaxSec == (if old(backoffMaxSec) == 0 then 60 else old(backoffMaxSec))
      && lockTtlSec == (if old(lockTtlSec) == 0 then 90 else old(lockTtlSec))
      && lockKey == (if Trim(old(lockKey)) == "" then LOCK_KEY else old(lockKey))
      && rebootCommand == (if old(rebootCommand) == [] then REBOOT_COMMAND else old(rebootCommand))
      && metrics.enabled == old(metrics.enabled)
      && metrics.listen == (if old(metrics.listen) == "" then METRICS_LISTEN else old(metrics.listen))
    }

    /** What was left out of the configuration file gets its default; what was given stays. */
    method ApplyDefaults()
      modifies this
      ensures Defaulted() && dryRun == old(dryRun)
    {
      hide Trim;
      ApplyDefaultTimes();
      if Trim(lockKey) == "" {
        lockKey := LOCK_KEY;
      }
      if |rebootCommand| == 0 {
        rebootCommand := REBOOT_COMMAND;
      }
      if metrics.listen == "" {
        metrics := metrics.(listen := METRICS_LISTEN);
      }
    }

    method ApplyDefaultTimes()
      modifies `healthTimeoutSec, `healthPublishIntervalSec, `checkIntervalSec, `backoffMinSec, `backoffMaxSec, `lockTtlSec
      ensures healthTimeoutSec == OrDefault(old(healthTimeoutSec), 30)
      ensures healthPublishIntervalSec == OrDefault(old(healthPublishIntervalSec), 15)
      ensures checkIntervalSec == OrDefault(old(checkIntervalSec), 60)
      ensures (backoffMinSec, backoffMaxSec) == (OrDefault(old(backoffMinSec), 5), OrDefault(old(backoffMaxSec), 60))
      ensures lockTtlSec == OrDefault(old(lockTtlSec), 90)
    {
      if healthTimeoutSec == 0 {
        healthTimeoutSec := 30;
      }
      if healthPublishIntervalSec == 0 {
        healthPublishIntervalSec := 15;
      }
      if checkIntervalSec == 0 {
        checkIntervalSec := 60;
      }
      if backoffMinSec == 0 {
        backoffMinSec := 5;
      }
      if backoffMaxSec == 0 {
        backoffMaxSec := 60;
      }
      if lockTtlSec == 0 {
        lockTtlSec := 90;
      }
    }

    /** Whether the configuration has a problem. */
    predicate Has(p: Problem)
      reads this
    {
      match p
      case NodeNameMissing => Trim(nodeName) == ""
      case DetectorsMissing => detectors == []
      case DetectorTypeMissing(i) => i < |detectors| && Trim(detectors[i].kind) == ""
      case DetectorPathMissing(i) => i < |detectors| && detectors[i].kind == "file" && Trim(detectors[i].path) == ""
      case DetectorCommandMissing(i) => i < |detectors| && detectors[i].kind == "command" && detectors[i].cmd == []
      case DetectorTypeUnsupported(i) =>
        i < |detectors| && Trim(detectors[i].kind) != "" && detectors[i].kind != "file" && detectors[i].kind != "command"
      case DetectorTimeoutNegative(i) => i < |detectors| && Trim(detectors[i].kind) != "" && detectors[i].timeoutSec < 0
      case HealthScriptMissing => Trim(healthScript) == ""
      case HealthTimeoutTooSmall => healthTimeoutSec <= 0
      case PublishIntervalTooSmall => healthPublishIntervalSec <= 0
      case CheckIntervalTooSmall => checkIntervalSec <= 0
      case BackoffMinTooSmall => backoffMinSec <= 0
      case BackoffMaxTooSmall => backoffMaxSec <= 0
      case BackoffReversed => backoffMaxSec < backoffMinSec
      case RebootIntervalNegative => minRebootIntervalSec < 0
      case LockTtlTooSmall => lockTtlSec <= 0
      case LockTtlWithinHealthTimeout => lockTtlSec <= healthTimeoutSec
      case LockKeyMissing => Trim(lockKey) == ""
      case EndpointsMissing => endpoints == []
      case CaFileMissing => tls.Some? && tls.value.enabled && Trim(tls.value.caFile) == ""
      case CertFileMissing => tls.Some? && tls.value.enabled && Trim(tls.value.certFile) == ""
      case KeyFileMissing => tls.Some? && tls.value.enabled && Trim(tls.value.keyFile) == ""
      case CommandMissing => rebootCommand == []
      case FractionOutOfRange =>
        policies.minHealthyFraction.Some? && !(0.0 < policies.minHealthyFraction.value <= 1.0)
      case AbsoluteNegative => policies.minHealthyAbsolute.Some? && policies.minHealthyAbsolute.value < 0
      case MetricsListenMissing => metrics.enabled && Trim(metrics.listen) == ""
    }

    function Place(p: Problem): nat {
      Rank(p, |detectors|)
    }

    /** The problems found so far are those there are among the first ones looked for, in the order they are looked for. */
    ghost predicate Found(problems: seq<Problem>, sought: nat)
      reads this
    {
      && (forall p :: p in problems <==> Place(p) < sought && Has(p))
      && (forall i, j | 0 <= i < j < |problems| :: Place(problems[i]) < Place(problems[j]))
    }

    lemma NextFound(problems: seq<Problem>, p: Problem)
      requires Found(problems, Place(p)) && (p.OfDetector() ==> p.index < |detectors|)
      ensures Found(if Has(p) then problems + [p] else problems, Place(p) + 1)
    {
      var more := if Has(p) then problems + [p] else problems;
      forall q
        ensures q in more <==> Place(q) < Place(p) + 1 && Has(q)
      {
        if Place(q) == Place(p) && Has(q) {
          RankTellsProblem(p, q, |detectors|);
        }
      }
      hide Has, Rank;
      assert forall i | 0 <= i < |problems| :: problems[i] in problems;
    }

    method Note(problems: seq<Problem>, found: bool, p: Problem) returns (more: seq<Problem>)
      requires Found(problems, Place(p)) && found == Has(p) && (p.OfDetector() ==> p.index < |detectors|)
      ensures Found(more, Place(p) + 1)
    {
      hide Has, Found;
      NextFound(problems, p);
      more := if found then problems + [p] else problems;
    }

    /** Every problem there is, and no other, is reported, once and in the order of the checks. */
    method Validate() returns (problems: seq<Problem>)
      ensures forall p :: p in problems <==> Has(p)
      ensures forall i, j | 0 <= i < j < |problems| :: Place(problems[i]) < Place(problems[j])
      ensures problems == [] <==> Accepted()
    {
      hide Found;
      problems := [];
      NoneSought();
      problems := Note(problems, Trim(nodeName) == "", NodeNameMissing);
      problems := Note(problems, |detectors| == 0, DetectorsMissing);
      for i := 0 to |detectors|
        invariant Found(problems, FirstOf(i))
      {
        problems := ValidateDetector(problems, i);
      }
      problems := ValidateHealth(problems);
      problems := ValidateBackoff(problems);
      problems := ValidateLock(problems);
      problems := ValidateStore(problems);
      problems := ValidatePolicies(problems);
      AllSought(problems);
    }

    /** The problems of one detector; one without a type is looked at no further. */
    method ValidateDetector(before: seq<Problem>, i: nat) returns (problems: seq<Problem>)
      requires i < |detectors| && Found(before, FirstOf(i))
      ensures Found(problems, FirstOf(i + 1))
    {
      hide Trim, Found;
      KnownKinds();
      var d := detectors[i];
      var typed := Trim(d.kind) != "";
      problems := Note(before, !typed, DetectorTypeMissing(i));
      problems := Note(problems, typed && d.kind == "file" && Trim(d.path) == "", DetectorPathMissing(i));
      problems := Note(problems, typed && d.kind == "command" && |d.cmd| == 0, DetectorCommandMissing(i));
      problems := Note(problems, typed && d.kind != "file" && d.kind != "command", DetectorTypeUnsupported(i));
      problems := Note(problems, typed && d.timeoutSec < 0, DetectorTimeoutNegative(i));
    }

    method ValidateHealth(before: seq<Problem>) returns (problems: seq<Problem>)
      requires Found(before, FirstOf(|detectors|))
      ensures Found(problems, FirstOf(|detectors|) + 4)
    {
      hide Trim, Found;
      problems := Note(before, Trim(healthScript) == "", HealthScriptMissing);
      problems := Note(problems, healthTimeoutSec <= 0, HealthTimeoutTooSmall);
      problems := Note(problems, healthPublishIntervalSec <= 0, PublishIntervalTooSmall);
      problems := Note(problems, checkIntervalSec <= 0, CheckIntervalTooSmall);
    }

    method ValidateBackoff(before: seq<Problem>) returns (problems: seq<Problem>)
      requires Found(before, FirstOf(|detectors|) + 4)
      ensures Found(problems, FirstOf(|detectors|) + 8)
    {
      hide Trim, Found;
      problems := Note(before, backoffMinSec <= 0, BackoffMinTooSmall);
      problems := Note(problems, backoffMaxSec <= 0, BackoffMaxTooSmall);
      problems := Note(problems, backoffMaxSec < backoffMinSec, BackoffReversed);
      problems := Note(problems, minRebootIntervalSec < 0, RebootIntervalNegative);
    }

    method ValidateLock(before: seq<Problem>) returns (problems: seq<Problem>)
      requires Found(before, FirstOf(|detectors|) + 8)
      ensures Found(problems, FirstOf(|detectors|) + 11)
    {
      hide Trim, Found;
      problems := Note(before, lockTtlSec <= 0, LockTtlTooSmall);
      problems := Note(problems, lockTtlSec <= healthTimeoutSec, LockTtlWithinHealthTimeout);
      problems := Note(problems, Trim(lockKey) == "", LockKeyMissing);
    }

    method ValidateStore(before: seq<Problem>) returns (problems: seq<Problem>)
      requires Found(before, FirstOf(|detectors|) + 11)
      ensures Found(problems, FirstOf(|detectors|) + 16)
    {
      hide Trim, Found;
      problems := Note(before, |endpoints| == 0, EndpointsMissing);
      problems := ValidateTls(problems);
      problems := Note(problems, |rebootCommand| == 0, CommandMissing);
    }

    method ValidateTls(before: seq<Problem>) returns (problems: seq<Problem>)
      requires Found(before, FirstOf(|detectors|) + 12)
      ensures Found(problems, FirstOf(|detectors|) + 15)
    {
      hide Trim, Found;
      var secured := tls.Some? && tls.value.enabled;
      problems := Note(before, secured && Trim(tls.value.caFile) == "", CaFileMissing);
      problems := Note(problems, secured && Trim(tls.value.certFile) == "", CertFileMissing);
      problems := Note(problems, secured && Trim(tls.value.keyFile) == "", KeyFileMissing);
    }

    method ValidatePolicies(before: seq<Problem>) returns (problems: seq<Problem>)
      requires Found(before, FirstOf(|detectors|) + 16)
      ensures Found(problems, FirstOf(|detectors|) + CHECKS_AFTER_DETECTORS)
    {
      hide Trim, Found;
      var fraction := policies.minHealthyFraction;
      problems := Note(before, fraction.Some? && (fraction.value <= 0.0 || fraction.value > 1.0), FractionOutOfRange);
      var absolute := policies.minHealthyAbsolute;
      problems := Note(problems, absolute.Some? && absolute.value < 0, AbsoluteNegative);
      problems := Note(problems, metrics.enabled && Trim(metrics.listen) == "", MetricsListenMissing);
    }

    lemma NoneSought()
      ensures Found([], 0)
    {
    }

    lemma AllSought(problems: seq<Problem>)
      requires Found(problems, FirstOf(|detectors|) + CHECKS_AFTER_DETECTORS)
      ensures forall p :: p in problems <==> Has(p)
      ensures forall i, j | 0 <= i < j < |problems| :: Place(problems[i]) < Place(problems[j])
      ensures problems == [] <==> Accepted()
    {
      forall p | Has(p)
        ensures Place(p) < FirstOf(|detectors|) + CHECKS_AFTER_DETECTORS
      {
        RankIsBounded(p, |detectors|);
      }
      hide Has;
      assert problems != [] ==> problems[0] in problems;
    }

    /** What does not depend on defaults is in order. */
    predicate WellGiven() {
      && Trim(nodeName) != "" && Trim(healthScript) != "" && policies.Valid() && minRebootIntervalSec >= 0
      && detectors != [] && (forall d | d in detectors :: d.Valid())
      && endpoints != [] && (tls.Some? ==> tls.value.Valid())
    }

    /** What is given in a configuration file, with zero and nothing for what is left out, is acceptable. */
    predicate Acceptable()
      reads this
    {
      && WellGiven()
      && healthTimeoutSec >= 0 && healthPublishIntervalSec >= 0 && checkIntervalSec >= 0 && lockTtlSec >= 0
      && backoffMinSec >= 0 && backoffMaxSec >= 0
      && OrDefault(backoffMinSec, 5) <= OrDefault(backoffMaxSec, 60)
      && OrDefault(healthTimeoutSec, 30) < OrDefault(lockTtlSec, 90)
      && (metrics.enabled ==> metrics.listen == "" || Trim(metrics.listen) != "")
    }

    /** Decoding a file: it is accepted exactly when what it gives is acceptable, whatever it leaves out. */
    method Decode() returns (problems: seq<Problem>)
      modifies this
      ensures problems == [] <==> Accepted()
      ensures problems == [] <==> old(Acceptable())
      ensures Defaulted() && dryRun == old(dryRun)
    {
      hide Trim, WellGiven;
      ApplyDefaults();
      problems := Validate();
      DefaultsAreVisible();
      AcceptedFields();
    }

    /** The command line may ask for a dry run that the file does not. */
    method MakeDry()
      modifies `dryRun
      ensures dryRun && (Accepted() <==> old(Accepted()))
    {
      hide Trim, Policies.Valid;
      dryRun := true;
      assert forall p :: Has(p) <==> old(Has(p));
    }

    lemma DetectorsInOrder()
      ensures (forall d | d in detectors :: d.Valid()) <==> forall p: Problem | p.OfDetector() :: !Has(p)
    {
      KnownKinds();
      hide Trim;
      if forall p: Problem | p.OfDetector() :: !Has(p) {
        forall i | 0 <= i < |detectors|
          ensures detectors[i].Valid()
        {
          assert !Has(DetectorTypeMissing(i)) && !Has(DetectorPathMissing(i)) && !Has(DetectorCommandMissing(i));
          assert !Has(DetectorTypeUnsupported(i)) && !Has(DetectorTimeoutNegative(i));
        }
      }
      if forall d | d in detectors :: d.Valid() {
        forall p: Problem | p.OfDetector()
          ensures !Has(p)
        {
          assert p.index < |detectors| ==> detectors[p.index] in detectors;
        }
      }
    }

    lemma NoProblem(p: Problem)
      requires Accepted()
      ensures !Has(p)
    {
    }

    lemma DetectorsAccepted()
      requires Accepted()
      ensures forall d | d in detectors :: d.Valid()
    {
      DetectorsInOrder();
      hide Trim, Has, Detector.Valid;
    }

    lemma GivenInOrder()
      requires Accepted()
      ensures WellGiven()
    {
      DetectorsAccepted();
      hide Trim, Accepted, Detector.Valid;
      NoProblem(NodeNameMissing);
      NoProblem(DetectorsMissing);
      NoProblem(HealthScriptMissing);
      NoProblem(RebootIntervalNegative);
      NoProblem(FractionOutOfRange);
      NoProblem(AbsoluteNegative);
      StoreInOrder();
    }

    lemma StoreInOrder()
      requires Accepted()
      ensures endpoints != [] && (tls.Some? ==> tls.value.Valid())
    {
      hide Trim, Accepted;
      NoProblem(EndpointsMissing);
      NoProblem(CaFileMissing);
      NoProblem(CertFileMissing);
      NoProblem(KeyFileMissing);
    }

    /** What defaults are filled in for is in order. */
    predicate WellFilled()
      reads this
    {
      && healthTimeoutSec > 0 && healthPublishIntervalSec > 0 && checkIntervalSec > 0 && lockTtlSec > 0
      && backoffMinSec > 0 && backoffMaxSec > 0 && backoffMinSec <= backoffMaxSec && healthTimeoutSec < lockTtlSec
      && Trim(lockKey) != "" && rebootCommand != [] && (metrics.enabled ==> Trim(metrics.listen) != "")
    }

    lemma FilledInOrder()
      requires Accepted()
      ensures WellFilled()
    {
      hide Trim, Accepted;
      NoProblem(HealthTimeoutTooSmall);
      NoProblem(PublishIntervalTooSmall);
      NoProblem(CheckIntervalTooSmall);
      NoProblem(LockTtlTooSmall);
      NoProblem(BackoffMinTooSmall);
      NoProblem(BackoffMaxTooSmall);
      NoProblem(BackoffReversed);
      NoProblem(LockTtlWithinHealthTimeout);
      NoProblem(LockKeyMissing);
      NoProblem(CommandMissing);
      NoProblem(MetricsListenMissing);
    }

    lemma AllInOrder(p: Problem)
      requires WellGiven() && WellFilled()
      ensures !Has(p)
    {
      DetectorsInOrder();
      hide Trim, Detector.Valid;
    }

    /** No problem, field by field. */
    lemma AcceptedFields()
      ensures Accepted() <==> WellGiven() && WellFilled()
    {
      hide Has, WellGiven, WellFilled;
      if Accepted() {
        GivenInOrder();
        FilledInOrder();
      }
      if WellGiven() && WellFilled() {
        forall p
          ensures !Has(p)
        {
          AllInOrder(p);
        }
      }
    }

    /** The interval between reboots as a 64-bit duration; the program ignores one that is not positive. */
    function CooldownInterval(): nat {
      var interval := Wrap(minRebootIntervalSec * SECOND);
      if interval > 0 then interval else 0
    }

    /** The node the program runs for this configuration, its command taken as it stands. */
    function NodeFor(windows: Option<Evaluator>): NodeConfig
      reads this
    {
      NodeConfig(nodeName, policies, windows, true, true, true, LOCK_TRIES, backoffMinSec, backoffMaxSec, CooldownInterval(),
                 dryRun, rebootCommand, 5 * SECOND, 60 * SECOND, Wrap(checkIntervalSec * SECOND),
                 Wrap(healthPublishIntervalSec * SECOND))
    }

    ghost predicate Accepted()
      reads this
    {
      forall p :: !Has(p)
    }

    /** What the program makes of the written windows when it starts. */
    function Windows(): Result<Option<Evaluator>, ListError> {
      EvaluatorOf(allow, deny)
    }

    function Node(): NodeConfig
      requires Windows().Ok?
      reads this
    {
      NodeFor(Windows().value)
    }

    /** The program gets as far as its loop: no problem, and every window is accepted. */
    ghost predicate Runnable()
      reads this
    {
      Accepted() && Windows().Ok?
    }

    /**
     A configuration without problems makes a node that the protocol can run, with the name, policies and command of the
     configuration, that inspects and reports health and takes the lock in five attempts, that reboots unless it is a dry run, and
     whose delays and cooldown are those configured, as far as they fit 64 bits.
     */
    lemma AcceptedRuns(windows: Option<Evaluator>)
      requires Accepted()
      ensures var c := NodeFor(windows);
        && c.name == nodeName && c.policies == policies && c.windows == windows && c.dryRun == dryRun && c.command == rebootCommand
        && c.inspects && c.reports && c.lockEnabled && c.maxLockTries == 5
        && (c.errorMinDelay, c.errorMaxDelay) == (5 * SECOND, 60 * SECOND)
        && c.Valid() && (c.Reboots() <==> !dryRun)
        && (backoffMaxSec * SECOND < TWO63 ==>
              (c.LockBackoffMin(), LockBounds(backoffMinSec, backoffMaxSec).1) == (backoffMinSec * SECOND, backoffMaxSec * SECOND))
        && (checkIntervalSec * SECOND < TWO63 ==> c.RoundInterval() == checkIntervalSec * SECOND)
        && (healthPublishIntervalSec * SECOND < TWO63 ==> c.publishInterval == healthPublishIntervalSec * SECOND)
        && (minRebootIntervalSec * SECOND < TWO63 ==>
              c.cooldown == minRebootIntervalSec * SECOND && c.CooldownSeconds() == minRebootIntervalSec)
    {
      assert !Has(RebootIntervalNegative) && !Has(CommandMissing) && !Has(CheckIntervalTooSmall) && !Has(PublishIntervalTooSmall);
      hide Has, BackoffCeiling, Wrap, LockBounds;
      AsWritten(checkIntervalSec);
      AsWritten(healthPublishIntervalSec);
      AsWritten(minRebootIntervalSec);
      AcceptedBounds();
    }

    lemma AcceptedBounds()
      requires Accepted()
      ensures backoffMaxSec * SECOND < TWO63 ==>
        LockBounds(backoffMinSec, backoffMaxSec) == (backoffMinSec * SECOND, backoffMaxSec * SECOND)
    {
      assert !Has(BackoffMinTooSmall) && !Has(BackoffReversed);
      hide Has, Wrap, LockBounds;
    }

    /**
     Of the five attempts on the lock, the ceilings of the four delays between them never fall exactly when eight times the
     minimum fits 64 bits, or the bounds coincide, or not even twice the minimum fits and the four times of it, in 64 bits, is
     not above it.
     */
    lemma AcceptedCeilings(windows: Option<Evaluator>)
      requires Accepted()
      ensures var (c, bounds) := (NodeFor(windows), LockBounds(backoffMinSec, backoffMaxSec));
        var (min, max) := bounds;
        (forall a: nat | a < LOCK_TRIES - 2 :: c.LockBackoffCeiling(a) <= c.LockBackoffCeiling(a + 1))
        <==> min * 8 < TWO63 || min == max || (min >= TWO62 && !(min < min * 4 - TWO64 < TWO63))
    {
      var (min, max) := LockBounds(backoffMinSec, backoffMaxSec);
      CeilingNeverFallsExactly(3, min, max);
      FewMultiples(min);
      hide BackoffCeiling, LockBounds;
      assert forall a: nat :: NodeFor(windows).LockBackoffCeiling(a) == BackoffCeiling(a, min, max);
    }

    /** They do fall, after the third attempt, for a minimum of some 38 years and a maximum of some 285. */
    lemma LongBackoffFalls(windows: Option<Evaluator>)
      requires Accepted() && backoffMinSec == 1_200_000_000 && backoffMaxSec == 9_000_000_000
      ensures NodeFor(windows).LockBackoffCeiling(3) == 1_200_000_000 * SECOND < NodeFor(windows).LockBackoffCeiling(2)
    {
      assert Pow2(2) == 4 && Pow2(3) == 8;
      FallsAfter(2, backoffMinSec * SECOND, backoffMaxSec * SECOND);
      hide BackoffCeiling;
    }

    /**
     The policies of a configuration without problems decide on the set of records alone, decide the same without their
     fraction, and never hold a node back because of one more healthy record.
     */
    lemma AcceptedPolicies(before: seq<Record>, rec: Record, after: seq<Record>, reordered: seq<Record>)
      requires Accepted()
      requires forall r :: r in before + after <==> r in reordered
      ensures Blocks(nodeName, policies, before + after) <==> Blocks(nodeName, policies.(minHealthyFraction := None), reordered)
      ensures rec.healthy && !Blocks(nodeName, policies, before + after) ==> !Blocks(nodeName, policies, before + [rec] + after)
    {
      hide Trim, Blocks;
      assert !Has(FractionOutOfRange) && !Has(AbsoluteNegative) && !Has(NodeNameMissing);
      DecisionIgnoresOrder(nodeName, policies, before + after, reordered);
      if policies.minHealthyFraction.Some? {
        FractionAddsNothing(nodeName, policies, reordered);
      } else {
        assert policies.(minHealthyFraction := None) == policies;
      }
      if rec.healthy && !Blocks(nodeName, policies, before + after) {
        HealthyPeerAddsNoBlock(nodeName, policies, before, rec, after);
      }
    }
  }
}
