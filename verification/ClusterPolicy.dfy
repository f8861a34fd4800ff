/** Cluster policies: which health records keep a node from rebooting, and why. */
module ClusterPolicy {
  import opened Wrappers
  import opened Text

  /** The health a node last reported, as listed by the shared store. */
  datatype Record = Record(node: string, healthy: bool, stage: string, reason: string, reportedAt: int)

  datatype Policies = Policies(
    minHealthyFraction: Option<real>, minHealthyAbsolute: Option<int>,
    forbidIfOnlyFallbackLeft: bool, fallbackNodes: seq<string>)
  {
    /** What configuration validation lets through. */
    predicate Valid() {
      && (minHealthyFraction.Some? ==> 0.0 < minHealthyFraction.value <= 1.0)
      && (minHealthyAbsolute.Some? ==> 0 <= minHealthyAbsolute.value)
    }
  }

  datatype Reason =
    | UnhealthyPeers(records: seq<Record>)
    | BelowMinimum(healthy: nat, minimum: int)
    | BelowFraction(healthy: nat, fraction: real, required: int, total: nat)
    | OnlyFallbackLeft

  /** The unhealthy records of other nodes, in order. */
  function Unhealthy(records: seq<Record>, exclude: string): (r: seq<Record>)
    ensures forall x :: x in r <==> x in records && !x.healthy && !(exclude != "" && x.node == exclude)
  {
    if records == [] then []
    else
      var n := |records| - 1;
      assert records == records[..n] + [records[n]];
      var before := Unhealthy(records[..n], exclude);
      if (exclude != "" && records[n].node == exclude) || records[n].healthy then before else before + [records[n]]
  }

  function Fallback(p: Policies): set<string> {
    set f | f in p.fallbackNodes && Trim(f) != "" :: Trim(f)
  }

  /** Every named node: this one, when it has a name, and those with a record. */
  function Names(self: string, records: seq<Record>): set<string> {
    (if self != "" then {self} else {}) + set r | r in records && Trim(r.node) != "" :: Trim(r.node)
  }

  /** What the first record of a node says. */
  function FirstVerdict(records: seq<Record>, name: string): Option<bool> {
    if records == [] then None
    else
      var n := |records| - 1;
      var earlier := FirstVerdict(records[..n], name);
      if earlier.Some? then earlier
      else if Trim(records[n].node) == name then Some(records[n].healthy)
      else None
  }

  /** The nodes counted as healthy: this one always, the others when their first record says so. */
  function HealthyNames(self: string, records: seq<Record>): set<string> {
    set n | n in Names(self, records) && (n == self || FirstVerdict(records, n) == Some(true))
  }

  function Found(condition: bool, reason: Reason): seq<Reason> {
    if condition then [reason] else []
  }

  /** The least whole number of nodes that is at least the given fraction of all nodes. */
  function Required(fraction: real, total: nat): int {
    -(-(fraction * total as real)).Floor
  }

  /** The reasons that follow from the unhealthy peers and the counts of nodes, in the order they are found. */
  function ReasonsFrom(p: Policies, unhealthy: seq<Record>, healthy: nat, total: nat, onlyFallback: bool): seq<Reason> {
    Found(unhealthy != [], UnhealthyPeers(unhealthy))
    + Found(p.minHealthyAbsolute.Some? && healthy < p.minHealthyAbsolute.value,
            BelowMinimum(healthy, p.minHealthyAbsolute.GetOr(0)))
    + Found(p.minHealthyFraction.Some? && total > 0 && healthy < Required(p.minHealthyFraction.value, total),
            BelowFraction(healthy, p.minHealthyFraction.GetOr(0.0), Required(p.minHealthyFraction.GetOr(0.0), total), total))
    + Found(p.forbidIfOnlyFallbackLeft && onlyFallback, OnlyFallbackLeft)
  }

  /** The healthy nodes are some, and fallback nodes all of them. */
  predicate OnlyFallback(healthy: set<string>, p: Policies) {
    Fallback(p) != {} && healthy != {} && healthy <= Fallback(p)
  }

  /** The reasons against a reboot, with nodes counted as sets of names. */
  function Reasons(nodeName: string, p: Policies, records: seq<Record>): seq<Reason> {
    var healthy := HealthyNames(Trim(nodeName), records);
    ReasonsFrom(p, Unhealthy(records, nodeName), |healthy|, |Names(Trim(nodeName), records)|, OnlyFallback(healthy, p))
  }

  ghost predicate Blocks(nodeName: string, p: Policies, records: seq<Record>) {
    Reasons(nodeName, p, records) != []
  }

  // ----- Counting -----

  method FilterClusterRecords(records: seq<Record>, exclude: string) returns (filtered: seq<Record>)
    ensures filtered == Unhealthy(records, exclude)
  {
    filtered := [];
    for i := 0 to |records|
      invariant filtered == Unhealthy(records[..i], exclude)
    {
      assert records[..i + 1][..i] == records[..i];
      if exclude != "" && records[i].node == exclude {
        continue;
      }
      if records[i].healthy {
        continue;
      }
      filtered := filtered + [records[i]];
    }
    assert records[..|records|] == records;
  }

  /** A record of a node already seen changes no count; the first record of a node adds that node, healthy or not. */
  lemma CountStep(self: string, records: seq<Record>, rec: Record)
    ensures var name := Trim(rec.node);
      && Names(self, records + [rec]) == Names(self, records) + (if name == "" then {} else {name})
      && HealthyNames(self, records + [rec])
         == HealthyNames(self, records)
            + (if name == "" || name in Names(self, records) || !rec.healthy then {} else {name})
  {
    hide Trim;
    var name := Trim(rec.node);
    assert (records + [rec])[..|records|] == records;
    assert Names(self, records + [rec]) == Names(self, records) + (if name == "" then {} else {name}) by {
      assert forall r :: r in records + [rec] <==> r in records || r == rec;
    }
    forall n | n in Names(self, records) && n != self
      ensures FirstVerdict(records, n).Some?
    {
      NamedHasVerdict(self, records, n);
    }
    if name != "" {
      VerdictOnlyIfNamed(self, records, name);
    }
  }

  lemma {:induction false} NamedHasVerdict(self: string, records: seq<Record>, name: string)
    requires name in Names(self, records) && name != self
    ensures FirstVerdict(records, name).Some?
  {
    hide Trim;
    var n := |records| - 1;
    assert records == records[..n] + [records[n]];
    if Trim(records[n].node) != name {
      NamedHasVerdict(self, records[..n], name);
    }
  }

  lemma {:induction false} VerdictOnlyIfNamed(self: string, records: seq<Record>, name: string)
    requires name != ""
    ensures FirstVerdict(records, name).Some? ==> name in Names(self, records)
  {
    hide Trim;
    if records != [] {
      var n := |records| - 1;
      VerdictOnlyIfNamed(self, records[..n], name);
      assert records == records[..n] + [records[n]];
    }
  }

  method FallbackSet(p: Policies) returns (fallback: set<string>)
    ensures fallback == Fallback(p)
  {
    hide Trim;
    fallback := {};
    for i := 0 to |p.fallbackNodes|
      invariant fallback == set f | f in p.fallbackNodes[..i] && Trim(f) != "" :: Trim(f)
    {
      assert p.fallbackNodes[..i + 1] == p.fallbackNodes[..i] + [p.fallbackNodes[i]];
      var trimmed := Trim(p.fallbackNodes[i]);
      if trimmed == "" {
        continue;
      }
      fallback := fallback + {trimmed};
    }
    assert p.fallbackNodes[..|p.fallbackNodes|] == p.fallbackNodes;
  }

  lemma HealthyAreNamed(self: string, records: seq<Record>)
    ensures HealthyNames(self, records) <= Names(self, records)
  {
  }

  predicate IsNew(self: string, records: seq<Record>, name: string) {
    name != "" && name !in Names(self, records)
  }

  lemma CardinalitiesStep(names: set<string>, healthy: set<string>, fallback: set<string>, name: string)
    requires healthy <= names && name !in names
    ensures |names + {name}| == |names| + 1 && |healthy + {name}| == |healthy| + 1
    ensures |(healthy + {name}) - fallback| == |healthy - fallback| + if name in fallback then 0 else 1
  {
    assert (healthy + {name}) - fallback == (healthy - fallback) + if name in fallback then {} else {name};
  }

  /** The counts after one more record. */
  lemma CountsStep(self: string, records: seq<Record>, rec: Record, fallback: set<string>)
    ensures Names(self, records + [rec]) == Names(self, records) + (if Trim(rec.node) == "" then {} else {Trim(rec.node)})
    ensures var one := if IsNew(self, records, Trim(rec.node)) then 1 else 0;
      var up := if rec.healthy then one else 0;
      && |Names(self, records + [rec])| == |Names(self, records)| + one
      && |HealthyNames(self, records + [rec])| == |HealthyNames(self, records)| + up
      && |HealthyNames(self, records + [rec]) - fallback|
         == |HealthyNames(self, records) - fallback| + if Trim(rec.node) in fallback then 0 else up
  {
    hide Trim, Names, HealthyNames;
    CountStep(self, records, rec);
    var name := Trim(rec.node);
    if IsNew(self, records, name) {
      HealthyAreNamed(self, records);
      CardinalitiesStep(Names(self, records), HealthyNames(self, records), fallback, name);
    } else {
      assert Names(self, records + [rec]) == Names(self, records);
      assert HealthyNames(self, records + [rec]) == HealthyNames(self, records);
    }
    assert HealthyNames(self, records) + {} == HealthyNames(self, records);
  }

  lemma CountsWithoutRecords(self: string, fallback: set<string>)
    ensures Names(self, []) == HealthyNames(self, []) == if self != "" then {self} else {}
    ensures HealthyNames(self, []) - fallback == if self != "" && self !in fallback then {self} else {}
  {
  }

  /** The counters tell the sizes of the sets of nodes among the records gone through. */
  ghost predicate Tallied(self: string, fallback: set<string>, records: seq<Record>, seen: set<string>,
                          healthyCount: nat, totalCount: nat, healthyNonFallback: nat)
  {
    && seen == Names(self, records) && totalCount == |seen|
    && healthyCount == |HealthyNames(self, records)|
    && healthyNonFallback == |HealthyNames(self, records) - fallback|
  }

  lemma TallyBegins(self: string, fallback: set<string>)
    ensures self == "" ==> Tallied(self, fallback, [], {}, 0, 0, 0)
    ensures self != "" ==> Tallied(self, fallback, [], {self}, 1, 1, if self in fallback then 0 else 1)
  {
    CountsWithoutRecords(self, fallback);
    hide Names, HealthyNames;
  }

  lemma TallyTells(self: string, fallback: set<string>, records: seq<Record>, seen: set<string>,
                   healthyCount: nat, totalCount: nat, healthyNonFallback: nat)
    requires Tallied(self, fallback, records, seen, healthyCount, totalCount, healthyNonFallback)
    ensures healthyCount == |HealthyNames(self, records)| && totalCount == |Names(self, records)|
    ensures healthyNonFallback == |HealthyNames(self, records) - fallback|
  {
  }

  lemma TallyStep(self: string, fallback: set<string>, records: seq<Record>, rec: Record, seen: set<string>,
                  healthyCount: nat, totalCount: nat, healthyNonFallback: nat)
    requires Tallied(self, fallback, records, seen, healthyCount, totalCount, healthyNonFallback)
    ensures var name := Trim(rec.node);
      if name == "" || name in seen
      then Tallied(self, fallback, records + [rec], seen, healthyCount, totalCount, healthyNonFallback)
      else
        var up := if rec.healthy then 1 else 0;
        Tallied(self, fallback, records + [rec], seen + {name}, healthyCount + up, totalCount + 1,
                healthyNonFallback + if name in fallback then 0 else up)
  {
    hide Trim, Names, HealthyNames;
    CountsStep(self, records, rec, fallback);
    assert Trim(rec.node) in seen ==> seen + {Trim(rec.node)} == seen;
  }

  method CountNodes(nodeName: string, fallback: set<string>, records: seq<Record>)
    returns (healthyCount: nat, totalCount: nat, healthyNonFallback: nat)
    ensures healthyCount == |HealthyNames(Trim(nodeName), records)|
    ensures totalCount == |Names(Trim(nodeName), records)|
    ensures healthyNonFallback == |HealthyNames(Trim(nodeName), records) - fallback|
  {
    hide *;
    healthyCount, totalCount, healthyNonFallback := 0, 0, 0;
    var seen: set<string> := {};
    var self := Trim(nodeName);
    TallyBegins(self, fallback);
    if self != "" {
      seen := {self};
      totalCount := totalCount + 1;
      healthyCount := healthyCount + 1;
      if self !in fallback {
        healthyNonFallback := healthyNonFallback + 1;
      }
    }
    assert records[..0] == [];
    for i := 0 to |records|
      invariant Tallied(self, fallback, records[..i], seen, healthyCount, totalCount, healthyNonFallback)
    {
      assert records[..i + 1] == records[..i] + [records[i]];
      TallyStep(self, fallback, records[..i], records[i], seen, healthyCount, totalCount, healthyNonFallback);
      var node := Trim(records[i].node);
      if node == "" {
        continue;
      }
      if node in seen {
        continue;
      }
      seen := seen + {node};
      totalCount := totalCount + 1;
      if records[i].healthy {
        healthyCount := healthyCount + 1;
        if node !in fallback {
          healthyNonFallback := healthyNonFallback + 1;
        }
      }
    }
    assert records[..|records|] == records;
    TallyTells(self, fallback, records, seen, healthyCount, totalCount, healthyNonFallback);
  }

  lemma NoneLeft(healthy: set<string>, p: Policies)
    ensures OnlyFallback(healthy, p) <==> |Fallback(p)| > 0 && |healthy| > 0 && |healthy - Fallback(p)| == 0
  {
    hide Fallback;
    if |healthy - Fallback(p)| == 0 {
      assert healthy - Fallback(p) == {};
      assert forall n | n in healthy :: n !in healthy - Fallback(p);
    }
    if healthy <= Fallback(p) {
      assert healthy - Fallback(p) == {};
    }
  }

  method EvaluateClusterPolicies(nodeName: string, policies: Policies, records: seq<Record>)
    returns (blocked: bool, reasons: seq<Reason>, blockers: seq<Record>)
    ensures blocked <==> Blocks(nodeName, policies, records)
    ensures reasons == Reasons(nodeName, policies, records)
    ensures blockers == if blocked then Unhealthy(records, nodeName) else []
  {
    hide Trim, Unhealthy, Names, HealthyNames, Required, Fallback, OnlyFallback;
    var unhealthy := FilterClusterRecords(records, nodeName);
    reasons := [];
    if |unhealthy| > 0 {
      reasons := reasons + [UnhealthyPeers(unhealthy)];
    }
    var fallbackSet := FallbackSet(policies);
    var healthyCount, totalCount, healthyNonFallback := CountNodes(nodeName, fallbackSet, records);
    ghost var found := Found(unhealthy != [], UnhealthyPeers(unhealthy));
    assert reasons == found;
    if policies.minHealthyAbsolute.Some? {
      var minAbs := policies.minHealthyAbsolute.value;
      if healthyCount < minAbs {
        reasons := reasons + [BelowMinimum(healthyCount, minAbs)];
      }
    }
    found := found + Found(policies.minHealthyAbsolute.Some? && healthyCount < policies.minHealthyAbsolute.value,
                           BelowMinimum(healthyCount, policies.minHealthyAbsolute.GetOr(0)));
    assert reasons == found;
    if policies.minHealthyFraction.Some? && totalCount > 0 {
      var fraction := policies.minHealthyFraction.value;
      var required := Required(fraction, totalCount);
      if healthyCount < required {
        reasons := reasons + [BelowFraction(healthyCount, fraction, required, totalCount)];
      }
    }
    var fraction := policies.minHealthyFraction.GetOr(0.0);
    found := found + Found(policies.minHealthyFraction.Some? && totalCount > 0 && healthyCount < Required(fraction, totalCount),
                           BelowFraction(healthyCount, fraction, Required(fraction, totalCount), totalCount));
    assert reasons == found;
    NoneLeft(HealthyNames(Trim(nodeName), records), policies);
    if policies.forbidIfOnlyFallbackLeft && |fallbackSet| > 0 && healthyCount > 0 && healthyNonFallback == 0 {
      reasons := reasons + [OnlyFallbackLeft];
    }
    assert reasons == Reasons(nodeName, policies, records);
    if |reasons| == 0 {
      return false, [], [];
    }
    return true, reasons, unhealthy;
  }

  // ----- What the counts and the reasons mean -----

  /** The record at a position is the first one under a name. */
  ghost predicate FirstUnder(records: seq<Record>, i: nat, name: string) {
    i < |records| && Trim(records[i].node) == name && forall j | 0 <= j < i :: Trim(records[j].node) != name
  }

  lemma {:induction false} FirstVerdictMeaning(records: seq<Record>, name: string)
    ensures FirstVerdict(records, name).Some? <==> exists i: nat :: FirstUnder(records, i, name)
    ensures forall i: nat | FirstUnder(records, i, name) :: FirstVerdict(records, name) == Some(records[i].healthy)
  {
    hide Trim;
    if records != [] {
      var n := |records| - 1;
      FirstVerdictMeaning(records[..n], name);
      forall i: nat
        ensures i < n ==> (FirstUnder(records, i, name) <==> FirstUnder(records[..n], i, name))
      {
      }
      if FirstVerdict(records[..n], name).Some? {
        var i: nat :| FirstUnder(records[..n], i, name);
        assert FirstUnder(records, i, name);
      } else if Trim(records[n].node) == name {
        forall j | 0 <= j < n
          ensures Trim(records[j].node) != name
        {
          NotUnder(records, n, name, j);
        }
        assert FirstUnder(records, n, name);
      }
    }
  }

  /** Where no record is the first under a name, none is under it. */
  lemma {:induction false} NotUnder(records: seq<Record>, n: nat, name: string, j: nat)
    requires j < n <= |records| && forall i: nat :: !FirstUnder(records[..n], i, name)
    ensures Trim(records[j].node) != name
    decreases j
  {
    forall k | 0 <= k < j
      ensures Trim(records[k].node) != name
    {
      NotUnder(records, n, name, k);
    }
    hide Trim;
    assert !FirstUnder(records[..n], j, name);
  }

  /** Counted as healthy are this node, if it has a name, and every other visible name whose first record says so. */
  lemma HealthyMeaning(self: string, records: seq<Record>, name: string)
    ensures name in HealthyNames(self, records)
       <==> name != "" && (name == self || exists i: nat :: FirstUnder(records, i, name) && records[i].healthy)
  {
    FirstVerdictMeaning(records, name);
    hide Trim, FirstVerdict;
    if i: nat :| FirstUnder(records, i, name) && records[i].healthy {
      assert records[i] in records;
    }
  }

  /** A number of nodes is at least the required one exactly when it is at least the fraction of all. */
  lemma RequiredIsLeast(fraction: real, total: nat, n: int)
    ensures n >= Required(fraction, total) <==> n as real >= fraction * total as real
  {
  }

  function RankOf(r: Reason): nat {
    match r
    case UnhealthyPeers(_) => 0
    case BelowMinimum(_, _) => 1
    case BelowFraction(_, _, _, _) => 2
    case OnlyFallbackLeft => 3
  }

  /** When a reason holds, with the numbers it is given with. */
  predicate IsGiven(x: Reason, p: Policies, unhealthy: seq<Record>, healthy: nat, total: nat, onlyFallback: bool) {
    match x
    case UnhealthyPeers(records) => records != [] && records == unhealthy
    case BelowMinimum(h, m) => p.minHealthyAbsolute == Some(m) && h == healthy && h < m
    case BelowFraction(h, f, r, t) =>
      p.minHealthyFraction == Some(f) && h == healthy && t == total > 0 && r == Required(f, t) && h < r
    case OnlyFallbackLeft => p.forbidIfOnlyFallbackLeft && onlyFallback
  }

  lemma InOneOfFour(a: seq<Reason>, b: seq<Reason>, c: seq<Reason>, d: seq<Reason>, x: Reason)
    ensures x in a + b + c + d <==> x in a || x in b || x in c || x in d
  {
  }

  lemma ReasonIsGiven(p: Policies, unhealthy: seq<Record>, healthy: nat, total: nat, onlyFallback: bool, x: Reason)
    ensures x in ReasonsFrom(p, unhealthy, healthy, total, onlyFallback) <==> IsGiven(x, p, unhealthy, healthy, total, onlyFallback)
  {
    hide Required;
    var fraction := p.minHealthyFraction.GetOr(0.0);
    InOneOfFour(Found(unhealthy != [], UnhealthyPeers(unhealthy)),
                Found(p.minHealthyAbsolute.Some? && healthy < p.minHealthyAbsolute.value,
                      BelowMinimum(healthy, p.minHealthyAbsolute.GetOr(0))),
                Found(p.minHealthyFraction.Some? && total > 0 && healthy < Required(p.minHealthyFraction.value, total),
                      BelowFraction(healthy, fraction, Required(fraction, total), total)),
                Found(p.forbidIfOnlyFallbackLeft && onlyFallback, OnlyFallbackLeft), x);
  }

  lemma ReasonsInOrder(p: Policies, unhealthy: seq<Record>, healthy: nat, total: nat, onlyFallback: bool)
    ensures var rs := ReasonsFrom(p, unhealthy, healthy, total, onlyFallback);
      forall i, j | 0 <= i < j < |rs| :: RankOf(rs[i]) < RankOf(rs[j])
  {
    hide Required;
  }

  /** Each reason is given exactly when it holds, with the numbers it holds for; each once, and in this order. */
  lemma ReasonsTell(nodeName: string, p: Policies, records: seq<Record>)
    ensures var (rs, healthy, total)
      := (Reasons(nodeName, p, records), HealthyNames(Trim(nodeName), records), |Names(Trim(nodeName), records)|);
      && (forall x :: x in rs <==> IsGiven(x, p, Unhealthy(records, nodeName), |healthy|, total, OnlyFallback(healthy, p)))
      && (forall i, j | 0 <= i < j < |rs| :: RankOf(rs[i]) < RankOf(rs[j]))
  {
    hide Trim, Names, HealthyNames, Unhealthy, OnlyFallback, ReasonsFrom, IsGiven;
    var healthy, total := HealthyNames(Trim(nodeName), records), |Names(Trim(nodeName), records)|;
    forall x
      ensures x in Reasons(nodeName, p, records) <==>
        IsGiven(x, p, Unhealthy(records, nodeName), |healthy|, total, OnlyFallback(healthy, p))
    {
      ReasonIsGiven(p, Unhealthy(records, nodeName), |healthy|, total, OnlyFallback(healthy, p), x);
    }
    ReasonsInOrder(p, Unhealthy(records, nodeName), |healthy|, total, OnlyFallback(healthy, p));
  }

  // ----- What the decision depends on -----

  /** With no unhealthy peer, every named node counts as healthy. */
  lemma AllHealthyUnlessPeersDown(nodeName: string, records: seq<Record>)
    requires Unhealthy(records, nodeName) == []
    ensures HealthyNames(Trim(nodeName), records) == Names(Trim(nodeName), records)
  {
    hide Trim;
    var self := Trim(nodeName);
    assert forall r | r in records && !r.healthy && !(nodeName != "" && r.node == nodeName) :: r in Unhealthy(records, nodeName);
    forall n | n in Names(self, records) && n != self
      ensures FirstVerdict(records, n) == Some(true)
    {
      NamedHasVerdict(self, records, n);
      VerdictIsSomeRecord(records, n);
    }
  }

  lemma {:induction false} VerdictIsSomeRecord(records: seq<Record>, name: string)
    requires FirstVerdict(records, name).Some?
    ensures exists r :: r in records && Trim(r.node) == name && FirstVerdict(records, name) == Some(r.healthy)
  {
    var n := |records| - 1;
    if FirstVerdict(records[..n], name).Some? {
      VerdictIsSomeRecord(records[..n], name);
    } else {
      assert records[n] in records;
    }
  }

  /** Blocking in terms of the set of names alone: some peer is down, too few nodes are named, or only fallback ones are. */
  ghost predicate BlocksBySet(nodeName: string, p: Policies, records: seq<Record>) {
    var names := Names(Trim(nodeName), records);
    || PeerDown(nodeName, records)
    || (p.minHealthyAbsolute.Some? && |names| < p.minHealthyAbsolute.value)
    || (p.forbidIfOnlyFallbackLeft && OnlyFallback(names, p))
  }

  lemma FractionOfAtMostOne(fraction: real, total: nat)
    requires fraction <= 1.0
    ensures Required(fraction, total) <= total
  {
    assert fraction * total as real <= total as real;
  }

  lemma FractionAboveOne(fraction: real, total: nat)
    requires fraction > 1.0 && total > 0
    ensures Required(fraction, total) > total
  {
    assert fraction * total as real > total as real;
  }

  /** There is a reason exactly when one of the four conditions holds. */
  lemma SomeReason(p: Policies, unhealthy: seq<Record>, healthy: nat, total: nat, onlyFallback: bool)
    ensures ReasonsFrom(p, unhealthy, healthy, total, onlyFallback) != [] <==>
      || unhealthy != []
      || (p.minHealthyAbsolute.Some? && healthy < p.minHealthyAbsolute.value)
      || (p.minHealthyFraction.Some? && total > 0 && healthy < Required(p.minHealthyFraction.value, total))
      || (p.forbidIfOnlyFallbackLeft && onlyFallback)
  {
    hide Required;
  }

  ghost predicate PeerDown(nodeName: string, records: seq<Record>) {
    exists r :: r in records && !r.healthy && !(nodeName != "" && r.node == nodeName)
  }

  lemma PeerDownIsUnhealthy(nodeName: string, records: seq<Record>)
    ensures PeerDown(nodeName, records) <==> Unhealthy(records, nodeName) != []
  {
    if PeerDown(nodeName, records) {
      var r :| r in records && !r.healthy && !(nodeName != "" && r.node == nodeName);
      assert r in Unhealthy(records, nodeName);
    }
    if Unhealthy(records, nodeName) != [] {
      assert Unhealthy(records, nodeName)[0] in Unhealthy(records, nodeName);
    }
  }

  lemma DecisionBySet(nodeName: string, p: Policies, records: seq<Record>)
    requires p.minHealthyFraction.Some? ==> p.minHealthyFraction.value <= 1.0
    ensures Blocks(nodeName, p, records) <==> BlocksBySet(nodeName, p, records)
  {
    hide Trim, Names, HealthyNames, Unhealthy, Required, ReasonsFrom, PeerDown, OnlyFallback;
    var names, healthy := Names(Trim(nodeName), records), HealthyNames(Trim(nodeName), records);
    PeerDownIsUnhealthy(nodeName, records);
    SomeReason(p, Unhealthy(records, nodeName), |healthy|, |names|, OnlyFallback(healthy, p));
    if !PeerDown(nodeName, records) {
      AllHealthyUnlessPeersDown(nodeName, records);
      if p.minHealthyFraction.Some? {
        FractionOfAtMostOne(p.minHealthyFraction.value, |names|);
      }
    }
  }

  lemma SameNames(self: string, a: seq<Record>, b: seq<Record>)
    requires forall r :: r in a <==> r in b
    ensures Names(self, a) == Names(self, b)
  {
    hide Trim;
  }

  /** Whether a node is blocked depends only on which records there are, not on their order or repetition. */
  lemma DecisionIgnoresOrder(nodeName: string, p: Policies, a: seq<Record>, b: seq<Record>)
    requires p.Valid() && forall r :: r in a <==> r in b
    ensures Blocks(nodeName, p, a) <==> Blocks(nodeName, p, b)
  {
    hide Trim, Blocks, OnlyFallback;
    DecisionBySet(nodeName, p, a);
    DecisionBySet(nodeName, p, b);
    SameNames(Trim(nodeName), a, b);
  }

  lemma LowMinimumReported(p: Policies, unhealthy: seq<Record>, healthy: nat, total: nat, onlyFallback: bool)
    requires p.minHealthyAbsolute.Some?
    ensures BelowMinimum(healthy, p.minHealthyAbsolute.value) in ReasonsFrom(p, unhealthy, healthy, total, onlyFallback)
       <==> healthy < p.minHealthyAbsolute.value
    ensures forall h :: h != healthy ==>
      BelowMinimum(h, p.minHealthyAbsolute.value) !in ReasonsFrom(p, unhealthy, healthy, total, onlyFallback)
  {
    hide Required;
  }

  /** A fraction of at most one never decides: removing it changes no decision. */
  lemma FractionAddsNothing(nodeName: string, p: Policies, records: seq<Record>)
    requires p.minHealthyFraction.Some? && p.minHealthyFraction.value <= 1.0
    ensures Blocks(nodeName, p, records) <==> Blocks(nodeName, p.(minHealthyFraction := None), records)
  {
    DecisionBySet(nodeName, p, records);
    DecisionBySet(nodeName, p.(minHealthyFraction := None), records);
  }

  /** A fraction above one, which validation rejects, would block a named node whatever the records. */
  lemma FractionAboveOneBlocks(nodeName: string, p: Policies, records: seq<Record>)
    requires p.minHealthyFraction.Some? && p.minHealthyFraction.value > 1.0 && Trim(nodeName) != ""
    ensures Blocks(nodeName, p, records)
  {
    hide Trim, Required, ReasonsFrom, OnlyFallback;
    var names, healthy := Names(Trim(nodeName), records), HealthyNames(Trim(nodeName), records);
    assert Trim(nodeName) in names;
    SubsetCardinality(healthy, names);
    FractionAboveOne(p.minHealthyFraction.value, |names|);
    SomeReason(p, Unhealthy(records, nodeName), |healthy|, |names|, OnlyFallback(healthy, p));
  }

  lemma {:induction false} SubsetCardinality<T>(a: set<T>, b: set<T>)
    requires a <= b
    ensures |a| <= |b|
  {
    assert b == a + (b - a);
  }

  /**
   One more healthy record, anywhere in the list, leaves an allowed node allowed, save in one case: no node was named
   before, and the new one is a fallback node where fallback nodes may not be the only ones left. A node with a name of
   its own, as validation demands, never meets that case.
   */
  lemma HealthyPeerAddsNoBlock(nodeName: string, p: Policies, before: seq<Record>, rec: Record, after: seq<Record>)
    requires p.Valid() && rec.healthy && !Blocks(nodeName, p, before + after)
    ensures Blocks(nodeName, p, before + [rec] + after)
      <==> Names(Trim(nodeName), before + after) == {} && p.forbidIfOnlyFallbackLeft && Trim(rec.node) in Fallback(p)
    ensures Trim(nodeName) != "" ==> !Blocks(nodeName, p, before + [rec] + after)
  {
    hide Trim, Blocks;
    var old', new' := before + after, before + [rec] + after;
    DecisionBySet(nodeName, p, old');
    DecisionBySet(nodeName, p, new');
    assert forall r :: r in new' <==> r in old' || r == rec;
    NamesGrow(Trim(nodeName), old', rec, new');
    SubsetCardinality(Names(Trim(nodeName), old'), Names(Trim(nodeName), new'));
    assert "" !in Fallback(p);
  }

  lemma NamesGrow(self: string, records: seq<Record>, rec: Record, more: seq<Record>)
    requires forall r :: r in more <==> r in records || r == rec
    ensures Names(self, more) == Names(self, records) + if Trim(rec.node) == "" then {} else {Trim(rec.node)}
    ensures self != "" ==> Names(self, records) != {}
  {
    hide Trim;
    if self != "" {
      assert self in Names(self, records);
    }
  }
}
