/** When the reported reasons depend on the order in which the store lists its records. */
module ReasonOrder {
  import opened Wrappers
  import opened Text
  import opened ClusterPolicy

  /** A record that is counted under a name of another node. */
  predicate Counts(self: string, r: Record) {
    Trim(r.node) != "" && Trim(r.node) != self
  }

  /** No two counted records of one node contradict each other. */
  ghost predicate Agreed(self: string, records: seq<Record>) {
    forall r, q | r in records && q in records && Counts(self, r) && Trim(r.node) == Trim(q.node) :: r.healthy == q.healthy
  }

  /** No two records of unhealthy peers differ. */
  ghost predicate OneUnhealthy(nodeName: string, records: seq<Record>) {
    forall r, q | r in Unhealthy(records, nodeName) && q in Unhealthy(records, nodeName) :: r == q
  }

  /** The reasons that follow from the counts of nodes. */
  function Counted(nodeName: string, p: Policies, records: seq<Record>): seq<Reason> {
    var healthy := HealthyNames(Trim(nodeName), records);
    ReasonsFrom(p, [], |healthy|, |Names(Trim(nodeName), records)|, OnlyFallback(healthy, p))
  }

  /** All reasons: the unhealthy peers, as listed, and those that follow from counts. */
  lemma ReasonsAre(nodeName: string, p: Policies, records: seq<Record>)
    ensures var unhealthy := Unhealthy(records, nodeName);
      Reasons(nodeName, p, records) == Found(unhealthy != [], UnhealthyPeers(unhealthy)) + Counted(nodeName, p, records)
    ensures forall r | r in Counted(nodeName, p, records) :: !r.UnhealthyPeers?
  {
    hide Trim, Names, HealthyNames, Unhealthy, OnlyFallback, Required;
    var healthy := HealthyNames(Trim(nodeName), records);
    ReasonsSplit(p, Unhealthy(records, nodeName), |healthy|, |Names(Trim(nodeName), records)|, OnlyFallback(healthy, p));
  }

  lemma ReasonsSplit(p: Policies, unhealthy: seq<Record>, healthy: nat, total: nat, onlyFallback: bool)
    ensures ReasonsFrom(p, unhealthy, healthy, total, onlyFallback)
         == Found(unhealthy != [], UnhealthyPeers(unhealthy)) + ReasonsFrom(p, [], healthy, total, onlyFallback)
    ensures forall r | r in ReasonsFrom(p, [], healthy, total, onlyFallback) :: !r.UnhealthyPeers?
  {
    hide Required;
  }

  // ----- Lists with the same records -----

  lemma SameRecords(a: seq<Record>, b: seq<Record>)
    requires multiset(a) == multiset(b)
    ensures forall r :: r in a <==> r in b
  {
    assert forall r :: (r in a <==> r in multiset(a)) && (r in b <==> r in multiset(b));
  }

  lemma MovedToFront(a: seq<Record>, i: nat)
    requires i < |a|
    ensures multiset(a) == multiset([a[i]] + (a[..i] + a[i + 1..]))
    ensures forall r | r in a && r != a[i] :: r in a[..i] + a[i + 1..]
  {
    assert a == a[..i] + [a[i]] + a[i + 1..];
  }

  /** Two records of a list can be listed first, in either order. */
  lemma TwoInFront(a: seq<Record>, r: Record, q: Record) returns (rest: seq<Record>)
    requires r in a && q in a && r != q
    ensures multiset(a) == multiset([r, q] + rest) == multiset([q, r] + rest)
  {
    var i :| 0 <= i < |a| && a[i] == r;
    MovedToFront(a, i);
    var others := a[..i] + a[i + 1..];
    assert q in others;
    var j :| 0 <= j < |others| && others[j] == q;
    MovedToFront(others, j);
    rest := others[..j] + others[j + 1..];
    assert multiset([r] + others) == multiset{r} + multiset(others) && multiset([q] + rest) == multiset{q} + multiset(rest);
    assert multiset([r, q] + rest) == multiset{r, q} + multiset(rest) == multiset([q, r] + rest);
  }

  lemma {:induction false} UnhealthyConcat(a: seq<Record>, b: seq<Record>, exclude: string)
    ensures Unhealthy(a + b, exclude) == Unhealthy(a, exclude) + Unhealthy(b, exclude)
  {
    if b == [] {
      assert a + b == a;
    } else {
      var n := |b| - 1;
      assert (a + b)[..|a + b| - 1] == a + b[..n];
      UnhealthyConcat(a, b[..n], exclude);
    }
  }

  /** Whatever the order, the same unhealthy peers are listed. */
  lemma {:induction false} UnhealthyCount(a: seq<Record>, exclude: string, r: Record)
    ensures multiset(Unhealthy(a, exclude))[r]
         == if !r.healthy && !(exclude != "" && r.node == exclude) then multiset(a)[r] else 0
  {
    if a != [] {
      var n := |a| - 1;
      assert a == a[..n] + [a[n]];
      UnhealthyCount(a[..n], exclude, r);
    }
  }

  lemma SameUnhealthy(a: seq<Record>, b: seq<Record>, exclude: string)
    requires multiset(a) == multiset(b)
    ensures multiset(Unhealthy(a, exclude)) == multiset(Unhealthy(b, exclude))
  {
    forall r
      ensures multiset(Unhealthy(a, exclude))[r] == multiset(Unhealthy(b, exclude))[r]
    {
      UnhealthyCount(a, exclude, r);
      UnhealthyCount(b, exclude, r);
    }
  }

  lemma AllAlike(a: seq<Record>, b: seq<Record>)
    requires multiset(a) == multiset(b) && forall r, q | r in a && q in a :: r == q
    ensures a == b
  {
    assert |a| == |multiset(a)| == |multiset(b)| == |b|;
    SameRecords(a, b);
    assert forall i | 0 <= i < |a| :: a[i] in a && b[i] in b;
  }

  // ----- Agreement -----

  /** Where records agree, any of them tells the verdict. */
  lemma VerdictAgreed(self: string, records: seq<Record>, r: Record)
    requires Agreed(self, records) && r in records && Counts(self, r)
    ensures FirstVerdict(records, Trim(r.node)) == Some(r.healthy)
  {
    hide Trim;
    NamedHasVerdict(self, records, Trim(r.node));
    VerdictIsSomeRecord(records, Trim(r.node));
  }

  lemma SameHealthy(self: string, a: seq<Record>, b: seq<Record>)
    requires Agreed(self, a) && multiset(a) == multiset(b)
    ensures Names(self, a) == Names(self, b) && HealthyNames(self, a) == HealthyNames(self, b)
  {
    SameRecords(a, b);
    SameNames(self, a, b);
    forall n | n in Names(self, a) && n != self
      ensures FirstVerdict(a, n) == FirstVerdict(b, n)
    {
      var r :| r in a && Trim(r.node) == n;
      hide Trim;
      VerdictAgreed(self, a, r);
      VerdictAgreed(self, b, r);
    }
    hide Trim, Names, FirstVerdict;
  }

  lemma AgreedIgnoresOrder(nodeName: string, p: Policies, a: seq<Record>, b: seq<Record>)
    requires Agreed(Trim(nodeName), a) && multiset(a) == multiset(b)
    ensures Counted(nodeName, p, a) == Counted(nodeName, p, b)
  {
    hide Trim, Names, HealthyNames, ReasonsFrom, OnlyFallback;
    SameHealthy(Trim(nodeName), a, b);
  }

  // ----- Contradiction -----

  lemma {:induction false} FirstDecides(r: Record, rest: seq<Record>)
    ensures FirstVerdict([r] + rest, Trim(r.node)) == Some(r.healthy)
  {
    hide Trim;
    if rest == [] {
      assert [r] + rest == [r] && [r][..0] == [];
    } else {
      assert ([r] + rest)[..|rest|] == [r] + rest[..|rest| - 1];
      FirstDecides(r, rest[..|rest| - 1]);
    }
  }

  lemma {:induction false} OthersDecide(front: seq<Record>, rest: seq<Record>, name: string)
    requires forall r | r in front :: Trim(r.node) != name
    ensures FirstVerdict(front + rest, name) == FirstVerdict(rest, name)
  {
    hide Trim;
    if rest == [] {
      assert front + rest == front;
      if front != [] {
        OthersDecide(front[..|front| - 1], [], name);
        assert front[..|front| - 1] + [] == front[..|front| - 1];
        assert front[|front| - 1] in front;
      }
    } else {
      assert (front + rest)[..|front + rest| - 1] == front + rest[..|rest| - 1];
      OthersDecide(front, rest[..|rest| - 1], name);
    }
  }

  /** Of two contradicting records, the one listed first decides for their node, and neither for another. */
  lemma SwapChangesVerdict(up: Record, down: Record, rest: seq<Record>)
    requires Trim(up.node) == Trim(down.node)
    ensures var (a, b, name) := ([up, down] + rest, [down, up] + rest, Trim(up.node));
      && FirstVerdict(a, name) == Some(up.healthy) && FirstVerdict(b, name) == Some(down.healthy)
      && forall n | n != name :: FirstVerdict(a, n) == FirstVerdict(b, n)
  {
    hide Trim, FirstVerdict;
    var a, b, name := [up, down] + rest, [down, up] + rest, Trim(up.node);
    assert a == [up] + ([down] + rest) && b == [down] + ([up] + rest);
    FirstDecides(up, [down] + rest);
    FirstDecides(down, [up] + rest);
    forall n | n != name
      ensures FirstVerdict(a, n) == FirstVerdict(b, n)
    {
      OthersDecide([up, down], rest, n);
      OthersDecide([down, up], rest, n);
    }
  }

  lemma OneVerdictMore(self: string, a: seq<Record>, b: seq<Record>, name: string)
    requires Names(self, a) == Names(self, b) && name in Names(self, a) && name != self
    requires FirstVerdict(a, name) == Some(true) && FirstVerdict(b, name) == Some(false)
    requires forall n | n != name :: FirstVerdict(a, n) == FirstVerdict(b, n)
    ensures name !in HealthyNames(self, b) && HealthyNames(self, a) == HealthyNames(self, b) + {name}
  {
    hide Names, FirstVerdict;
  }

  /** Listed first, the one of two contradicting records that finds the node healthy adds exactly that node. */
  lemma SwapChangesHealthy(self: string, up: Record, down: Record, rest: seq<Record>)
    requires Counts(self, up) && Trim(up.node) == Trim(down.node) && up.healthy && !down.healthy
    ensures var (a, b) := ([up, down] + rest, [down, up] + rest);
      && Trim(up.node) !in HealthyNames(self, b) && HealthyNames(self, a) == HealthyNames(self, b) + {Trim(up.node)}
  {
    var a, b := [up, down] + rest, [down, up] + rest;
    assert forall r :: r in a <==> r in b;
    SwapChangesVerdict(up, down, rest);
    SameNames(self, a, b);
    hide Trim, HealthyNames, FirstVerdict;
    assert up in a && Trim(up.node) in Names(self, a);
    OneVerdictMore(self, a, b, Trim(up.node));
  }

  /** A minimum that exactly meets the count of one order is reported for the other. */
  lemma ContradictionIsReported(nodeName: string, up: Record, down: Record, rest: seq<Record>) returns (p: Policies)
    requires Counts(Trim(nodeName), up) && Trim(up.node) == Trim(down.node) && up.healthy && !down.healthy
    ensures p.Valid() && Counted(nodeName, p, [up, down] + rest) != Counted(nodeName, p, [down, up] + rest)
  {
    hide Trim, Names, HealthyNames, OnlyFallback, ReasonsFrom;
    var self, a, b := Trim(nodeName), [up, down] + rest, [down, up] + rest;
    SwapChangesHealthy(self, up, down, rest);
    var high, low := HealthyNames(self, a), HealthyNames(self, b);
    p := Policies(None, Some(|high|), false, []);
    LowMinimumReported(p, [], |high|, |Names(self, a)|, OnlyFallback(high, p));
    LowMinimumReported(p, [], |low|, |Names(self, b)|, OnlyFallback(low, p));
  }

  /** Two different unhealthy peers are reported in the order they are listed in. */
  lemma UnhealthyFollowOrder(nodeName: string, p: Policies, r: Record, q: Record, rest: seq<Record>)
    requires r != q && !r.healthy && !q.healthy && !(nodeName != "" && (r.node == nodeName || q.node == nodeName))
    ensures Reasons(nodeName, p, [r, q] + rest) != Reasons(nodeName, p, [q, r] + rest)
  {
    UnhealthyConcat([r, q], rest, nodeName);
    UnhealthyConcat([q, r], rest, nodeName);
    UnhealthyConcat([r], [q], nodeName);
    UnhealthyConcat([q], [r], nodeName);
    assert [r] + [q] == [r, q] && [q] + [r] == [q, r];
    assert Unhealthy([r], nodeName) == [r] && Unhealthy([q], nodeName) == [q] by {
      assert [r][..0] == [] && [q][..0] == [];
    }
    hide Unhealthy, Counted, Reasons;
    ReasonsAre(nodeName, p, [r, q] + rest);
    ReasonsAre(nodeName, p, [q, r] + rest);
    assert Unhealthy([r, q] + rest, nodeName)[0] == r && Unhealthy([q, r] + rest, nodeName)[0] == q;
    assert Reasons(nodeName, p, [r, q] + rest)[0] == UnhealthyPeers(Unhealthy([r, q] + rest, nodeName));
    assert Reasons(nodeName, p, [q, r] + rest)[0] == UnhealthyPeers(Unhealthy([q, r] + rest, nodeName));
  }

  // ----- The exact conditions -----

  /** Whatever valid policies ask for, the reasons that follow from counts are the same in every order of the records. */
  ghost predicate CountsIgnoreOrder(nodeName: string, a: seq<Record>) {
    forall p: Policies, b | p.Valid() && multiset(b) == multiset(a) :: Counted(nodeName, p, b) == Counted(nodeName, p, a)
  }

  ghost predicate ReasonsIgnoreOrder(nodeName: string, a: seq<Record>) {
    forall p: Policies, b | p.Valid() && multiset(b) == multiset(a) :: Reasons(nodeName, p, b) == Reasons(nodeName, p, a)
  }

  lemma ContradictionMatters(nodeName: string, a: seq<Record>) returns (p: Policies, b: seq<Record>, c: seq<Record>)
    requires !Agreed(Trim(nodeName), a)
    ensures p.Valid() && multiset(b) == multiset(c) == multiset(a) && Counted(nodeName, p, b) != Counted(nodeName, p, c)
  {
    var self := Trim(nodeName);
    var r, q :| r in a && q in a && Counts(self, r) && Trim(r.node) == Trim(q.node) && r.healthy != q.healthy;
    hide Trim, Counted;
    var up, down := if r.healthy then r else q, if r.healthy then q else r;
    var rest := TwoInFront(a, up, down);
    b, c := [up, down] + rest, [down, up] + rest;
    p := ContradictionIsReported(nodeName, up, down, rest);
  }

  /** They are exactly when no two records of another node contradict each other. */
  lemma CountsIgnoreOrderExactly(nodeName: string, a: seq<Record>)
    ensures CountsIgnoreOrder(nodeName, a) <==> Agreed(Trim(nodeName), a)
  {
    hide Trim, Counted, Agreed;
    if Agreed(Trim(nodeName), a) {
      forall p: Policies, b | p.Valid() && multiset(b) == multiset(a)
        ensures Counted(nodeName, p, b) == Counted(nodeName, p, a)
      {
        AgreedIgnoresOrder(nodeName, p, a, b);
      }
    } else {
      var p, b, c := ContradictionMatters(nodeName, a);
    }
  }

  /**
   All reasons are the same in every order exactly when, besides, no two unhealthy peers differ: these are reported in the order
   in which they are listed.
   */
  lemma ReasonsIgnoreOrderExactly(nodeName: string, a: seq<Record>)
    ensures ReasonsIgnoreOrder(nodeName, a) <==> Agreed(Trim(nodeName), a) && OneUnhealthy(nodeName, a)
  {
    hide Trim, Agreed, Counted, Reasons, OneUnhealthy;
    if !OneUnhealthy(nodeName, a) {
      DifferentPeersMatter(nodeName, a);
    } else if !Agreed(Trim(nodeName), a) {
      var p, b, c := ContradictionMatters(nodeName, a);
      SameReasons(nodeName, p, a, b);
      SameReasons(nodeName, p, a, c);
    } else {
      forall p: Policies, b | p.Valid() && multiset(b) == multiset(a)
        ensures Reasons(nodeName, p, b) == Reasons(nodeName, p, a)
      {
        AgreedIgnoresOrder(nodeName, p, a, b);
        SameReasons(nodeName, p, a, b);
      }
    }
  }

  lemma SameReasons(nodeName: string, p: Policies, a: seq<Record>, b: seq<Record>)
    requires OneUnhealthy(nodeName, a) && multiset(a) == multiset(b)
    ensures Reasons(nodeName, p, a) == Reasons(nodeName, p, b) <==> Counted(nodeName, p, a) == Counted(nodeName, p, b)
  {
    SameUnhealthy(a, b, nodeName);
    AllAlike(Unhealthy(a, nodeName), Unhealthy(b, nodeName));
    hide Unhealthy, Counted, Reasons;
    ReasonsAre(nodeName, p, a);
    ReasonsAre(nodeName, p, b);
    var first := Found(Unhealthy(a, nodeName) != [], UnhealthyPeers(Unhealthy(a, nodeName)));
    assert (first + Counted(nodeName, p, a))[|first|..] == Counted(nodeName, p, a);
    assert (first + Counted(nodeName, p, b))[|first|..] == Counted(nodeName, p, b);
  }

  lemma TwoUnhealthy(nodeName: string, a: seq<Record>) returns (r: Record, q: Record)
    requires !OneUnhealthy(nodeName, a)
    ensures r in a && q in a && r != q
    ensures !r.healthy && !q.healthy && !(nodeName != "" && (r.node == nodeName || q.node == nodeName))
  {
    r, q :| r in Unhealthy(a, nodeName) && q in Unhealthy(a, nodeName) && r != q;
  }

  lemma DifferentPeersMatter(nodeName: string, a: seq<Record>)
    requires !OneUnhealthy(nodeName, a)
    ensures !ReasonsIgnoreOrder(nodeName, a)
  {
    hide Reasons, OneUnhealthy;
    var r, q := TwoUnhealthy(nodeName, a);
    var rest := TwoInFront(a, r, q);
    var p := Policies(None, None, false, []);
    assert p.Valid();
    UnhealthyFollowOrder(nodeName, p, r, q, rest);
  }

  lemma DifferentNames()
    ensures Trim("self") == "self" && Trim("peer") == "peer" && "self" != "peer" && "peer" != ""
  {
    assert "self"[0] != "peer"[0];
  }

  /** For one: of two contradicting records of a peer only the first is counted. */
  lemma ReasonsFollowOrder() returns (p: Policies, a: seq<Record>, b: seq<Record>)
    ensures p.Valid() && multiset(a) == multiset(b) && Reasons("self", p, a) != Reasons("self", p, b)
  {
    DifferentNames();
    hide Trim, Reasons, Counted, Unhealthy;
    var up, down := Record("peer", true, "", "", 0), Record("peer", false, "", "", 0);
    a, b := [up, down] + [], [down, up] + [];
    assert multiset(a) == multiset(b);
    assert OneUnhealthy("self", a);
    p := ContradictionIsReported("self", up, down, []);
    SameReasons("self", p, a, b);
  }
}
