/**
 The bounds that cluster policies set, once the node that is about to reboot is no longer counted: it counts itself as healthy.
 */
module PolicyBounds {
  import opened Wrappers
  import opened Text
  import opened ClusterPolicy

  // ----- A listing that every valid policy accepts -----

  /** A visible name of a given length. */
  function Name(length: nat): string {
    seq(length, _ => 'n')
  }

  lemma NameTrims(length: nat)
    ensures Trim(Name(length)) == Name(length)
  {
    if length > 0 {
      TrimPadded("", Name(length), "");
      assert "" + Name(length) + "" == Name(length);
    }
  }

  /** Healthy peers with names of a length and beyond. */
  function Peers(length: nat, count: nat): seq<Record> {
    if count == 0 then [] else Peers(length, count - 1) + [Record(Name(length + count), true, "", "", 0)]
  }

  function PeerNames(length: nat, count: nat): set<string> {
    if count == 0 then {} else PeerNames(length, count - 1) + {Name(length + count)}
  }

  lemma {:induction false} PeersAreHealthy(length: nat, count: nat)
    ensures forall r | r in Peers(length, count) :: r.healthy
  {
    if count > 0 {
      PeersAreHealthy(length, count - 1);
    }
  }

  lemma {:induction false} PeerNamesDiffer(length: nat, count: nat)
    ensures forall n | n in PeerNames(length, count) :: length < |n| <= length + count
    ensures |PeerNames(length, count)| == count
  {
    if count > 0 {
      PeerNamesDiffer(length, count - 1);
      assert Name(length + count) !in PeerNames(length, count - 1);
    }
  }

  /** They and this node are all that is named. */
  lemma {:induction false} PeersAreNamed(self: string, length: nat, count: nat)
    ensures Names(self, Peers(length, count)) == (if self != "" then {self} else {}) + PeerNames(length, count)
  {
    hide Trim;
    if count > 0 {
      PeersAreNamed(self, length, count - 1);
      NameTrims(length + count);
      hide Names;
      CountStep(self, Peers(length, count - 1), Record(Name(length + count), true, "", "", 0));
    }
  }

  function Longest(names: seq<string>): nat {
    if names == [] then 0
    else
      var before, last := Longest(names[..|names| - 1]), |names[|names| - 1]|;
      if last > before then last else before
  }

  lemma {:induction false} LongestBounds(names: seq<string>, name: string)
    requires name in names
    ensures |name| <= Longest(names)
  {
    var n := |names| - 1;
    if names[n] != name {
      LongestBounds(names[..n], name);
    }
  }

  lemma {:induction false} TrimmedLength(s: string)
    ensures |Trim(s)| <= |s|
  {
    LeftTrimmedLength(s);
    RightTrimmedLength(TrimLeft(s));
  }

  lemma {:induction false} LeftTrimmedLength(s: string)
    ensures |TrimLeft(s)| <= |s|
  {
    if s != "" && IsSpace(s[0]) {
      LeftTrimmedLength(s[1..]);
    }
  }

  lemma {:induction false} RightTrimmedLength(s: string)
    ensures |TrimRight(s)| <= |s|
  {
    if s != "" && IsSpace(s[|s| - 1]) {
      RightTrimmedLength(s[..|s| - 1]);
    }
  }

  lemma FallbackIsShort(p: Policies, name: string)
    requires name in Fallback(p)
    ensures |name| <= Longest(p.fallbackNodes)
  {
    var f :| f in p.fallbackNodes && Trim(f) == name;
    hide Trim;
    LongestBounds(p.fallbackNodes, f);
    TrimmedLength(f);
  }

  // ----- One listing -----

  /** The nodes that are left while this one reboots. */
  function Others(nodeName: string, records: seq<Record>): set<string> {
    Names(Trim(nodeName), records) - {Trim(nodeName)}
  }

  lemma OthersCount(nodeName: string, records: seq<Record>)
    requires Trim(nodeName) != ""
    ensures |Others(nodeName, records)| == |Names(Trim(nodeName), records)| - 1
    ensures Names(Trim(nodeName), records) == Others(nodeName, records) + {Trim(nodeName)}
  {
    hide Trim;
    assert Trim(nodeName) in Names(Trim(nodeName), records);
    assert Names(Trim(nodeName), records) == Others(nodeName, records) + {Trim(nodeName)};
  }

  /**
   Where the policies do not hold a named node back, those left keep the minimum, or the fraction of all, exactly unless all named
   nodes together only just make it; and a node that is itself a fallback node does not leave fallback nodes only.
   */
  lemma BoundsWithoutThisNode(nodeName: string, p: Policies, records: seq<Record>)
    requires p.Valid() && Trim(nodeName) != "" && !Blocks(nodeName, p, records)
    ensures var (all, others) := (Names(Trim(nodeName), records), Others(nodeName, records));
      && (p.minHealthyAbsolute.Some? ==> (|others| >= p.minHealthyAbsolute.value <==> |all| != p.minHealthyAbsolute.value))
      && (p.minHealthyFraction.Some? ==>
            var required := Required(p.minHealthyFraction.value, |all|);
            |others| >= required <==> |all| != required)
      && (p.forbidIfOnlyFallbackLeft ==> (OnlyFallback(others, p) <==> others != {} && others == all * Fallback(p)))
  {
    hide Trim, Names, Required, Fallback, Blocks, PeerDown;
    DecisionBySet(nodeName, p, records);
    OthersCount(nodeName, records);
    if p.minHealthyFraction.Some? {
      FractionOfAtMostOne(p.minHealthyFraction.value, |Names(Trim(nodeName), records)|);
    }
  }

  // ----- All listings -----

  function MinimumOf(p: Policies): int {
    p.minHealthyAbsolute.GetOr(0)
  }

  /** The fewest nodes, itself included, with which a named node may reboot. */
  function Least(nodeName: string, p: Policies): (n: nat)
    ensures n >= 1
  {
    var alone := if p.forbidIfOnlyFallbackLeft && Trim(nodeName) in Fallback(p) then 2 else 1;
    if MinimumOf(p) > alone then MinimumOf(p) else alone
  }

  lemma AtLeast(nodeName: string, p: Policies, records: seq<Record>)
    requires p.Valid() && Trim(nodeName) != "" && !Blocks(nodeName, p, records)
    ensures |Names(Trim(nodeName), records)| >= Least(nodeName, p)
  {
    hide Trim, Names, Fallback, Blocks, PeerDown;
    DecisionBySet(nodeName, p, records);
    OthersCount(nodeName, records);
    if Trim(nodeName) in Fallback(p) && |Names(Trim(nodeName), records)| == 1 {
      assert Names(Trim(nodeName), records) == {Trim(nodeName)};
    }
  }

  /** A node and healthy peers with longer names than it and all fallback nodes have. */
  lemma WithPeers(nodeName: string, p: Policies, length: nat, count: nat)
    requires Trim(nodeName) != "" && length >= |Trim(nodeName)| && length >= Longest(p.fallbackNodes)
    ensures var records := Peers(length, count);
      && |Names(Trim(nodeName), records)| == count + 1 && Others(nodeName, records) == PeerNames(length, count)
      && Others(nodeName, records) * Fallback(p) == {} && !PeerDown(nodeName, records)
  {
    hide Trim, Fallback, Names, Peers, PeerNames, Longest;
    PeersAreHealthy(length, count);
    PeerNamesDiffer(length, count);
    PeersAreNamed(Trim(nodeName), length, count);
    OthersCount(nodeName, Peers(length, count));
    assert Trim(nodeName) !in PeerNames(length, count);
    forall name | name in PeerNames(length, count)
      ensures name !in Fallback(p)
    {
      if name in Fallback(p) {
        FallbackIsShort(p, name);
      }
    }
  }

  /** Enough nodes, of which those beside this one are healthy and no fallback nodes. */
  lemma EnoughPass(nodeName: string, p: Policies, records: seq<Record>)
    requires p.Valid() && Trim(nodeName) != "" && |Names(Trim(nodeName), records)| >= Least(nodeName, p)
    requires Others(nodeName, records) * Fallback(p) == {} && !PeerDown(nodeName, records)
    ensures !Blocks(nodeName, p, records)
  {
    hide Trim, Blocks, Fallback, Names, PeerDown;
    DecisionBySet(nodeName, p, records);
    OthersCount(nodeName, records);
  }

  /** Every number of nodes from that on is enough, with peers that are no fallback nodes. */
  lemma EnoughNodes(nodeName: string, p: Policies, n: nat) returns (records: seq<Record>)
    requires p.Valid() && Trim(nodeName) != "" && n >= Least(nodeName, p)
    ensures !Blocks(nodeName, p, records) && |Names(Trim(nodeName), records)| == n
    ensures Others(nodeName, records) * Fallback(p) == {}
  {
    hide *;
    var self := Trim(nodeName);
    var length := if |self| > Longest(p.fallbackNodes) then |self| else Longest(p.fallbackNodes);
    records := Peers(length, n - 1);
    WithPeers(nodeName, p, length, n - 1);
    EnoughPass(nodeName, p, records);
  }

  /** Whatever is listed, if the policies let the node reboot, those left keep the minimum. */
  ghost predicate MinimumKept(nodeName: string, p: Policies) {
    forall records | !Blocks(nodeName, p, records) :: |Others(nodeName, records)| >= MinimumOf(p)
  }

  /** That is so exactly for no minimum, or for one node where a fallback node must not be alone. */
  lemma MinimumKeptExactly(nodeName: string, p: Policies)
    requires p.Valid() && Trim(nodeName) != ""
    ensures MinimumKept(nodeName, p)
       <==> MinimumOf(p) == 0 || (MinimumOf(p) == 1 && p.forbidIfOnlyFallbackLeft && Trim(nodeName) in Fallback(p))
  {
    hide Trim, Blocks, Others, Fallback, Names;
    if MinimumOf(p) < Least(nodeName, p) {
      forall records | !Blocks(nodeName, p, records)
        ensures |Others(nodeName, records)| >= MinimumOf(p)
      {
        AtLeast(nodeName, p, records);
        OthersCount(nodeName, records);
      }
    } else {
      var records := EnoughNodes(nodeName, p, Least(nodeName, p));
      OthersCount(nodeName, records);
    }
  }

  /** Likewise, those left keep the fraction of all. */
  ghost predicate FractionKept(nodeName: string, p: Policies)
    requires p.minHealthyFraction.Some?
  {
    forall records | !Blocks(nodeName, p, records) ::
      |Others(nodeName, records)| >= Required(p.minHealthyFraction.value, |Names(Trim(nodeName), records)|)
  }

  lemma RequiredLess(fraction: real, n: nat)
    ensures Required(fraction, n) < n <==> fraction * n as real <= n as real - 1.0
  {
  }

  lemma LessGoesOn(fraction: real, m: nat, n: nat)
    requires fraction <= 1.0 && m <= n && fraction * m as real <= m as real - 1.0
    ensures fraction * n as real <= n as real - 1.0
  {
    var more := (n - m) as real;
    assert fraction * n as real == fraction * m as real + fraction * more;
    assert fraction * more <= more;
  }

  /** That is so exactly if the fraction leaves out a whole node of the fewest with which the node may reboot. */
  lemma FractionKeptExactly(nodeName: string, p: Policies)
    requires p.Valid() && Trim(nodeName) != "" && p.minHealthyFraction.Some?
    ensures FractionKept(nodeName, p)
       <==> p.minHealthyFraction.value * Least(nodeName, p) as real <= Least(nodeName, p) as real - 1.0
  {
    hide Trim, Blocks, Others, Names, Least, Required;
    var fraction, least := p.minHealthyFraction.value, Least(nodeName, p);
    if fraction * least as real <= least as real - 1.0 {
      forall records | !Blocks(nodeName, p, records)
        ensures |Others(nodeName, records)| >= Required(fraction, |Names(Trim(nodeName), records)|)
      {
        AtLeast(nodeName, p, records);
        OthersCount(nodeName, records);
        LessGoesOn(fraction, least, |Names(Trim(nodeName), records)|);
        RequiredLess(fraction, |Names(Trim(nodeName), records)|);
      }
    } else {
      var records := EnoughNodes(nodeName, p, least);
      OthersCount(nodeName, records);
      RequiredLess(fraction, least);
    }
  }

  /** Likewise, those left are not fallback nodes only. */
  ghost predicate NotOnlyFallbackKept(nodeName: string, p: Policies) {
    forall records | !Blocks(nodeName, p, records) :: !OnlyFallback(Others(nodeName, records), p)
  }

  /** The fallback nodes, all of them healthy. */
  function FallbackListing(p: Policies): seq<Record> {
    seq(|p.fallbackNodes|, i requires 0 <= i < |p.fallbackNodes| => Record(p.fallbackNodes[i], true, "", "", 0))
  }

  lemma FallbackNamed(self: string, p: Policies)
    requires self != ""
    ensures Names(self, FallbackListing(p)) == {self} + Fallback(p)
    ensures forall r | r in FallbackListing(p) :: r.healthy
  {
    hide Trim;
    var listing := FallbackListing(p);
    forall n | n in Fallback(p)
      ensures n in Names(self, listing)
    {
      var i :| 0 <= i < |p.fallbackNodes| && Trim(p.fallbackNodes[i]) == n;
      assert listing[i] in listing && Trim(listing[i].node) == n;
    }
    forall n | n in Names(self, listing) && n != self
      ensures n in Fallback(p)
    {
      var i :| 0 <= i < |listing| && Trim(listing[i].node) == n;
    }
  }

  lemma FallbackListingPasses(nodeName: string, p: Policies)
    requires p.Valid() && Trim(nodeName) != "" && Trim(nodeName) !in Fallback(p) && MinimumOf(p) <= |Fallback(p)| + 1
    ensures !Blocks(nodeName, p, FallbackListing(p)) && Others(nodeName, FallbackListing(p)) == Fallback(p)
  {
    hide Trim, Blocks, Fallback, Names, FallbackListing;
    FallbackNamed(Trim(nodeName), p);
    OthersCount(nodeName, FallbackListing(p));
    DecisionBySet(nodeName, p, FallbackListing(p));
  }

  /** Where that is asked for, it is so exactly if the node is a fallback node, or there are none, or too few of them. */
  lemma NotOnlyFallbackKeptExactly(nodeName: string, p: Policies)
    requires p.Valid() && Trim(nodeName) != "" && p.forbidIfOnlyFallbackLeft
    ensures NotOnlyFallbackKept(nodeName, p)
       <==> Fallback(p) == {} || Trim(nodeName) in Fallback(p) || MinimumOf(p) > |Fallback(p)| + 1
  {
    hide Trim, Blocks, Fallback, Names, PeerDown, FallbackListing;
    if Fallback(p) == {} || Trim(nodeName) in Fallback(p) || MinimumOf(p) > |Fallback(p)| + 1 {
      forall records | !Blocks(nodeName, p, records)
        ensures !OnlyFallback(Others(nodeName, records), p)
      {
        DecisionBySet(nodeName, p, records);
        OthersCount(nodeName, records);
        if OnlyFallback(Others(nodeName, records), p) {
          SubsetCardinality(Others(nodeName, records), Fallback(p));
        }
      }
    } else {
      FallbackListingPasses(nodeName, p);
    }
  }

  /** That some fallback node stays, no policies see to: whatever they are, the node may reboot where none is left. */
  lemma NoFallbackKept(nodeName: string, p: Policies) returns (records: seq<Record>)
    requires p.Valid() && Trim(nodeName) != ""
    ensures !Blocks(nodeName, p, records)
    ensures Others(nodeName, records) != {} && Others(nodeName, records) * Fallback(p) == {}
  {
    hide Trim, Blocks, Others, Fallback, Names, Least;
    records := EnoughNodes(nodeName, p, Least(nodeName, p) + 1);
    OthersCount(nodeName, records);
  }
}
