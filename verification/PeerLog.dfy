/** The log of peer health changes: which events one snapshot of the cluster causes, and what the log says when replayed. */
module PeerLog {
  import opened Wrappers
  import opened Text
  import opened ClusterPolicy

  /** What the log tells about a peer; the time of the report is tracked but not compared. */
  datatype View = View(healthy: bool, stage: string, reason: string)

  datatype PeerState = PeerState(view: View, reportedAt: int)

  datatype PeerEvent =
    | Reported(node: string, view: View, previous: Option<View>)
    | Missing(node: string, last: View)

  function StateOf(rec: Record): PeerState {
    PeerState(View(rec.healthy, rec.stage, rec.reason), rec.reportedAt)
  }

  /** Records of this node and records without a name are not tracked. */
  predicate IsPeer(rec: Record, self: string) {
    Trim(rec.node) != "" && Trim(rec.node) != self
  }

  /** The peers a snapshot leaves tracked: for each, its last record. */
  function Tracked(records: seq<Record>, self: string): map<string, PeerState> {
    if records == [] then map[]
    else
      var last := records[|records| - 1];
      var before := Tracked(records[..|records| - 1], self);
      if IsPeer(last, self) then before[Trim(last.node) := StateOf(last)] else before
  }

  function PreviousView(peers: map<string, PeerState>, node: string): Option<View> {
    if node in peers then Some(peers[node].view) else None
  }

  function ReportEvent(peers: map<string, PeerState>, rec: Record, self: string): seq<PeerEvent> {
    var node, view := Trim(rec.node), StateOf(rec).view;
    if IsPeer(rec, self) && PreviousView(peers, node) != Some(view)
    then [Reported(node, view, PreviousView(peers, node))] else []
  }

  /** The reports a snapshot causes, given the peers tracked before it. */
  function Reports(peers: map<string, PeerState>, records: seq<Record>, self: string): seq<PeerEvent> {
    if records == [] then []
    else Reports(peers, records[..|records| - 1], self) + ReportEvent(peers, records[|records| - 1], self)
  }

  lemma NoRecords(peers: map<string, PeerState>, self: string)
    ensures Tracked([], self) == map[] && Reports(peers, [], self) == []
  {
  }

  /** What one more record of a snapshot adds to the tracked peers and to the reports. */
  lemma OneMoreRecord(peers: map<string, PeerState>, records: seq<Record>, i: nat, self: string)
    requires i < |records|
    ensures Reports(peers, records[..i + 1], self) == Reports(peers, records[..i], self) + ReportEvent(peers, records[i], self)
    ensures var before := Tracked(records[..i], self);
      Tracked(records[..i + 1], self) == if IsPeer(records[i], self) then before[Trim(records[i].node) := StateOf(records[i])] else before
  {
    assert records[..i + 1][..i] == records[..i];
  }

  /** One event for each peer that is gone, in any order. */
  ghost predicate MissingEvents(gone: set<string>, peers: map<string, PeerState>, events: seq<PeerEvent>)
    requires gone <= peers.Keys
  {
    && (forall i | 0 <= i < |events| :: events[i].Missing? && events[i].node in gone && events[i].last == peers[events[i].node].view)
    && (forall i, j | 0 <= i < j < |events| :: events[i].node != events[j].node)
    && (forall n | n in gone :: exists i :: 0 <= i < |events| && events[i].node == n)
  }

  function Apply(views: map<string, View>, event: PeerEvent): map<string, View> {
    match event
    case Reported(node, view, _) => views[node := view]
    case Missing(node, _) => views - {node}
  }

  /** What a reader of the log knows after these events. */
  function Replay(views: map<string, View>, events: seq<PeerEvent>): map<string, View> {
    if events == [] then views else Apply(Replay(views, events[..|events| - 1]), events[|events| - 1])
  }

  function Views(peers: map<string, PeerState>): map<string, View> {
    map n | n in peers :: peers[n].view
  }

  /** Two records say the same of a peer. */
  predicate Alike(a: Record, b: Record) {
    a.healthy == b.healthy && a.stage == b.stage && a.reason == b.reason
  }

  /** No two records of one peer contradict each other. */
  ghost predicate Consistent(records: seq<Record>, self: string) {
    forall a, b | a in records && b in records && IsPeer(a, self) && Trim(a.node) == Trim(b.node) :: Alike(a, b)
  }

  lemma AlikeViews(a: Record, b: Record)
    ensures Alike(a, b) <==> StateOf(a).view == StateOf(b).view
  {
  }

  // ----- Tracked peers and reports, in the records' own terms -----

  /** The view tells what the record tells. */
  predicate Says(view: View, rec: Record) {
    view.healthy == rec.healthy && view.stage == rec.stage && view.reason == rec.reason
  }

  /** The record at a position is the last one under a name. */
  ghost predicate LastUnder(records: seq<Record>, i: nat, name: string) {
    i < |records| && Trim(records[i].node) == name && forall j | i < j < |records| :: Trim(records[j].node) != name
  }

  /** Exactly the visible names of other nodes are tracked, each with what the last record under it says and when it was made. */
  ghost predicate AsListed(peers: map<string, PeerState>, records: seq<Record>, self: string) {
    && (forall n :: n in peers <==> n != "" && n != self && exists i: nat :: LastUnder(records, i, n))
    && (forall n, i: nat | n in peers && LastUnder(records, i, n) ::
          Says(peers[n].view, records[i]) && peers[n].reportedAt == records[i].reportedAt)
  }

  lemma LastUnderStep(records: seq<Record>, rec: Record, i: nat, name: string)
    ensures LastUnder(records + [rec], i, name)
       <==> if Trim(rec.node) == name then i == |records| else LastUnder(records, i, name)
  {
    hide Trim;
    var more := records + [rec];
    assert more[|records|] == rec;
    if LastUnder(more, i, name) && Trim(rec.node) != name {
      assert i < |records|;
      assert forall j | i < j < |records| :: records[j] == more[j];
    }
  }

  lemma {:induction false} TrackedAsListed(records: seq<Record>, self: string)
    ensures AsListed(Tracked(records, self), records, self)
  {
    if records != [] {
      var n := |records| - 1;
      TrackedAsListed(records[..n], self);
      OneMoreTracked(records[..n], records[n], self);
      assert records == records[..n] + [records[n]];
      hide *;
      OneMoreListed(Tracked(records[..n], self), records[..n], records[n], self);
    }
  }

  lemma OneMoreListed(peers: map<string, PeerState>, records: seq<Record>, rec: Record, self: string)
    requires AsListed(peers, records, self)
    ensures AsListed(if IsPeer(rec, self) then peers[Trim(rec.node) := StateOf(rec)] else peers, records + [rec], self)
  {
    var more, name := records + [rec], Trim(rec.node);
    var peers' := if IsPeer(rec, self) then peers[name := StateOf(rec)] else peers;
    hide Trim, LastUnder;
    forall n, i: nat
      ensures LastUnder(more, i, n) <==> if name == n then i == |records| else LastUnder(records, i, n)
      ensures LastUnder(more, i, n) ==> i < |more|
    {
      LastUnderStep(records, rec, i, n);
      if LastUnder(more, i, n) {
        Within(more, i, n);
      }
    }
    assert LastUnder(more, |records|, name);
    forall n
      ensures n in peers' <==> n != "" && n != self && exists i: nat :: LastUnder(more, i, n)
    {
      if n != name && n in peers {
        var i: nat :| LastUnder(records, i, n);
        assert LastUnder(more, i, n);
      }
    }
    forall n, i: nat | n in peers' && LastUnder(more, i, n)
      ensures Says(peers'[n].view, more[i]) && peers'[n].reportedAt == more[i].reportedAt
    {
      if n != name {
        Within(records, i, n);
      }
    }
  }

  lemma Within(records: seq<Record>, i: nat, name: string)
    requires LastUnder(records, i, name)
    ensures i < |records|
  {
  }

  lemma OneMoreTracked(records: seq<Record>, rec: Record, self: string)
    ensures var before := Tracked(records, self);
      Tracked(records + [rec], self) == if IsPeer(rec, self) then before[Trim(rec.node) := StateOf(rec)] else before
  {
    assert (records + [rec])[..|records|] == records;
  }

  /** The tracked peers do not already show what the record says of its node. */
  predicate IsNews(peers: map<string, PeerState>, rec: Record) {
    Trim(rec.node) !in peers || !Says(peers[Trim(rec.node)].view, rec)
  }

  /** The event tells what the record says of its peer, and what was tracked of it before. */
  predicate ReportOf(e: PeerEvent, peers: map<string, PeerState>, rec: Record) {
    && e.Reported? && e.node == Trim(rec.node) && Says(e.view, rec)
    && (e.previous.Some? <==> e.node in peers)
    && (e.node in peers ==> e.previous.value == peers[e.node].view)
  }

  /** Positions of the records of a snapshot that are news of another node, in order. */
  function News(peers: map<string, PeerState>, records: seq<Record>, self: string): seq<nat> {
    if records == [] then []
    else
      var n := |records| - 1;
      News(peers, records[..n], self)
      + if Trim(records[n].node) != "" && Trim(records[n].node) != self && IsNews(peers, records[n]) then [n] else []
  }

  /** The reports are those of the records that are news, one for each and in their order. */
  ghost predicate ReportsAsListed(events: seq<PeerEvent>, peers: map<string, PeerState>, records: seq<Record>, self: string) {
    var news := News(peers, records, self);
    |events| == |news| && forall k | 0 <= k < |news| :: news[k] < |records| && ReportOf(events[k], peers, records[news[k]])
  }

  lemma {:induction false} ReportsTell(peers: map<string, PeerState>, records: seq<Record>, self: string)
    ensures ReportsAsListed(Reports(peers, records, self), peers, records, self)
  {
    if records != [] {
      var n := |records| - 1;
      ReportsTell(peers, records[..n], self);
      ReportTells(peers, records[n], self);
      hide Trim, ReportEvent, ReportOf, IsNews;
    }
  }

  lemma ReportTells(peers: map<string, PeerState>, rec: Record, self: string)
    ensures var events := ReportEvent(peers, rec, self);
      if Trim(rec.node) != "" && Trim(rec.node) != self && IsNews(peers, rec)
      then |events| == 1 && ReportOf(events[0], peers, rec) else events == []
  {
    hide Trim;
  }

  // ----- Replaying -----

  lemma {:induction false} ReplayConcat(views: map<string, View>, a: seq<PeerEvent>, b: seq<PeerEvent>)
    ensures Replay(views, a + b) == Replay(Replay(views, a), b)
  {
    if b == [] {
      assert a + b == a;
    } else {
      var n := |b| - 1;
      assert (a + b)[..|a + b| - 1] == a + b[..n];
      ReplayConcat(views, a, b[..n]);
    }
  }

  /** Every tracked peer is tracked with the state of one of its records. */
  lemma {:induction false} TrackedFromRecord(records: seq<Record>, self: string, node: string)
    ensures node in Tracked(records, self) ==>
      exists r :: r in records && IsPeer(r, self) && Trim(r.node) == node && Tracked(records, self)[node] == StateOf(r)
    ensures (exists r :: r in records && IsPeer(r, self) && Trim(r.node) == node) ==> node in Tracked(records, self)
  {
    hide Trim;
    if records != [] {
      var n := |records| - 1;
      TrackedFromRecord(records[..n], self, node);
      assert records == records[..n] + [records[n]];
      assert records[n] in records;
    }
  }

  lemma ViewsUpdate(peers: map<string, PeerState>, tracked: map<string, PeerState>, node: string, state: PeerState)
    ensures Views(peers) + Views(tracked[node := state]) == (Views(peers) + Views(tracked))[node := state.view]
  {
  }

  /** What the reader holds of a peer is its tracked view, if the records so far agree with this one. */
  lemma HeldView(peers: map<string, PeerState>, records: seq<Record>, self: string, rec: Record)
    requires Consistent(records + [rec], self) && IsPeer(rec, self)
    requires PreviousView(peers, Trim(rec.node)) == Some(StateOf(rec).view)
    ensures var held := Views(peers) + Views(Tracked(records, self));
      Trim(rec.node) in held && held[Trim(rec.node)] == StateOf(rec).view
  {
    hide Trim, Tracked, IsPeer;
    TrackedFromRecord(records, self, Trim(rec.node));
    forall r: Record
      ensures Alike(r, rec) <==> StateOf(r).view == StateOf(rec).view
    {
      AlikeViews(r, rec);
    }
    assert rec in records + [rec] && forall r | r in records :: r in records + [rec];
  }

  /**
   After the reports of a consistent snapshot, the reader holds the tracked view of every peer in the snapshot, and what
   it held before of every other.
   */
  lemma {:induction false} ReportsReplay(peers: map<string, PeerState>, records: seq<Record>, self: string)
    requires Consistent(records, self)
    ensures Replay(Views(peers), Reports(peers, records, self)) == Views(peers) + Views(Tracked(records, self))
  {
    if records == [] {
      assert Views(Tracked(records, self)) == map[];
    } else {
      hide Trim, IsPeer, Replay, Views, ReportEvent;
      var before, rec := records[..|records| - 1], records[|records| - 1];
      assert records == before + [rec];
      assert Consistent(before, self) by {
        assert forall r | r in before :: r in records;
      }
      ReportsReplay(peers, before, self);
      ReplayConcat(Views(peers), Reports(peers, before, self), ReportEvent(peers, rec, self));
      ReplayOne(Views(peers) + Views(Tracked(before, self)), peers, rec, self);
      if IsPeer(rec, self) {
        ViewsUpdate(peers, Tracked(before, self), Trim(rec.node), StateOf(rec));
        if PreviousView(peers, Trim(rec.node)) == Some(StateOf(rec).view) {
          HeldView(peers, before, self, rec);
        }
      }
    }
  }

  lemma ReplayOne(views: map<string, View>, peers: map<string, PeerState>, rec: Record, self: string)
    ensures Replay(views, ReportEvent(peers, rec, self))
         == if IsPeer(rec, self) && PreviousView(peers, Trim(rec.node)) != Some(StateOf(rec).view)
            then views[Trim(rec.node) := StateOf(rec).view] else views
  {
    hide Trim;
    var events := ReportEvent(peers, rec, self);
    if events != [] {
      assert events[..0] == [];
    }
  }

  lemma {:induction false} MissingReplay(views: map<string, View>, events: seq<PeerEvent>)
    requires forall i | 0 <= i < |events| :: events[i].Missing?
    ensures Replay(views, events) == views - set i | 0 <= i < |events| :: events[i].node
  {
    if events != [] {
      var n := |events| - 1;
      MissingReplay(views, events[..n]);
      assert (set i | 0 <= i < |events| :: events[i].node)
          == (set i | 0 <= i < |events[..n]| :: events[..n][i].node) + {events[n].node};
    }
  }

  /** One inspection: the reader who knew the tracked peers before it knows them after it. */
  lemma SnapshotReplay(peers: map<string, PeerState>, records: seq<Record>, self: string, missing: seq<PeerEvent>)
    requires Consistent(records, self)
    requires MissingEvents(peers.Keys - Tracked(records, self).Keys, peers, missing)
    ensures Replay(Views(peers), Reports(peers, records, self) + missing) == Views(Tracked(records, self))
  {
    hide Tracked, Reports, Replay, Consistent;
    var tracked := Tracked(records, self);
    ReportsReplay(peers, records, self);
    ReplayConcat(Views(peers), Reports(peers, records, self), missing);
    MissingReplay(Views(peers) + Views(tracked), missing);
    MissingNodes(peers.Keys - tracked.Keys, peers, missing);
    OldPeersLeave(peers, tracked);
  }

  lemma MissingNodes(gone: set<string>, peers: map<string, PeerState>, missing: seq<PeerEvent>)
    requires gone <= peers.Keys && MissingEvents(gone, peers, missing)
    ensures (forall i | 0 <= i < |missing| :: missing[i].Missing?)
    ensures (set i | 0 <= i < |missing| :: missing[i].node) == gone
  {
  }

  lemma OldPeersLeave(peers: map<string, PeerState>, tracked: map<string, PeerState>)
    ensures (Views(peers) + Views(tracked)) - (peers.Keys - tracked.Keys) == Views(tracked)
  {
  }

  /** Whatever was tracked before, replaying the events of this snapshot gives what is tracked after it. */
  ghost predicate Lossless(records: seq<Record>, self: string) {
    forall peers: map<string, PeerState>, missing | MissingEvents(peers.Keys - Tracked(records, self).Keys, peers, missing) ::
      Replay(Views(peers), Reports(peers, records, self) + missing) == Views(Tracked(records, self))
  }

  /** A snapshot is logged without loss, whatever was tracked before, exactly when no peer contradicts itself in it. */
  lemma LosslessWhenConsistent(records: seq<Record>, self: string)
    ensures Lossless(records, self) <==> Consistent(records, self)
  {
    if Consistent(records, self) {
      forall peers: map<string, PeerState>, missing | MissingEvents(peers.Keys - Tracked(records, self).Keys, peers, missing)
        ensures Replay(Views(peers), Reports(peers, records, self) + missing) == Views(Tracked(records, self))
      {
        SnapshotReplay(peers, records, self, missing);
      }
    } else {
      var a, b :| a in records && b in records && IsPeer(a, self) && Trim(a.node) == Trim(b.node) && !Alike(a, b);
      ContradictionIsLost(records, self, Trim(a.node), a, b);
    }
  }

  /**
   A reader who knew what the last record of a peer says is misled by a contradicting record of the same snapshot: that
   one is reported as a change, and the last one, being what was tracked, is not.
   */
  lemma ContradictionIsLost(records: seq<Record>, self: string, node: string, a: Record, b: Record)
    requires a in records && b in records && Trim(a.node) == Trim(b.node) == node && IsPeer(a, self) && !Alike(a, b)
    ensures !Lossless(records, self)
  {
    AlikeViews(a, b);
    hide Trim;
    TrackedFromRecord(records, self, node);
    var last := Tracked(records, self)[node];
    var peers := map[node := last];
    var odd := if StateOf(a).view != last.view then a else b;
    LastReportStays(peers, records, self, node, odd);
    assert MissingEvents(peers.Keys - Tracked(records, self).Keys, peers, []);
    assert Reports(peers, records, self) + [] == Reports(peers, records, self);
    assert Views(Tracked(records, self))[node] == last.view;
  }

  /** Once a peer was reported with a view other than its tracked one, the reader keeps holding some other view of it. */
  lemma {:induction false} LastReportStays(peers: map<string, PeerState>, records: seq<Record>, self: string, node: string, odd: Record)
    requires node in peers && odd in records && IsPeer(odd, self) && Trim(odd.node) == node
    requires StateOf(odd).view != peers[node].view
    ensures var views := Replay(Views(peers), Reports(peers, records, self));
      node in views && views[node] != peers[node].view
  {
    hide Trim;
    var n := |records| - 1;
    var rec := records[n];
    assert records == records[..n] + [rec];
    ReplayConcat(Views(peers), Reports(peers, records[..n], self), ReportEvent(peers, rec, self));
    ReplayOne(Replay(Views(peers), Reports(peers, records[..n], self)), peers, rec, self);
    if rec != odd {
      LastReportStays(peers, records[..n], self, node, odd);
    }
  }
}
