/** The tracker of addresses over whole runs (network/ip_tracker.go), driven as network/network.go drives
    it: what its methods keep one by one holds whatever happens, in whatever order. */
module Tracking {
  import opened IPTracker
  import Connections

  /** A call of one of the tracker's methods. */
  datatype Call =
    | Heard(ip: ClaimedIP, reset: Reset)
    | Connect(ip: ClaimedIP, reset: Reset)
    | Disconnect(node: Node)
    | Track(node: Node, reset: Reset)
    | Gossip(node: Node, reset: Reset)
    | AddValidator(node: Node, reset: Reset)
    | RemoveValidator(node: Node)
    | NewFilter(reset: Reset)

  /** The nodes that are connected after the first `k` calls. */
  function Up(calls: seq<Call>, k: nat): set<Node>
    requires k <= |calls|
  {
    if k == 0 then {}
    else
      match calls[k - 1]
      case Connect(ip, _) => Up(calls, k - 1) + {ip.node}
      case Disconnect(n) => Up(calls, k - 1) - {n}
      case _ => Up(calls, k - 1)
  }

  /** No node connects that is connected already. */
  ghost predicate Alternating(calls: seq<Call>) {
    forall k :: 0 <= k < |calls| && calls[k].Connect? ==> calls[k].ip.node !in Up(calls, k)
  }

  /** The addresses that the tracker has been told of. */
  ghost function Told(calls: seq<Call>, k: nat): set<ClaimedIP>
    requires k <= |calls|
  {
    if k == 0 then {}
    else
      match calls[k - 1]
      case Heard(ip, _) => Told(calls, k - 1) + {ip}
      case Connect(ip, _) => Told(calls, k - 1) + {ip}
      case _ => Told(calls, k - 1)
  }

  /** No node has two addresses of the same time. */
  ghost predicate OneAddress(told: set<ClaimedIP>) {
    forall a, b :: a in told && b in told && IDOf(a) == IDOf(b) ==> a == b
  }

  /** Whether a call leaves a filter good that was good before: no reset fails that an address needs, or a new
      filter is made. */
  predicate StaysGood(good: bool, call: Call) {
    match call
    case NewFilter(reset) => good || reset.Succeeds?
    case Disconnect(_) => good
    case RemoveValidator(_) => good
    case _ => good && call.reset.Succeeds?
  }

  /** No reset has failed since the filter was last made anew, or since the start. */
  predicate GoodFilter(calls: seq<Call>, k: nat)
    requires k <= |calls|
  {
    k == 0 || StaysGood(GoodFilter(calls, k - 1), calls[k - 1])
  }

  /** What the tracker knows of nodes comes from the calls. */
  ghost predicate Follows(connected: map<Node, ClaimedIP>, recent: map<Node, ClaimedIP>, up: set<Node>,
                          told: set<ClaimedIP>) {
    && connected.Keys == up
    && (forall n :: n in connected ==> connected[n] in told)
    && (forall n :: n in recent ==> recent[n] in told)
  }

  /** In every reachable state the invariant of the tracker holds and it knows who is connected. Unless a reset
      has failed, the filter holds the most recent address of every node that has not used up its entries. If no
      node has two addresses of the same time, all gossiped addresses are most recent ones. */
  method Play(calls: seq<Call>, maxCount: int) returns (t: Tracker)
    requires Alternating(calls)
    ensures fresh(t) && t.Valid() && t.connected.Keys == Up(calls, |calls|)
    ensures GoodFilter(calls, |calls|) ==> IsCovered(t.bloom, t.bloomAdditions, t.mostRecentTrackedIPs)
    ensures OneAddress(Told(calls, |calls|)) ==> t.Subset()
  {
    t := new Tracker(maxCount);
    for k := 0 to |calls|
      invariant fresh(t) && t.Valid()
      invariant Follows(t.connected, t.mostRecentTrackedIPs, Up(calls, k), Told(calls, k))
      invariant GoodFilter(calls, k) ==> t.upToDate
    {
      Step(t, calls[k], Up(calls, k), Told(calls, k), GoodFilter(calls, k), Up(calls, k + 1), Told(calls, k + 1));
    }
    FilterCovers(t.gossipableIDs, t.IPs(), t.GossipableLists(), t.View());
    if OneAddress(Told(calls, |calls|)) {
      AddressesAgree(t.GossipableLists(), t.gossipableIDs, t.IPs(), t.View(), Up(calls, |calls|),
                     Told(calls, |calls|));
    }
  }

  lemma FilterCovers(ids: set<Node>, ips: Addresses, lists: Lists, f: Filter)
    requires IsSound(ids, ips, lists, f)
    ensures f.upToDate ==> IsCovered(f.bloom, f.additions, ips.recent)
  {
  }

  lemma AddressesAgree(lists: Lists, ids: set<Node>, ips: Addresses, f: Filter, up: set<Node>, told: set<ClaimedIP>)
    requires IsSound(ids, ips, lists, f)
    requires Follows(ips.connected, ips.recent, up, told) && OneAddress(told)
    ensures IsSubset(lists.list, ips.recent)
  {
    SubsetIff(lists, ids, ips.connected, ips.recent);
    forall n | IsGossipable(n, ids, ips.connected, ips.recent) ensures ips.connected[n] == ips.recent[n] {
      assert IDOf(ips.connected[n]) == IDOf(ips.recent[n]);
    }
  }

  method Step(t: Tracker, call: Call, ghost up: set<Node>, ghost told: set<ClaimedIP>, ghost good: bool,
              ghost up': set<Node>, ghost told': set<ClaimedIP>)
    requires t.Valid() && Follows(t.connected, t.mostRecentTrackedIPs, up, told) && (good ==> t.upToDate)
    requires call.Connect? ==> call.ip.node !in up
    requires up' == if call.Connect? then up + {call.ip.node} else if call.Disconnect? then up - {call.node} else up
    requires told' == if call.Connect? || call.Heard? then told + {call.ip} else told
    modifies t
    ensures t.Valid() && Follows(t.connected, t.mostRecentTrackedIPs, up', told')
    ensures StaysGood(good, call) ==> t.upToDate
  {
    match call
    case Heard(ip, reset) => StepHeard(t, ip, reset, up, told, good);
    case Connect(ip, reset) => StepConnect(t, ip, reset, up, told, good);
    case Disconnect(n) => t.Disconnected(n);
    case NewFilter(reset) => StepFilter(t, reset, up, told, good);
    case _ => StepDesired(t, call, up, told, good);
  }

  method StepHeard(t: Tracker, ip: ClaimedIP, reset: Reset, ghost up: set<Node>, ghost told: set<ClaimedIP>,
                   ghost good: bool)
    requires t.Valid() && Follows(t.connected, t.mostRecentTrackedIPs, up, told) && (good ==> t.upToDate)
    modifies t
    ensures t.Valid() && Follows(t.connected, t.mostRecentTrackedIPs, up, told + {ip})
    ensures good && reset.Succeeds? ==> t.upToDate
  {
    ghost var ips, f := t.IPs(), t.View();
    var added := t.AddIP(ip, reset);
    TakenFollows(ips, t.mostRecentTrackedIPs, f, t.View(), ip, reset, told);
  }

  method StepConnect(t: Tracker, ip: ClaimedIP, reset: Reset, ghost up: set<Node>, ghost told: set<ClaimedIP>,
                     ghost good: bool)
    requires t.Valid() && Follows(t.connected, t.mostRecentTrackedIPs, up, told) && (good ==> t.upToDate)
    requires ip.node !in up
    modifies t
    ensures t.Valid() && Follows(t.connected, t.mostRecentTrackedIPs, up + {ip.node}, told + {ip})
    ensures good && reset.Succeeds? ==> t.upToDate
  {
    ghost var ips, f := t.IPs(), t.View();
    t.ConnectNew(ip, reset);
    TakenFollows(ips, t.mostRecentTrackedIPs, f, t.View(), ip, reset, told);
  }

  /** What an address that is taken does to filter and addresses. */
  lemma TakenFollows(ips: Addresses, recent': map<Node, ClaimedIP>, f: Filter, f': Filter, ip: ClaimedIP,
                     reset: Reset, told: set<ClaimedIP>)
    requires IsTaken(ips, recent', f, f', ip, reset) && forall n :: n in ips.recent ==> ips.recent[n] in told
    ensures forall n :: n in recent' ==> recent'[n] in told + {ip}
    ensures f.upToDate && reset.Succeeds? ==> f'.upToDate
  {
  }

  lemma TrackingFollows(ips: Addresses, recent': map<Node, ClaimedIP>, f: Filter, f': Filter, n: Node,
                        reset: Reset, up: set<Node>, told: set<ClaimedIP>)
    requires IsTracking(ips, recent', f, f', n, reset) && Follows(ips.connected, ips.recent, up, told)
    ensures Follows(ips.connected, recent', up, told)
    ensures f.upToDate && reset.Succeeds? ==> f'.upToDate
  {
  }

  /** The calls that change which nodes are desired. */
  method StepDesired(t: Tracker, call: Call, ghost up: set<Node>, ghost told: set<ClaimedIP>, ghost good: bool)
    requires t.Valid() && Follows(t.connected, t.mostRecentTrackedIPs, up, told) && (good ==> t.upToDate)
    requires !call.Heard? && !call.Connect? && !call.Disconnect? && !call.NewFilter?
    modifies t
    ensures t.Valid() && Follows(t.connected, t.mostRecentTrackedIPs, up, told)
    ensures StaysGood(good, call) ==> t.upToDate
  {
    if call.RemoveValidator? {
      t.OnValidatorRemoved(call.node);
      return;
    }
    ghost var ips, f := t.IPs(), t.View();
    match call {
      case Track(n, reset) => t.ManuallyTrack(n, reset);
      case Gossip(n, reset) => t.ManuallyGossip(n, reset);
      case AddValidator(n, reset) => t.OnValidatorAdded(n, reset);
    }
    TrackingFollows(ips, t.mostRecentTrackedIPs, f, t.View(), call.node, call.reset, up, told);
  }

  method StepFilter(t: Tracker, reset: Reset, ghost up: set<Node>, ghost told: set<ClaimedIP>, ghost good: bool)
    requires t.Valid() && Follows(t.connected, t.mostRecentTrackedIPs, up, told) && (good ==> t.upToDate)
    modifies t
    ensures t.Valid() && Follows(t.connected, t.mostRecentTrackedIPs, up, told)
    ensures good || reset.Succeeds? ==> t.upToDate
  {
    var ok := t.ResetBloom(reset);
  }

  // ---------- the network ----------

  /** What the tracker hears of connections and disconnections. */
  datatype Notice = Notice(node: Node, connected: bool)

  function NoticesOf(calls: seq<Call>, k: nat): seq<Notice>
    requires k <= |calls|
  {
    if k == 0 then []
    else
      match calls[k - 1]
      case Connect(ip, _) => NoticesOf(calls, k - 1) + [Notice(ip.node, true)]
      case Disconnect(n) => NoticesOf(calls, k - 1) + [Notice(n, false)]
      case _ => NoticesOf(calls, k - 1)
  }

  function NoticesTo(events: seq<Connections.Event>, m: nat): seq<Notice>
    requires m <= |events|
  {
    if m == 0 then []
    else
      var e := events[m - 1];
      if e.to.Tracker? then NoticesTo(events, m - 1) + [Notice(e.node, e.connected)] else NoticesTo(events, m - 1)
  }

  /** Calls with the notices of a run connect a node only when the tracker has last heard that it is not
      connected. */
  lemma {:induction false} SameNotices(calls: seq<Call>, k: nat, events: seq<Connections.Event>, m: nat)
    requires k <= |calls| && m <= |events| && NoticesOf(calls, k) == NoticesTo(events, m)
    requires forall n :: Connections.Alternates(events, Connections.Tracker, n)
    ensures forall n :: n in Up(calls, k) <==> Connections.Up(events, m, Connections.Tracker, n)
    ensures forall j :: 0 <= j < k && calls[j].Connect? ==> calls[j].ip.node !in Up(calls, j)
    decreases k + m
  {
    if m > 0 && !events[m - 1].to.Tracker? {
      SameNotices(calls, k, events, m - 1);
    } else if k > 0 && !calls[k - 1].Connect? && !calls[k - 1].Disconnect? {
      SameNotices(calls, k - 1, events, m);
    } else if k > 0 && m > 0 {
      LastNotice(NoticesOf(calls, k - 1), NoticesTo(events, m - 1),
                 if calls[k - 1].Connect? then Notice(calls[k - 1].ip.node, true) else Notice(calls[k - 1].node, false),
                 Notice(events[m - 1].node, events[m - 1].connected));
      SameNotices(calls, k - 1, events, m - 1);
      assert Connections.Alternates(events, Connections.Tracker, events[m - 1].node);
    }
  }

  lemma LastNotice(a: seq<Notice>, b: seq<Notice>, x: Notice, y: Notice)
    requires a + [x] == b + [y]
    ensures a == b && x == y
  {
    assert |a| == |b|;
    assert (a + [x])[|a|] == x && (b + [y])[|b|] == y;
    assert a == (a + [x])[..|a|] && b == (b + [y])[..|b|];
  }

  /** A tracker that is told of connections by the network, and of anything else by anybody, is valid in
      every state of every run, and agrees with the network on who is connected. */
  method TrackerOfRun(ghost run: seq<Connections.Net>, ghost i: nat, calls: seq<Call>, maxCount: int)
    returns (t: Tracker)
    requires Connections.IsRun(run) && i < |run|
    requires NoticesOf(calls, |calls|) == NoticesTo(run[i].events, |run[i].events|)
    ensures fresh(t) && t.Valid()
    ensures forall n :: n in t.connected <==> Connections.Up(run[i].events, |run[i].events|, Connections.Tracker, n)
    ensures GoodFilter(calls, |calls|) ==> IsCovered(t.bloom, t.bloomAdditions, t.mostRecentTrackedIPs)
    ensures OneAddress(Told(calls, |calls|)) ==> t.Subset()
  {
    forall n ensures Connections.Alternates(run[i].events, Connections.Tracker, n) {
      Connections.ListenersAlternate(run, i, Connections.Tracker, n);
    }
    SameNotices(calls, |calls|, run[i].events, |run[i].events|);
    t := Play(calls, maxCount);
  }
}
