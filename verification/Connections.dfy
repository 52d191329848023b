/** How connections come and go (network/network.go, network/tracked_ip.go): peers, dialers and the
    components that are told of them, as a state machine whose steps are the sections under
    `peersLock` and the single calls between them. */
module Connections {
  type Node = nat
  type PeerID = nat

  /** A peer, from its start in `upgrade` until its `Disconnected` has returned:
      in the handshake; in `Connected` after the locked section, after the tracker was told, and after
      the router was told; in `Disconnected` on either path, after the tracker and after the router
      was told; gone. */
  datatype Phase =
    Handshake | Moved | Tracked | Live | LeavingConnecting | LeavingConnected | Untracked | Unrouted | Gone

  datatype Peer = Peer(node: Node, phase: Phase)

  /** Who is told that a node has connected or disconnected. */
  datatype Listener = Tracker | Router

  datatype Event = Event(to: Listener, node: Node, connected: bool)

  /** A trackedIP is a number; each has at most one dialer, the goroutine that `dial` starts for it. */
  datatype Net = Net(
    connecting: map<Node, PeerID>, connected: map<Node, PeerID>, peers: map<PeerID, Peer>,
    trackedIPs: map<Node, nat>, stopped: set<nat>, dialers: map<nat, Node>, created: nat,
    closing: bool, events: seq<Event>)

  const Initial := Net(map[], map[], map[], map[], {}, map[], 0, false, [])

  // ---------- peers ----------

  /** The locked section of `upgrade`: a connection to a node becomes a peer unless the network is
      closing or the node has one already. */
  ghost predicate Upgrade(s: Net, p: PeerID, n: Node, next: Net) {
    && p !in s.peers
    && next == if s.closing || n in s.connecting || n in s.connected then s
               else s.(connecting := s.connecting[n := p], peers := s.peers[p := Peer(n, Handshake)])
  }

  function SetPhase(s: Net, p: PeerID, phase: Phase): Net
    requires p in s.peers
  {
    s.(peers := s.peers[p := s.peers[p].(phase := phase)])
  }

  function StopIP(s: Net, n: Node): Net {
    if n in s.trackedIPs then s.(stopped := s.stopped + {s.trackedIPs[n]}, trackedIPs := s.trackedIPs - {n}) else s
  }

  /** The entry of a node is set to a new trackedIP, and a dialer started for it. */
  function DialIP(s: Net, n: Node): Net {
    s.(trackedIPs := s.trackedIPs[n := s.created], dialers := s.dialers[s.created := n], created := s.created + 1)
  }

  /** The same when the old entry, if there is one, is stopped first (trackNewIP). */
  function RedialIP(s: Net, n: Node): Net { DialIP(StopIP(s, n), n) }

  /** The locked section of `Connected`; the first branch is logged as unexpected. */
  ghost predicate ConnectedLocked(s: Net, p: PeerID, next: Net) {
    && p in s.peers && s.peers[p].phase.Handshake?
    && var n := s.peers[p].node;
       next == if n !in s.connecting then SetPhase(s, p, Live)
               else SetPhase(StopIP(s, n).(connecting := s.connecting - {n},
                                           connected := s.connected[n := s.connecting[n]]), p, Moved)
  }

  ghost predicate Tell(s: Net, p: PeerID, to: Listener, connected: bool, from: Phase, after: Phase, next: Net) {
    && p in s.peers && s.peers[p].phase == from
    && next == SetPhase(s, p, after).(events := s.events + [Event(to, s.peers[p].node, connected)])
  }

  /** The rest of `Connected`, and of the path of `Disconnected` for a connected peer up to its lock. */
  ghost predicate Notify(s: Net, p: PeerID, next: Net) {
    || Tell(s, p, Tracker, true, Moved, Tracked, next)
    || Tell(s, p, Router, true, Tracked, Live, next)
    || Tell(s, p, Tracker, false, LeavingConnected, Untracked, next)
    || Tell(s, p, Router, false, Untracked, Unrouted, next)
  }

  /** `Disconnected` looks in which set the peer is; it is called after `Connected` has returned, or
      instead of it. A peer in neither set is just gone. */
  ghost predicate Disconnected(s: Net, p: PeerID, next: Net) {
    && p in s.peers && (s.peers[p].phase.Handshake? || s.peers[p].phase.Live?)
    && var n := s.peers[p].node;
       next == SetPhase(s, p, if n in s.connecting then LeavingConnecting else if n in s.connected
                        then LeavingConnected else Gone)
  }

  /** disconnectedFromConnecting; `wanted` is the answer of the tracker. */
  ghost predicate LeftConnecting(s: Net, p: PeerID, wanted: bool, next: Net) {
    && p in s.peers && s.peers[p].phase.LeavingConnecting?
    && var n := s.peers[p].node;
       var removed := SetPhase(s.(connecting := s.connecting - {n}), p, Gone);
       next == if n !in s.trackedIPs then removed else if wanted then RedialIP(removed, n) else StopIP(removed, n)
  }

  /** The locked section of disconnectedFromConnected. */
  ghost predicate LeftConnected(s: Net, p: PeerID, wanted: bool, next: Net) {
    && p in s.peers && s.peers[p].phase.Unrouted?
    && var n := s.peers[p].node;
       var removed := SetPhase(s.(connected := s.connected - {n}), p, Gone);
       next == if wanted then DialIP(removed, n) else removed
  }

  // ---------- dialers ----------

  /** ManuallyTrack: a node that is neither connected nor tracked is dialed. */
  ghost predicate ManuallyTrack(s: Net, n: Node, next: Net) {
    next == if n in s.connected || n in s.trackedIPs then s else DialIP(s, n)
  }

  /** track, for an address that the tracker has taken over. */
  ghost predicate Track(s: Net, n: Node, next: Net) {
    next == if n in s.connected then s else RedialIP(s, n)
  }

  /** A dialer ends because the network closes, its trackedIP is stopped, its node has a peer, or the
      connection it has made was upgraded or dropped. */
  ghost predicate DialerDone(s: Net, ip: nat, next: Net) {
    ip in s.dialers && next == s.(dialers := s.dialers - {ip})
  }

  /** A dialer finds that its node is no longer wanted. */
  ghost predicate DialerUnwanted(s: Net, ip: nat, next: Net) {
    ip in s.dialers && next == StopIP(s, s.dialers[ip]).(dialers := s.dialers - {ip})
  }

  ghost predicate StartClose(s: Net, next: Net) {
    next == s.(closing := true, stopped := s.stopped + s.trackedIPs.Values, trackedIPs := map[])
  }

  ghost predicate PeerStep(s: Net, p: PeerID, next: Net) {
    || (exists n :: Upgrade(s, p, n, next))
    || ConnectedLocked(s, p, next)
    || Notify(s, p, next)
    || Disconnected(s, p, next)
    || (exists wanted :: LeftConnecting(s, p, wanted, next))
    || (exists wanted :: LeftConnected(s, p, wanted, next))
  }

  ghost predicate Step(s: Net, next: Net) {
    || (exists p :: PeerStep(s, p, next))
    || (exists n :: ManuallyTrack(s, n, next) || Track(s, n, next))
    || (exists ip :: DialerDone(s, ip, next) || DialerUnwanted(s, ip, next))
    || StartClose(s, next)
  }

  ghost predicate IsRun(run: seq<Net>) {
    run != [] && run[0] == Initial && forall i :: 0 <= i < |run| - 1 ==> Step(run[i], run[i + 1])
  }

  // ---------- what every step keeps ----------

  predicate Early(phase: Phase) { phase.Handshake? || phase.LeavingConnecting? }

  predicate Late(phase: Phase) {
    phase.Moved? || phase.Tracked? || phase.Live? || phase.LeavingConnected? || phase.Untracked? || phase.Unrouted?
  }

  /** The sets hold the peers that have not gone, each under its node, each in the set of its phase. */
  ghost predicate PeersValid(s: Net) {
    && (forall n :: n in s.connecting ==> n !in s.connected && s.connecting[n] in s.peers
                                          && s.peers[s.connecting[n]].node == n
                                            && Early(s.peers[s.connecting[n]].phase))
    && (forall n :: n in s.connected ==> s.connected[n] in s.peers
                                         && s.peers[s.connected[n]].node == n && Late(s.peers[s.connected[n]].phase))
    && (forall p :: p in s.peers ==> PeerFound(s, p, s.peers[p]))
  }

  ghost predicate PeerFound(s: Net, p: PeerID, peer: Peer) {
    && (Early(peer.phase) ==> peer.node in s.connecting && s.connecting[peer.node] == p)
    && (Late(peer.phase) ==> peer.node in s.connected && s.connected[peer.node] == p)
  }

  /** No connected node is dialed, and every dialer's trackedIP is the entry of its node or stopped. */
  ghost predicate DialersValid(s: Net) {
    && (forall n :: n in s.trackedIPs ==> n !in s.connected && s.trackedIPs[n] < s.created)
    && DistinctIPs(s.trackedIPs) && AllBelow(s.stopped, s.created)
    && (forall ip :: ip in s.dialers ==> ip < s.created && (ip in s.stopped || Current(s, ip, s.dialers[ip])))
  }

  ghost predicate DistinctIPs(ips: map<Node, nat>) {
    forall m, n :: m in ips && n in ips && ips[m] == ips[n] ==> m == n
  }

  ghost predicate AllBelow(ips: set<nat>, n: nat) { forall ip :: ip in ips ==> ip < n }

  ghost predicate Current(s: Net, ip: nat, n: Node) { n in s.trackedIPs && s.trackedIPs[n] == ip }

  /** Whether the last that a listener has heard of a node is that it connected. */
  function Up(events: seq<Event>, k: nat, to: Listener, n: Node): bool
    requires k <= |events|
  {
    if k == 0 then false
    else if events[k - 1].to == to && events[k - 1].node == n then events[k - 1].connected
    else Up(events, k - 1, to, n)
  }

  /** What a listener is told of a node alternates, beginning with a connection. */
  ghost predicate Alternates(events: seq<Event>, to: Listener, n: Node) {
    forall k :: 0 <= k < |events| && events[k].to == to && events[k].node == n
             ==> events[k].connected != Up(events, k, to, n)
  }

  /** What the listeners should think of a node. */
  predicate Expected(s: Net, to: Listener, n: Node)
    requires n in s.connected ==> s.connected[n] in s.peers
  {
    n in s.connected && Believes(to, s.peers[s.connected[n]].phase)
  }

  predicate Believes(to: Listener, phase: Phase) {
    match to
    case Tracker => phase.Tracked? || phase.Live? || phase.LeavingConnected?
    case Router => phase.Live? || phase.LeavingConnected? || phase.Untracked?
  }

  ghost predicate EventsValid(s: Net)
    requires PeersValid(s)
  {
    forall to, n :: Alternates(s.events, to, n) && Up(s.events, |s.events|, to, n) == Expected(s, to, n)
  }

  ghost predicate Valid(s: Net) { PeersValid(s) && DialersValid(s) && EventsValid(s) }

  lemma {:induction false} UpPrefix(a: seq<Event>, b: seq<Event>, k: nat, to: Listener, n: Node)
    requires k <= |a| && a <= b
    ensures Up(a, k, to, n) == Up(b, k, to, n)
  {
    if k > 0 { UpPrefix(a, b, k - 1, to, n); }
  }

  /** One more event. */
  lemma Told(events: seq<Event>, e: Event, to: Listener, n: Node)
    requires Alternates(events, to, n)
    requires e.to == to && e.node == n ==> e.connected != Up(events, |events|, to, n)
    ensures Alternates(events + [e], to, n)
    ensures Up(events + [e], |events| + 1, to, n) == if e.to == to && e.node == n then e.connected
                                                     else Up(events, |events|, to, n)
  {
    var all := events + [e];
    UpPrefix(events, all, |events|, to, n);
    forall k | 0 <= k < |all| && all[k].to == to && all[k].node == n ensures all[k].connected != Up(all, k, to, n) {
      UpPrefix(events, all, k, to, n);
    }
  }

  lemma TellKeepsEvents(s: Net, p: PeerID, to: Listener, connected: bool, from: Phase, after: Phase, next: Net)
    requires Valid(s) && Tell(s, p, to, connected, from, after, next)
    requires Late(from) && Late(after)
    requires Believes(to, from) != connected
    requires forall l :: Believes(l, after) == if l == to then connected else Believes(l, from)
    ensures Valid(next)
  {
    var n := s.peers[p].node;
    assert PeerFound(s, p, s.peers[p]);
    forall q | q in next.peers ensures PeerFound(next, q, next.peers[q]) { assert PeerFound(s, q, s.peers[q]); }
    forall l, m ensures Alternates(next.events, l, m) && Up(next.events, |next.events|, l, m) == Expected(next, l, m) {
      assert Alternates(s.events, l, m) && Up(s.events, |s.events|, l, m) == Expected(s, l, m);
      Told(s.events, Event(to, n, connected), l, m);
    }
  }

  lemma NotifyKeepsValid(s: Net, p: PeerID, next: Net)
    requires Valid(s) && Notify(s, p, next)
    ensures Valid(next)
  {
    assert PeerFound(s, p, s.peers[p]);
    if Tell(s, p, Tracker, true, Moved, Tracked, next) { TellKeepsEvents(s, p, Tracker, true, Moved, Tracked, next); }
    else if Tell(s, p, Router, true, Tracked, Live, next) { TellKeepsEvents(s, p, Router, true, Tracked, Live, next); }
    else if Tell(s, p, Tracker, false, LeavingConnected, Untracked,
                 next) { TellKeepsEvents(s, p, Tracker, false, LeavingConnected, Untracked, next); }
    else { TellKeepsEvents(s, p, Router, false, Untracked, Unrouted, next); }
  }

  /** A step without an event that leaves what is expected of every node. */
  lemma SameEvents(s: Net, next: Net)
    requires Valid(s) && PeersValid(next) && next.events == s.events
    requires forall to, n :: Expected(next, to, n) == Expected(s, to, n)
    ensures EventsValid(next)
  {
    forall to, n ensures Alternates(next.events, to, n)
           && Up(next.events, |next.events|, to, n) == Expected(next, to, n) {
      assert Alternates(s.events, to, n) && Up(s.events, |s.events|, to, n) == Expected(s, to, n);
    }
  }

  lemma UpgradeKeepsValid(s: Net, p: PeerID, n: Node, next: Net)
    requires Valid(s) && Upgrade(s, p, n, next)
    ensures Valid(next)
  {
    if next != s {
      forall q | q in next.peers
        ensures PeerFound(next, q, next.peers[q]) { assert q != p ==> PeerFound(s, q, s.peers[q]); }
      SameEvents(s, next);
    }
  }

  /** A stopped entry leaves its dialer stopped. */
  lemma StopKeepsDialers(s: Net, n: Node)
    requires DialersValid(s)
    ensures DialersValid(StopIP(s, n)) && n !in StopIP(s, n).trackedIPs
  {
    var t := StopIP(s, n);
    forall ip | ip in t.dialers ensures ip < t.created && (ip in t.stopped || Current(t, ip, t.dialers[ip])) {}
  }

  lemma DialKeepsDialers(s: Net, n: Node)
    requires DialersValid(s) && n !in s.connected && n !in s.trackedIPs
    ensures DialersValid(DialIP(s, n))
  {
    var t := DialIP(s, n);
    forall ip | ip in t.dialers ensures ip < t.created && (ip in t.stopped || Current(t, ip, t.dialers[ip])) {}
  }

  lemma ConnectedKeepsValid(s: Net, p: PeerID, next: Net)
    requires Valid(s) && ConnectedLocked(s, p, next)
    ensures Valid(next)
  {
    assert PeerFound(s, p, s.peers[p]);
    ConnectedKeepsPeers(s, p, next);
    ConnectedKeepsDialers(s, p, next);
    SameEvents(s, next);
  }

  lemma ConnectedKeepsPeers(s: Net, p: PeerID, next: Net)
    requires PeersValid(s) && ConnectedLocked(s, p, next)
    ensures PeersValid(next)
  {
    assert PeerFound(s, p, s.peers[p]);
    forall q | q in next.peers ensures PeerFound(next, q, next.peers[q]) { assert PeerFound(s, q, s.peers[q]); }
  }

  lemma ConnectedKeepsDialers(s: Net, p: PeerID, next: Net)
    requires PeersValid(s) && DialersValid(s) && ConnectedLocked(s, p, next)
    ensures DialersValid(next)
  {
    var n := s.peers[p].node;
    assert PeerFound(s, p, s.peers[p]);
    StopKeepsDialers(s, n);
    var t := StopIP(s, n);
    forall ip | ip in next.dialers
      ensures ip < next.created && (ip in next.stopped || Current(next, ip, next.dialers[ip])) {
      assert ip in t.stopped || Current(t, ip, t.dialers[ip]);
    }
  }

  lemma DisconnectedKeepsValid(s: Net, p: PeerID, next: Net)
    requires Valid(s) && Disconnected(s, p, next)
    ensures Valid(next)
  {
    assert PeerFound(s, p, s.peers[p]);
    forall q | q in next.peers ensures PeerFound(next, q, next.peers[q]) { assert PeerFound(s, q, s.peers[q]); }
    SameEvents(s, next);
  }

  lemma LeftConnectingKeepsValid(s: Net, p: PeerID, wanted: bool, next: Net)
    requires Valid(s) && LeftConnecting(s, p, wanted, next)
    ensures Valid(next)
  {
    var n := s.peers[p].node;
    assert PeerFound(s, p, s.peers[p]);
    var removed := SetPhase(s.(connecting := s.connecting - {n}), p, Gone);
    RemovedKeepsValid(s, p, removed);
    StopKeepsDialers(removed, n);
    DialKeepsDialers(StopIP(removed, n), n);
    DialersKeepValid(removed, next);
  }

  lemma RemovedKeepsValid(s: Net, p: PeerID, removed: Net)
    requires Valid(s) && p in s.peers && s.peers[p].phase.LeavingConnecting?
    requires removed == SetPhase(s.(connecting := s.connecting - {s.peers[p].node}), p, Gone)
    ensures Valid(removed)
  {
    assert PeerFound(s, p, s.peers[p]);
    forall q | q in removed.peers
      ensures PeerFound(removed, q, removed.peers[q]) { assert PeerFound(s, q, s.peers[q]); }
    SameEvents(s, removed);
  }

  lemma LeftConnectedKeepsValid(s: Net, p: PeerID, wanted: bool, next: Net)
    requires Valid(s) && LeftConnected(s, p, wanted, next)
    ensures Valid(next)
  {
    var n := s.peers[p].node;
    assert PeerFound(s, p, s.peers[p]);
    var removed := SetPhase(s.(connected := s.connected - {n}), p, Gone);
    UnroutedKeepsValid(s, p, removed);
    DialKeepsDialers(removed, n);
    DialersKeepValid(removed, next);
  }

  lemma UnroutedKeepsValid(s: Net, p: PeerID, removed: Net)
    requires Valid(s) && p in s.peers && s.peers[p].phase.Unrouted?
    requires removed == SetPhase(s.(connected := s.connected - {s.peers[p].node}), p, Gone)
    ensures Valid(removed)
  {
    assert PeerFound(s, p, s.peers[p]);
    forall q | q in removed.peers
      ensures PeerFound(removed, q, removed.peers[q]) { assert PeerFound(s, q, s.peers[q]); }
    SameEvents(s, removed);
  }

  lemma DialersKeepValid(s: Net, next: Net)
    requires Valid(s) && DialersValid(next)
    requires next.connecting == s.connecting && next.connected == s.connected && next.peers == s.peers
             && next.events == s.events
    ensures Valid(next)
  {
    forall p | p in next.peers ensures PeerFound(next, p, next.peers[p]) { assert PeerFound(s, p, s.peers[p]); }
    SameEvents(s, next);
  }

  lemma PeerStepKeepsValid(s: Net, p: PeerID, next: Net)
    requires Valid(s) && PeerStep(s, p, next)
    ensures Valid(next)
  {
    if n :| Upgrade(s, p, n, next) { UpgradeKeepsValid(s, p, n, next); }
    else if ConnectedLocked(s, p, next) { ConnectedKeepsValid(s, p, next); }
    else if Notify(s, p, next) { NotifyKeepsValid(s, p, next); }
    else if Disconnected(s, p, next) { DisconnectedKeepsValid(s, p, next); }
    else if wanted :| LeftConnecting(s, p, wanted, next) { LeftConnectingKeepsValid(s, p, wanted, next); }
    else { var wanted :| LeftConnected(s, p, wanted, next); LeftConnectedKeepsValid(s, p, wanted, next); }
  }

  lemma TrackKeepsValid(s: Net, n: Node, next: Net)
    requires Valid(s) && (ManuallyTrack(s, n, next) || Track(s, n, next))
    ensures Valid(next)
  {
    if n !in s.connected {
      StopKeepsDialers(s, n);
      DialKeepsDialers(StopIP(s, n), n);
      DialersKeepValid(s, next);
    }
  }

  lemma DialerKeepsValid(s: Net, ip: nat, next: Net)
    requires Valid(s) && (DialerDone(s, ip, next) || DialerUnwanted(s, ip, next))
    ensures Valid(next)
  {
    var t := if DialerDone(s, ip, next) then s else StopIP(s, s.dialers[ip]);
    StopKeepsDialers(s, s.dialers[ip]);
    forall i | i in next.dialers ensures i < next.created && (i in next.stopped || Current(next, i, next.dialers[i])) {
      assert i in t.stopped || Current(t, i, t.dialers[i]);
    }
    DialersKeepValid(s, next);
  }

  lemma CloseKeepsValid(s: Net, next: Net)
    requires Valid(s) && StartClose(s, next)
    ensures Valid(next)
  {
    forall ip | ip in next.dialers ensures ip < next.created && ip in next.stopped {
      assert ip in s.stopped || Current(s, ip, s.dialers[ip]);
    }
    DialersKeepValid(s, next);
  }

  lemma StepKeepsValid(s: Net, next: Net)
    requires Valid(s) && Step(s, next)
    ensures Valid(next)
  {
    if p :| PeerStep(s, p, next) { PeerStepKeepsValid(s, p, next); }
    else if n :| ManuallyTrack(s, n, next) || Track(s, n, next) { TrackKeepsValid(s, n, next); }
    else if ip :| DialerDone(s, ip, next) || DialerUnwanted(s, ip, next) { DialerKeepsValid(s, ip, next); }
    else { CloseKeepsValid(s, next); }
  }

  lemma {:induction false} RunIsValid(run: seq<Net>, i: nat)
    requires IsRun(run) && i < |run|
    ensures Valid(run[i])
  {
    if i > 0 {
      RunIsValid(run, i - 1);
      StepKeepsValid(run[i - 1], run[i]);
    }
  }

  // ---------- what every step does ----------

  /** What comes after a phase. */
  predicate Follows(a: Phase, b: Phase) {
    match a
    case Handshake => b.Moved? || b.LeavingConnecting?
    case Moved => b.Tracked?
    case Tracked => b.Live?
    case Live => b.LeavingConnected?
    case LeavingConnecting => b.Gone?
    case LeavingConnected => b.Untracked?
    case Untracked => b.Unrouted?
    case Unrouted => b.Gone?
    case Gone => false
  }

  /** A dialer works for the entry of the node, and is not stopped. */
  ghost predicate Dialed(s: Net, n: Node) {
    n in s.trackedIPs && var ip := s.trackedIPs[n]; ip in s.dialers && s.dialers[ip] == n && ip !in s.stopped
  }

  /** The node has a new entry. */
  ghost predicate Renewed(s: Net, next: Net, n: Node) {
    Dialed(next, n) && next.trackedIPs[n] !in s.dialers && (n in s.trackedIPs ==> next.trackedIPs[n] != s.trackedIPs[n])
  }

  /** Nothing is different for the other nodes: their peers, their entries and their dialers. */
  ghost predicate OthersSame(s: Net, next: Net, n: Node) { PeersSame(s, next, n) && DialsSame(s, next, n) }

  ghost predicate PeersSame(s: Net, next: Net, n: Node) {
    && (forall m :: m != n ==>
          (m in next.connecting <==> m in s.connecting) && (m in next.connected <==> m in s.connected))
    && (forall m :: m != n && m in s.connecting ==> next.connecting[m] == s.connecting[m])
    && (forall m :: m != n && m in s.connected ==> next.connected[m] == s.connected[m])
    && (forall p :: p in s.peers && s.peers[p].node != n ==> p in next.peers && next.peers[p] == s.peers[p])
  }

  ghost predicate DialsSame(s: Net, next: Net, n: Node) {
    && (forall m :: m != n ==> (m in next.trackedIPs <==> m in s.trackedIPs))
    && (forall m :: m != n && m in s.trackedIPs ==> next.trackedIPs[m] == s.trackedIPs[m])
    && (forall m :: m != n ==> (Dialed(next, m) <==> Dialed(s, m)))
    && (forall ip :: ip in s.dialers && s.dialers[ip] != n ==> ip in next.dialers && next.dialers[ip] == s.dialers[ip])
  }

  /** The old entry, if there is one, is stopped. */
  ghost function StoppedWith(s: Net, n: Node): set<nat> {
    s.stopped + if n in s.trackedIPs then {s.trackedIPs[n]} else {}
  }

  lemma StopDoes(s: Net, n: Node)
    requires DialersValid(s)
    ensures var t := StopIP(s, n);
            && n !in t.trackedIPs && t.stopped == StoppedWith(s, n) && DialsSame(s, t, n) && DialersValid(t)
            && t == s.(trackedIPs := t.trackedIPs, stopped := t.stopped)
  {
    StopKeepsDialers(s, n);
    var t := StopIP(s, n);
    forall m | m != n ensures Dialed(t, m) <==> Dialed(s, m) {}
  }

  lemma DialDoes(s: Net, n: Node)
    requires DialersValid(s) && n !in s.trackedIPs
    ensures var t := DialIP(s, n);
            && Renewed(s, t, n) && DialsSame(s, t, n)
            && t == s.(trackedIPs := t.trackedIPs, dialers := t.dialers, created := t.created)
  {
    var t := DialIP(s, n);
    forall m | m != n ensures Dialed(t, m) <==> Dialed(s, m) {}
  }

  lemma RedialDoes(s: Net, n: Node)
    requires DialersValid(s)
    ensures var t := RedialIP(s, n);
            && Renewed(s, t, n) && t.stopped == StoppedWith(s, n) && DialsSame(s, t, n)
            && t == s.(trackedIPs := t.trackedIPs, stopped := t.stopped, dialers := t.dialers, created := t.created)
  {
    StopDoes(s, n);
    DialDoes(StopIP(s, n), n);
    DialsTwice(s, StopIP(s, n), RedialIP(s, n), n);
  }

  lemma DialsTwice(a: Net, b: Net, c: Net, n: Node)
    requires DialsSame(a, b, n) && DialsSame(b, c, n)
    ensures DialsSame(a, c, n)
  {
    forall m | m != n ensures Dialed(c, m) <==> Dialed(a, m) { assert Dialed(b, m) <==> Dialed(a, m); }
  }

  /** Only peers are different. */
  ghost predicate DialsKept(s: Net, next: Net) {
    && next.trackedIPs == s.trackedIPs && next.stopped == s.stopped && next.dialers == s.dialers
    && next.created == s.created && next.events == s.events
  }

  /** A connection becomes a peer in its handshake if and only if the node has none and the network stays open. */
  lemma UpgradeDoes(s: Net, p: PeerID, n: Node, next: Net)
    requires Valid(s) && Upgrade(s, p, n, next)
    ensures s.closing || n in s.connecting || n in s.connected <==> p !in next.peers
    ensures p !in next.peers ==> next == s
    ensures p in next.peers ==>
              && next.peers == s.peers[p := Peer(n, Handshake)] && next.connecting == s.connecting[n := p]
              && next.connected == s.connected && n !in next.connected && DialsKept(s, next)
  {
  }

  /** A peer that has finished its handshake is connected, and its node is dialed no more. */
  lemma ConnectedDoes(s: Net, p: PeerID, next: Net)
    requires Valid(s) && ConnectedLocked(s, p, next)
    ensures var n := s.peers[p].node;
            && next.peers == s.peers[p := Peer(n, Moved)] && n !in next.connecting
            && n in next.connected && next.connected[n] == p && PeersSame(s, next, n)
            && n !in next.trackedIPs && next.stopped == StoppedWith(s, n) && DialsSame(s, next, n)
            && next.dialers == s.dialers && next.events == s.events
  {
    assert PeerFound(s, p, s.peers[p]);
    var n := s.peers[p].node;
    StopDoes(s, n);
    SameDials(s, StopIP(s, n), next, n);
  }

  lemma SameDials(s: Net, t: Net, next: Net, n: Node)
    requires DialsSame(s, t, n)
    requires next.trackedIPs == t.trackedIPs && next.stopped == t.stopped && next.dialers == t.dialers
    ensures DialsSame(s, next, n)
  {
    forall m ensures Dialed(next, m) <==> Dialed(t, m) {}
  }

  /** A peer is found where its phase says, and leaves from there. */
  lemma DisconnectedDoes(s: Net, p: PeerID, next: Net)
    requires Valid(s) && Disconnected(s, p, next)
    ensures next == s.(peers := s.peers[p := Peer(s.peers[p].node,
                                                  if s.peers[p].phase.Live? then LeavingConnected
                                                  else LeavingConnecting)])
  {
    assert PeerFound(s, p, s.peers[p]);
  }

  /** Who is told what after a phase. */
  function NoticeAfter(peer: Peer): Event {
    Event(if peer.phase.Moved? || peer.phase.LeavingConnected? then Tracker else Router, peer.node,
          peer.phase.Moved? || peer.phase.Tracked?)
  }

  /** One listener is told, of the node of this peer. */
  lemma NotifyDoes(s: Net, p: PeerID, next: Net)
    requires Notify(s, p, next)
    ensures p in next.peers && Follows(s.peers[p].phase, next.peers[p].phase)
    ensures next == s.(peers := s.peers[p := Peer(s.peers[p].node, next.peers[p].phase)],
                       events := s.events + [NoticeAfter(s.peers[p])])
  {
    if Tell(s, p, Tracker, true, Moved, Tracked, next) { TellDoes(s, p, Tracker, true, Moved, Tracked, next); }
    else if Tell(s, p, Router, true, Tracked, Live, next) { TellDoes(s, p, Router, true, Tracked, Live, next); }
    else if Tell(s, p, Router, false, Untracked, Unrouted,
                 next) { TellDoes(s, p, Router, false, Untracked, Unrouted, next); }
    else { TellDoes(s, p, Tracker, false, LeavingConnected, Untracked, next); }
  }

  lemma TellDoes(s: Net, p: PeerID, to: Listener, connected: bool, from: Phase, after: Phase, next: Net)
    requires Tell(s, p, to, connected, from, after, next)
    ensures p in s.peers && s.peers[p].phase == from && p in next.peers && next.peers[p].phase == after
    ensures next == s.(peers := s.peers[p := Peer(s.peers[p].node, after)],
                       events := s.events + [Event(to, s.peers[p].node, connected)])
  {
  }

  /** The peer goes, from one of the sets. */
  ghost function Without(s: Net, p: PeerID): Net
    requires p in s.peers
  {
    var n := s.peers[p].node;
    s.(connecting := s.connecting - {n}, connected := s.connected - {n}, peers := s.peers[p := Peer(n, Gone)])
  }

  lemma WithoutDoes(s: Net, p: PeerID)
    requires PeersValid(s) && DialersValid(s) && p in s.peers
    ensures PeersSame(s, Without(s, p), s.peers[p].node) && DialersValid(Without(s, p))
  {
    var t := Without(s, p);
    forall ip | ip in t.dialers ensures ip < t.created && (ip in t.stopped || Current(t, ip, t.dialers[ip])) {
      assert ip in s.stopped || Current(s, ip, s.dialers[ip]);
    }
  }

  /** A node whose handshake has failed is dialed anew if it is wanted and was to be dialed before. */
  lemma LeftConnectingDoes(s: Net, p: PeerID, wanted: bool, next: Net)
    requires Valid(s) && LeftConnecting(s, p, wanted, next)
    ensures var n := s.peers[p].node;
            && next.peers == s.peers[p := Peer(n, Gone)] && n !in next.connecting && n !in next.connected
            && (wanted && n in s.trackedIPs ==> Renewed(s, next, n))
            && (!wanted || n !in s.trackedIPs ==> n !in next.trackedIPs && next.dialers == s.dialers)
            && next.stopped == StoppedWith(s, n) && OthersSame(s, next, n) && next.events == s.events
  {
    assert PeerFound(s, p, s.peers[p]);
    var n, removed := s.peers[p].node, Without(s, p);
    assert n !in s.connected && s.connected - {n} == s.connected;
    WithoutDoes(s, p);
    StopDoes(removed, n);
    RedialDoes(removed, n);
    Removed(s, removed, next, n);
  }

  lemma Removed(s: Net, removed: Net, next: Net, n: Node)
    requires PeersSame(s, removed, n) && DialsSame(removed, next, n) && DialsKept(s, removed)
    requires next.connecting == removed.connecting && next.connected == removed.connected && next.peers == removed.peers
    ensures OthersSame(s, next, n)
  {
    forall m ensures Dialed(removed, m) <==> Dialed(s, m) {}
    DialsTwice(s, removed, next, n);
  }

  /** A node whose connection has ended is dialed if it is wanted. */
  lemma LeftConnectedDoes(s: Net, p: PeerID, wanted: bool, next: Net)
    requires Valid(s) && LeftConnected(s, p, wanted, next)
    ensures var n := s.peers[p].node;
            && next.peers == s.peers[p := Peer(n, Gone)] && n !in next.connecting && n !in next.connected
            && (wanted ==> Renewed(s, next, n)) && (!wanted ==> n !in next.trackedIPs && next.dialers == s.dialers)
            && next.stopped == s.stopped && OthersSame(s, next, n) && next.events == s.events
  {
    assert PeerFound(s, p, s.peers[p]);
    var n, removed := s.peers[p].node, Without(s, p);
    assert n !in s.connecting && s.connecting - {n} == s.connecting;
    WithoutDoes(s, p);
    DialDoes(removed, n);
    Removed(s, removed, next, n);
  }

  /** A new address replaces the entry of a node that is not connected. */
  lemma TrackDoes(s: Net, n: Node, next: Net)
    requires Valid(s) && Track(s, n, next)
    ensures n in s.connected ==> next == s
    ensures n !in s.connected ==>
              && Renewed(s, next, n) && DialsSame(s, next, n) && next.stopped == StoppedWith(s, n)
              && (next.peers, next.connecting, next.connected, next.events) ==
                 (s.peers, s.connecting, s.connected, s.events)
  {
    RedialDoes(s, n);
  }

  /** A node tracked by hand is dialed unless it is connected or dialed already. */
  lemma ManuallyTrackDoes(s: Net, n: Node, next: Net)
    requires Valid(s) && ManuallyTrack(s, n, next)
    ensures n in s.connected || n in s.trackedIPs ==> next == s
    ensures n !in s.connected && n !in s.trackedIPs ==>
              && Renewed(s, next, n) && DialsSame(s, next, n) && next.stopped == s.stopped
              && (next.peers, next.connecting, next.connected, next.events) ==
                 (s.peers, s.connecting, s.connected, s.events)
  {
    if n !in s.connected && n !in s.trackedIPs { DialDoes(s, n); }
  }

  /** A dialer ends; one that finds its node unwanted takes the entry with it. */
  lemma DialerDoes(s: Net, ip: nat, next: Net)
    requires Valid(s) && (DialerDone(s, ip, next) || DialerUnwanted(s, ip, next))
    ensures ip in s.dialers && next.dialers == s.dialers - {ip}
    ensures (next.peers, next.connecting, next.connected, next.events) == (s.peers, s.connecting, s.connected, s.events)
    ensures DialerUnwanted(s, ip, next) ==>
              var n := s.dialers[ip];
              && next.trackedIPs == s.trackedIPs - {n}
              && next.stopped == s.stopped + (if n in s.trackedIPs then {s.trackedIPs[n]} else {})
    ensures DialerDone(s, ip, next) && !DialerUnwanted(s, ip, next) ==>
              next.trackedIPs == s.trackedIPs && next.stopped == s.stopped
  {
  }

  /** Closing stops all dialers, and no peer comes any more. */
  lemma CloseDoes(s: Net, next: Net, p: PeerID, n: Node, later: Net)
    requires Valid(s) && StartClose(s, next)
    ensures (forall ip :: ip in next.dialers ==> ip in next.stopped) && next.trackedIPs == map[]
    ensures (next.peers, next.connecting, next.connected, next.events) == (s.peers, s.connecting, s.connected, s.events)
    ensures Upgrade(next, p, n, later) ==> later == next
  {
    forall ip | ip in next.dialers ensures ip in next.stopped {
      assert ip in s.stopped || Current(s, ip, s.dialers[ip]);
    }
  }

  /** A peer moves on from phase to phase as `Follows` says, and every such move is possible: none is stuck. */
  lemma PhasesFollow(s: Net, p: PeerID, phase: Phase)
    requires Valid(s) && p in s.peers
    ensures Follows(s.peers[p].phase, phase) <==>
            exists next :: PeerStep(s, p, next) && p in next.peers && next.peers[p].phase == phase
  {
    assert PeerFound(s, p, s.peers[p]);
    if next :| PeerStep(s, p, next) && p in next.peers && next.peers[p].phase == phase { MovesOn(s, p, next); }
    if Follows(s.peers[p].phase, phase) {
      var next := MoveTo(s, p, phase);
      assert PeerStep(s, p, next) && p in next.peers && next.peers[p].phase == phase;
    }
  }

  lemma MovesOn(s: Net, p: PeerID, next: Net)
    requires Valid(s) && p in s.peers && PeerStep(s, p, next)
    ensures p in next.peers && Follows(s.peers[p].phase, next.peers[p].phase)
  {
    if ConnectedLocked(s, p, next) { ConnectedDoes(s, p, next); }
    else if Notify(s, p, next) { NotifyDoes(s, p, next); }
    else if Disconnected(s, p, next) { DisconnectedDoes(s, p, next); }
    else if wanted :| LeftConnecting(s, p, wanted, next) { LeftConnectingDoes(s, p, wanted, next); }
    else { var wanted :| LeftConnected(s, p, wanted, next); LeftConnectedDoes(s, p, wanted, next); }
  }

  lemma Notified(s: Net, p: PeerID, phase: Phase) returns (next: Net)
    requires p in s.peers && Follows(s.peers[p].phase, phase)
    requires var now := s.peers[p].phase; now.Moved? || now.Tracked? || now.LeavingConnected? || now.Untracked?
    ensures Notify(s, p, next) && p in next.peers && next.peers[p].phase == phase
  {
    next := SetPhase(s, p, phase).(events := s.events + [NoticeAfter(s.peers[p])]);
  }

  lemma MoveTo(s: Net, p: PeerID, phase: Phase) returns (next: Net)
    requires Valid(s) && p in s.peers && Follows(s.peers[p].phase, phase)
    ensures PeerStep(s, p, next) && p in next.peers && next.peers[p].phase == phase
  {
    assert PeerFound(s, p, s.peers[p]);
    var n := s.peers[p].node;
    match s.peers[p].phase {
      case Handshake =>
        if phase.Moved? {
          next := SetPhase(StopIP(s, n).(connecting := s.connecting - {n},
                                         connected := s.connected[n := s.connecting[n]]), p, Moved);
          assert ConnectedLocked(s, p, next);
        } else {
          next := SetPhase(s, p, LeavingConnecting);
          assert Disconnected(s, p, next);
        }
      case Live =>
        next := SetPhase(s, p, LeavingConnected);
        assert Disconnected(s, p, next);
      case LeavingConnecting =>
        var removed := SetPhase(s.(connecting := s.connecting - {n}), p, Gone);
        next := if n !in s.trackedIPs then removed else StopIP(removed, n);
        assert LeftConnecting(s, p, false, next);
      case Unrouted =>
        next := SetPhase(s.(connected := s.connected - {n}), p, Gone);
        assert LeftConnected(s, p, false, next);
      case Moved => next := Notified(s, p, phase);
      case Tracked => next := Notified(s, p, phase);
      case LeavingConnected => next := Notified(s, p, phase);
      case Untracked => next := Notified(s, p, phase);
      case Gone =>
    }
  }

  // ---------- the guarantees ----------

  /** In every state of every run no node is both connecting and connected, and no connected node is
      tracked for dialing. */
  lemma SetsAreDisjoint(run: seq<Net>, i: nat, n: Node)
    requires IsRun(run) && i < |run| && n in run[i].connected
    ensures n !in run[i].connecting && n !in run[i].trackedIPs
  {
    RunIsValid(run, i);
  }

  /** Every dialer's trackedIP is the current entry of its node or stopped, so no two that are not
      stopped dial the same node. */
  lemma OneDialer(run: seq<Net>, i: nat, a: nat, b: nat)
    requires IsRun(run) && i < |run| && a in run[i].dialers && b in run[i].dialers
    requires a !in run[i].stopped && b !in run[i].stopped
    ensures Current(run[i], a, run[i].dialers[a])
    ensures run[i].dialers[a] == run[i].dialers[b] ==> a == b
  {
    RunIsValid(run, i);
    assert Current(run[i], b, run[i].dialers[b]);
  }

  /** At most one peer of a node is alive, and it is where `Connected` and `Disconnected` look for it:
      the branches for peers that are not found are never taken. */
  lemma OnePeer(run: seq<Net>, i: nat, p: PeerID, q: PeerID)
    requires IsRun(run) && i < |run| && p in run[i].peers && q in run[i].peers
    requires run[i].peers[p].node == run[i].peers[q].node && !run[i].peers[p].phase.Gone?
             && !run[i].peers[q].phase.Gone?
    ensures p == q
    ensures run[i].peers[p].phase.Handshake? ==> run[i].peers[p].node in run[i].connecting
    ensures run[i].peers[p].phase.Live? ==> run[i].peers[p].node in run[i].connected
  {
    RunIsValid(run, i);
    assert PeerFound(run[i], p, run[i].peers[p]) && PeerFound(run[i], q, run[i].peers[q]);
  }

  /** Tracker and router are told of connections and disconnections of a node strictly in turn, and
      what they last heard is right while nothing is under way. */
  lemma ListenersAlternate(run: seq<Net>, i: nat, to: Listener, n: Node)
    requires IsRun(run) && i < |run|
    ensures Alternates(run[i].events, to, n)
    ensures n !in run[i].connected ==> !Up(run[i].events, |run[i].events|, to, n)
    ensures forall p :: p in run[i].peers && run[i].peers[p] == Peer(n, Live)
              ==> Up(run[i].events, |run[i].events|, to, n)
  {
    RunIsValid(run, i);
    assert Up(run[i].events, |run[i].events|, to, n) == Expected(run[i], to, n);
    forall p | p in run[i].peers && run[i].peers[p] == Peer(n, Live) ensures Up(run[i].events, |run[i].events|, to, n) {
      assert PeerFound(run[i], p, run[i].peers[p]);
    }
  }
}
