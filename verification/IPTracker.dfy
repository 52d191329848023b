/** Which addresses of peers are known, desired and gossiped (network/ip_tracker.go). */
module IPTracker {
  import opened ByteStrings

  type Node = nat

  /** A claimed address; `address` stands for everything but node and time. */
  datatype ClaimedIP = ClaimedIP(node: Node, timestamp: nat, address: nat)

  /** GossipID is derived from node and time alone. */
  datatype GossipID = GossipID(node: Node, timestamp: nat)

  function IDOf(ip: ClaimedIP): GossipID { GossipID(ip.node, ip.timestamp) }

  /** How an address compares with the most recent one of its node. */
  datatype Freshness = Untracked | Older | Same | Newer | New

  /** Whether a new filter can be made, and how many entries it is good for. */
  datatype Reset = Fails | Succeeds(maxCount: int)

  const MAX_ENTRIES := 2

  /** How many entries of the filter a node has contributed. */
  function CountOf(bloom: seq<GossipID>, n: Node): nat {
    if bloom == [] then 0
    else CountOf(bloom[..|bloom| - 1], n) + (if bloom[|bloom| - 1].node == n then 1 else 0)
  }

  lemma CountAppend(bloom: seq<GossipID>, g: GossipID, n: Node)
    ensures CountOf(bloom + [g], n) == CountOf(bloom, n) + (if g.node == n then 1 else 0)
  {
    assert (bloom + [g])[..|bloom|] == bloom;
  }

  datatype Filter = Filter(bloom: seq<GossipID>, additions: map<Node, int>, maxCount: int, upToDate: bool)

  /** An address enters the filter if its node has room left: by itself, or if the filter is full
      with all others in a new one. If that cannot be made the address is lost. */
  ghost predicate IsUpdate(f: Filter, f': Filter, recent: map<Node, ClaimedIP>, ip: ClaimedIP, reset: Reset) {
    var count := AdditionsOf(f.additions, ip.node);
    || (count >= MAX_ENTRIES && f' == f)
    || (count < MAX_ENTRIES && |f.bloom| < f.maxCount
        && f' == f.(bloom := f.bloom + [IDOf(ip)], additions := f.additions[ip.node := count + 1]))
    || (count < MAX_ENTRIES && |f.bloom| >= f.maxCount && reset.Fails? && f' == f.(upToDate := false))
    || (count < MAX_ENTRIES && |f.bloom| >= f.maxCount && reset.Succeeds? && IsRefilled(f', recent, reset.maxCount))
  }

  /** A new filter holds the most recent address of every node, and nothing else. */
  ghost predicate IsRefilled(f: Filter, recent: map<Node, ClaimedIP>, maxCount: int) {
    && f.maxCount == maxCount && f.upToDate
    && (forall n :: AdditionsOf(f.additions, n) == if n in recent then 1 else 0)
    && (forall n :: n in recent ==> IDOf(recent[n]) in f.bloom)
  }

  /** A node that was not tracked brings the address it is connected with. */
  ghost predicate IsTracking(ips: Addresses, recent': map<Node, ClaimedIP>, f: Filter, f': Filter, n: Node,
                             reset: Reset) {
    || (n !in ips.tracked && n in ips.connected
        && recent' == ips.recent[n := ips.connected[n]] && IsUpdate(f, f', recent', ips.connected[n], reset))
    || ((n in ips.tracked || n !in ips.connected) && recent' == ips.recent && f' == f)
  }

  /** An address that is new or newer becomes the most recent one of its node; any other changes nothing. */
  ghost predicate IsTaken(ips: Addresses, recent': map<Node, ClaimedIP>, f: Filter, f': Filter, ip: ClaimedIP,
                          reset: Reset) {
    || (IsNews(ips, ip) && recent' == ips.recent[ip.node := ip] && IsUpdate(f, f', recent', ip, reset))
    || (!IsNews(ips, ip) && recent' == ips.recent && f' == f)
  }

  predicate IsNews(ips: Addresses, ip: ClaimedIP) {
    ip.node in ips.tracked && (ip.node in ips.recent ==> ips.recent[ip.node].timestamp < ip.timestamp)
  }

  function AdditionsOf(additions: map<Node, int>, n: Node): int { if n in additions then additions[n] else 0 }

  /** No node has more than two entries in the filter, and the additions count them. */
  ghost predicate IsCounted(bloom: seq<GossipID>, additions: map<Node, int>) {
    forall n :: AdditionsOf(additions, n) == CountOf(bloom, n) <= MAX_ENTRIES
  }

  /** How many entries of the filter belong to one of the nodes. */
  ghost function CountAll(bloom: seq<GossipID>, nodes: set<Node>): nat {
    if bloom == [] then 0
    else CountAll(bloom[..|bloom| - 1], nodes) + (if bloom[|bloom| - 1].node in nodes then 1 else 0)
  }

  ghost function SumOver(additions: map<Node, int>, nodes: set<Node>): int
    requires nodes <= additions.Keys
  {
    if nodes == {} then 0
    else
      var n :| n in nodes;
      additions[n] + SumOver(additions, nodes - {n})
  }

  /** The number of entries is the sum of the additions, at most two for each node. */
  lemma FilterTotal(bloom: seq<GossipID>, additions: map<Node, int>)
    requires IsCounted(bloom, additions)
    ensures |bloom| == SumOver(additions, additions.Keys) <= MAX_ENTRIES * |additions|
  {
    SumIsCount(bloom, additions, additions.Keys);
    forall k | 0 <= k < |bloom| ensures bloom[k].node in additions { Counts(bloom, k); }
    CountsAll(bloom, additions.Keys);
  }

  lemma {:induction false} Counts(bloom: seq<GossipID>, k: nat)
    requires k < |bloom|
    ensures CountOf(bloom, bloom[k].node) > 0
  {
    if k < |bloom| - 1 { Counts(bloom[..|bloom| - 1], k); }
  }

  lemma {:induction false} CountsAll(bloom: seq<GossipID>, nodes: set<Node>)
    requires forall k :: 0 <= k < |bloom| ==> bloom[k].node in nodes
    ensures CountAll(bloom, nodes) == |bloom|
  {
    if bloom != [] { CountsAll(bloom[..|bloom| - 1], nodes); }
  }

  lemma {:induction false} SumIsCount(bloom: seq<GossipID>, additions: map<Node, int>, nodes: set<Node>)
    requires IsCounted(bloom, additions) && nodes <= additions.Keys
    ensures SumOver(additions, nodes) == CountAll(bloom, nodes) <= MAX_ENTRIES * |nodes|
  {
    if nodes == {} {
      CountNone(bloom);
    } else {
      var n :| n in nodes && SumOver(additions, nodes) == additions[n] + SumOver(additions, nodes - {n});
      SumIsCount(bloom, additions, nodes - {n});
      CountSplit(bloom, nodes, n);
      assert AdditionsOf(additions, n) == CountOf(bloom, n);
    }
  }

  lemma {:induction false} CountNone(bloom: seq<GossipID>)
    ensures CountAll(bloom, {}) == 0
  {
    if bloom != [] { CountNone(bloom[..|bloom| - 1]); }
  }

  lemma {:induction false} CountSplit(bloom: seq<GossipID>, nodes: set<Node>, n: Node)
    requires n in nodes
    ensures CountAll(bloom, nodes) == CountOf(bloom, n) + CountAll(bloom, nodes - {n})
  {
    if bloom != [] { CountSplit(bloom[..|bloom| - 1], nodes, n); }
  }

  /** The address of every node with room for more is in the filter. */
  ghost predicate IsCovered(bloom: seq<GossipID>, additions: map<Node, int>, recent: map<Node, ClaimedIP>) {
    forall n :: n in recent && AdditionsOf(additions, n) < MAX_ENTRIES ==> IDOf(recent[n]) in bloom
  }

  /** The filter is counted, and unless an address was lost it covers all. */
  ghost predicate IsFilter(f: Filter, recent: map<Node, ClaimedIP>) {
    match f
    case Filter(bloom, additions, _, upToDate) =>
      IsCounted(bloom, additions) && (upToDate ==> IsCovered(bloom, additions, recent))
  }

  /** One more entry: the address of a node that has room for it. */
  lemma FilterGrows(f: Filter, f': Filter, recent: map<Node, ClaimedIP>, ip: ClaimedIP)
    requires IsFilter(f, recent) && AdditionsOf(f.additions, ip.node) < MAX_ENTRIES
    requires f' == f.(bloom := f.bloom + [IDOf(ip)],
                      additions := f.additions[ip.node := AdditionsOf(f.additions, ip.node) + 1])
    ensures IsFilter(f', recent[ip.node := ip])
  {
    forall n ensures AdditionsOf(f'.additions, n) == CountOf(f'.bloom, n) <= MAX_ENTRIES {
      CountAppend(f.bloom, IDOf(ip), n);
    }
  }

  /** The documented condition for the address of a node to be gossiped. */
  ghost predicate IsGossipable(n: Node, ids: set<Node>, connected: map<Node, ClaimedIP>, recent: map<Node, ClaimedIP>) {
    n in ids && n in connected && n in recent && connected[n].timestamp == recent[n].timestamp
  }

  /** The index is the inverse of the list. */
  ghost predicate IsIndex(index: map<Node, nat>, list: seq<ClaimedIP>) {
    && (forall n :: n in index ==> index[n] < |list| && list[index[n]].node == n)
    && (forall k :: 0 <= k < |list| ==> list[k].node in index && index[list[k].node] == k)
  }

  datatype Lists = Lists(index: map<Node, nat>, list: seq<ClaimedIP>)

  /** The list holds the addresses of exactly the gossipable nodes: those they connected with. */
  ghost predicate IsExact(lists: Lists, ids: set<Node>, connected: map<Node, ClaimedIP>, recent: map<Node, ClaimedIP>) {
    match lists
    case Lists(index, list) =>
      && IsIndex(index, list)
      && (forall n :: n in index <==> IsGossipable(n, ids, connected, recent))
      && (forall n :: n in index ==> list[index[n]] == connected[n])
  }

  /** Every address is filed under its node, and a desired node is known by an address that is no older
      than the one it connected with. */
  ghost predicate AreIPs(ips: Addresses) {
    match ips
    case Addresses(tracked, connected, recent) =>
      && (forall n :: n in connected ==> connected[n].node == n)
      && (forall n :: n in recent ==> n in tracked && recent[n].node == n)
      && (forall n :: n in tracked && n in connected ==> n in recent && connected[n].timestamp <= recent[n].timestamp)
  }

  /** Addresses, list and filter are as they should be. */
  ghost predicate IsSound(ids: set<Node>, ips: Addresses, lists: Lists, f: Filter) {
    match ips
    case Addresses(tracked, connected, recent) =>
      AreIPs(ips) && IsExact(lists, ids, connected, recent) && IsFilter(f, recent)
  }

  datatype Addresses = Addresses(tracked: set<Node>, connected: map<Node, ClaimedIP>, recent: map<Node, ClaimedIP>)

  datatype Desired = Desired(manuallyTracked: set<Node>, manuallyGossipable: set<Node>, tracked: set<Node>,
                             gossipable: set<Node>, validators: set<Node>)

  /** A node is tracked if it was tracked by hand or is a validator, and likewise for gossip. */
  ghost predicate AreDesired(d: Desired) {
    && d.tracked == d.manuallyTracked + d.validators && d.gossipable == d.manuallyGossipable + d.validators
    && d.manuallyGossipable <= d.manuallyTracked
  }

  lemma DesiredSubset(d: Desired)
    requires AreDesired(d)
    ensures d.gossipable <= d.tracked
  {
  }

  /** A node is tracked by hand; `d'` is what the sets of nodes are then. */
  lemma DesiredTrack(d: Desired, d': Desired, n: Node)
    requires AreDesired(d) && d' == d.(manuallyTracked := d.manuallyTracked + {n}, tracked := d.tracked + {n})
    ensures AreDesired(d')
  {
  }

  /** A node is gossiped by hand. */
  lemma DesiredGossip(d: Desired, d': Desired, n: Node)
    requires AreDesired(d) && d'.validators == d.validators
    requires d'.manuallyTracked == d.manuallyTracked + {n} && d'.tracked == d.tracked + {n}
    requires d'.manuallyGossipable == d.manuallyGossipable + {n} && d'.gossipable == d.gossipable + {n}
    ensures AreDesired(d')
  {
  }

  /** A validator is added to them. */
  lemma DesiredAdd(d: Desired, d': Desired, n: Node)
    requires AreDesired(d)
    requires d'.manuallyTracked == d.manuallyTracked && d'.manuallyGossipable == d.manuallyGossipable
    requires d'.tracked == d.tracked + {n} && d'.gossipable == d.gossipable + {n}
    requires d'.validators == d.validators + {n}
    ensures AreDesired(d')
  {
  }

  /** A validator is removed from them. */
  lemma DesiredRemove(d: Desired, d': Desired, n: Node)
    requires AreDesired(d)
    requires d' == if n in d.manuallyGossipable then d.(validators := d.validators - {n})
                   else if n in d.manuallyTracked
                        then d.(gossipable := d.gossipable - {n}, validators := d.validators - {n})
                   else d.(tracked := d.tracked - {n}, gossipable := d.gossipable - {n},
                           validators := d.validators - {n})
    ensures AreDesired(d')
  {
  }

  function FreshnessOf(tracked: set<Node>, recent: map<Node, ClaimedIP>, ip: ClaimedIP): Freshness {
    if ip.node !in tracked then Untracked
    else if ip.node !in recent then New
    else if recent[ip.node].timestamp > ip.timestamp then Older
    else if recent[ip.node].timestamp == ip.timestamp then Same
    else Newer
  }

  /** `b` is `a` without the node. */
  ghost predicate WithoutNode(a: Lists, b: Lists, n: Node)
    requires IsIndex(a.index, a.list)
  {
    && IsIndex(b.index, b.list) && b.index.Keys == a.index.Keys - {n}
    && forall m :: m in b.index ==> b.list[b.index[m]] == a.list[a.index[m]]
  }

  /** What a connection does to an exact list: a newer address replaces the old entry, one that is up
      to date is added. */
  lemma ListAfterConnect(a: Lists, b: Lists, c: Lists, ids: set<Node>, tracked: set<Node>,
                         connected: map<Node, ClaimedIP>, recent: map<Node, ClaimedIP>, recent': map<Node, ClaimedIP>,
                         ip: ClaimedIP, f: Freshness)
    requires f == FreshnessOf(tracked, recent, ip)
    requires IsExact(a, ids, connected, recent) && AreIPs(Addresses(tracked, connected, recent)) && ids <= tracked
    requires recent' == if f.New? || f.Newer? then recent[ip.node := ip] else recent
    requires if f.Newer? then WithoutNode(a, b, ip.node) else b == a
    requires c == if (f.Same? || f.New? || f.Newer?) && ip.node in ids
                  then Lists(b.index[ip.node := |b.list|], b.list + [ip]) else b
    ensures IsExact(c, ids, connected[ip.node := ip], recent')
            <==> ip.node !in a.index || ip.timestamp > recent[ip.node].timestamp
  {
    var n := ip.node;
    if n !in a.index || ip.timestamp > recent[n].timestamp {
      ExactAfterConnect(a, b, c, ids, tracked, connected, recent, recent', ip, f);
    } else if f.Same? {
      var k := a.index[n];
      assert c.list[k].node == n && c.index[n] == |a.list| != k;
    } else {
      assert n in c.index && !IsGossipable(n, ids, connected[n := ip], recent');
    }
  }

  lemma ExactAfterConnect(a: Lists, b: Lists, c: Lists, ids: set<Node>, tracked: set<Node>,
                          connected: map<Node, ClaimedIP>, recent: map<Node, ClaimedIP>, recent': map<Node, ClaimedIP>,
                          ip: ClaimedIP, f: Freshness)
    requires f == FreshnessOf(tracked, recent, ip)
    requires IsExact(a, ids, connected, recent) && AreIPs(Addresses(tracked, connected, recent)) && ids <= tracked
    requires recent' == if f.New? || f.Newer? then recent[ip.node := ip] else recent
    requires if f.Newer? then WithoutNode(a, b, ip.node) else b == a
    requires c == if (f.Same? || f.New? || f.Newer?) && ip.node in ids
                  then Lists(b.index[ip.node := |b.list|], b.list + [ip]) else b
    requires ip.node !in a.index || ip.timestamp > recent[ip.node].timestamp
    ensures IsExact(c, ids, connected[ip.node := ip], recent')
  {
    var n := ip.node;
    assert n !in b.index && IsIndex(b.index, b.list);
    StillIndex(b, c, ip);
    forall m | m in c.index ensures c.list[c.index[m]] == connected[n := ip][m] {
      if m != n { assert m in b.index; }
    }
    forall m ensures m in c.index <==> IsGossipable(m, ids, connected[n := ip], recent') {
      assert m in a.index <==> IsGossipable(m, ids, connected, recent);
    }
  }

  lemma StillIndex(b: Lists, c: Lists, ip: ClaimedIP)
    requires IsIndex(b.index, b.list) && ip.node !in b.index
    requires c == b || c == Lists(b.index[ip.node := |b.list|], b.list + [ip])
    ensures IsIndex(c.index, c.list)
  {
    forall k | 0 <= k < |c.list| ensures c.list[k].node in c.index && c.index[c.list[k].node] == k {
      if k < |b.list| { assert c.list[k] == b.list[k]; }
    }
  }

  /** What a connection does to exactness, and to the documented relation of gossiped and most recent addresses:
      the list stays exact unless the node is in it already and brings no newer address; its addresses stay most
      recent ones unless a gossipable node brings another address of the known time. */
  ghost predicate IsConnect(a: Lists, c: Lists, ids: set<Node>, ips: Addresses, recent': map<Node, ClaimedIP>,
                            ip: ClaimedIP) {
    match ips
    case Addresses(tracked, connected, recent) =>
      var f := FreshnessOf(tracked, recent, ip);
      var exact := IsExact(c, ids, connected[ip.node := ip], recent');
      && (exact <==> ip.node !in a.index || f.Newer?)
      && (exact && IsSubset(a.list, recent) ==>
            (IsSubset(c.list, recent') <==> !(f.Same? && ip.node in ids && ip != recent[ip.node])))
  }

  lemma ConnectIs(a: Lists, b: Lists, c: Lists, ids: set<Node>, ips: Addresses, recent': map<Node, ClaimedIP>,
                  ip: ClaimedIP, f: Freshness)
    requires f == FreshnessOf(ips.tracked, ips.recent, ip)
    requires IsExact(a, ids, ips.connected, ips.recent) && AreIPs(ips) && ids <= ips.tracked
    requires recent' == if f.New? || f.Newer? then ips.recent[ip.node := ip] else ips.recent
    requires if f.Newer? then WithoutNode(a, b, ip.node) else b == a
    requires c == if (f.Same? || f.New? || f.Newer?) && ip.node in ids
                  then Lists(b.index[ip.node := |b.list|], b.list + [ip]) else b
    ensures IsConnect(a, c, ids, ips, recent', ip)
  {
    ListAfterConnect(a, b, c, ids, ips.tracked, ips.connected, ips.recent, recent', ip, f);
    if IsExact(c, ids, ips.connected[ip.node := ip], recent') && IsSubset(a.list, ips.recent) {
      SubsetAfterConnect(a, c, ids, ips.tracked, ips.connected, ips.recent, recent', ip, f);
    }
  }

  /** A node that was not connected is not gossiped, so that the list stays exact. */
  lemma ConnectSound(ids: set<Node>, ips: Addresses, ips': Addresses, lists: Lists, lists': Lists, f: Filter,
                     f': Filter, ip: ClaimedIP)
    requires IsSound(ids, ips, lists, f) && ip.node !in ips.connected
    requires ips'.connected == ips.connected[ip.node := ip] && AreIPs(ips') && IsFilter(f', ips'.recent)
    requires IsConnect(lists, lists', ids, ips, ips'.recent, ip)
    ensures IsSound(ids, ips', lists', f')
  {
    assert ip.node in lists.index <==> IsGossipable(ip.node, ids, ips.connected, ips.recent);
  }

  lemma IPsAfterConnect(tracked: set<Node>, connected: map<Node, ClaimedIP>, recent: map<Node, ClaimedIP>,
                        recent': map<Node, ClaimedIP>,
                        ip: ClaimedIP, f: Freshness)
    requires AreIPs(Addresses(tracked, connected, recent)) && f == FreshnessOf(tracked, recent, ip)
    requires recent' == if f.New? || f.Newer? then recent[ip.node := ip] else recent
    ensures AreIPs(Addresses(tracked, connected[ip.node := ip], recent'))
  {
  }

  /** What the removal of a validator does to an exact list. */
  lemma ListAfterRemoval(a: Lists, b: Lists, ids: set<Node>, connected: map<Node, ClaimedIP>,
                         recent: map<Node, ClaimedIP>, n: Node)
    requires IsExact(a, ids, connected, recent) && WithoutNode(a, b, n)
    ensures IsExact(b, ids - {n}, connected, recent)
  {
    forall m ensures m in b.index <==> IsGossipable(m, ids - {n}, connected, recent) {
      assert m in a.index <==> IsGossipable(m, ids, connected, recent);
    }
  }

  /** An address that is heard of is as good as the one it replaces. */
  lemma SoundTaken(ids: set<Node>, ips: Addresses, ips': Addresses, lists: Lists, lists': Lists, f: Filter, f': Filter,
                   ip: ClaimedIP)
    requires IsSound(ids, ips, lists, f) && IsFilter(f', ips'.recent)
    requires ips' == if IsNews(ips, ip) then ips.(recent := ips.recent[ip.node := ip]) else ips
    requires if IsNews(ips, ip) && ip.node in ips.recent then WithoutNode(lists, lists', ip.node) else lists' == lists
    ensures IsSound(ids, ips', lists', f')
  {
    forall m ensures m in lists'.index <==> IsGossipable(m, ids, ips'.connected, ips'.recent) {
      assert m in lists.index <==> IsGossipable(m, ids, ips.connected, ips.recent);
    }
  }

  /** A node that disconnects is not gossiped any more. */
  lemma SoundDisconnected(ids: set<Node>, ips: Addresses, ips': Addresses, lists: Lists, lists': Lists, f: Filter,
                          n: Node)
    requires IsSound(ids, ips, lists, f) && WithoutNode(lists, lists', n)
    requires ips' == ips.(connected := ips.connected - {n})
    ensures IsSound(ids, ips', lists', f)
  {
    forall m ensures m in lists'.index <==> IsGossipable(m, ids, ips'.connected, ips'.recent) {
      assert m in lists.index <==> IsGossipable(m, ids, ips.connected, ips.recent);
    }
  }

  /** A node that is tracked from now on was not gossiped. */
  lemma SoundTracked(ids: set<Node>, ips: Addresses, ips': Addresses, lists: Lists, f: Filter, f': Filter, n: Node)
    requires IsSound(ids, ips, lists, f) && n !in ids && n !in ips.tracked && IsFilter(f', ips'.recent)
    requires ips'.tracked == ips.tracked + {n} && ips'.connected == ips.connected
    requires ips'.recent == if n in ips.connected then ips.recent[n := ips.connected[n]] else ips.recent
    ensures IsSound(ids, ips', lists, f')
  {
    forall m ensures m in lists.index <==> IsGossipable(m, ids, ips'.connected, ips'.recent) {
      assert m in lists.index <==> IsGossipable(m, ids, ips.connected, ips.recent);
    }
  }

  // ---------- is every gossiped address the most recent one of its node? ----------

  /** The documented relation between the addresses that are gossiped and the most recent ones. */
  ghost predicate IsSubset(list: seq<ClaimedIP>, recent: map<Node, ClaimedIP>) {
    forall k :: 0 <= k < |list| ==> list[k].node in recent && recent[list[k].node] == list[k]
  }

  /** Every gossipable node has connected with its most recent address, not just with one as recent. */
  ghost predicate AllRecent(ids: set<Node>, connected: map<Node, ClaimedIP>, recent: map<Node, ClaimedIP>) {
    forall n :: IsGossipable(n, ids, connected, recent) ==> connected[n] == recent[n]
  }

  lemma SubsetIff(lists: Lists, ids: set<Node>, connected: map<Node, ClaimedIP>, recent: map<Node, ClaimedIP>)
    requires IsExact(lists, ids, connected, recent)
    ensures IsSubset(lists.list, recent) <==> AllRecent(ids, connected, recent)
  {
    if AllRecent(ids, connected, recent) {
      forall k | 0 <= k < |lists.list|
        ensures lists.list[k].node in recent && recent[lists.list[k].node] == lists.list[k] {
        assert IsGossipable(lists.list[k].node, ids, connected, recent);
      }
    }
  }

  /** A connection leaves the relation as it is unless a gossipable node comes with another address of
      the same time as the known one. */
  lemma SubsetAfterConnect(a: Lists, c: Lists, ids: set<Node>, tracked: set<Node>,
                           connected: map<Node, ClaimedIP>, recent: map<Node, ClaimedIP>, recent': map<Node, ClaimedIP>,
                           ip: ClaimedIP, f: Freshness)
    requires f == FreshnessOf(tracked, recent, ip) && AreIPs(Addresses(tracked, connected, recent)) && ids <= tracked
    requires recent' == if f.New? || f.Newer? then recent[ip.node := ip] else recent
    requires IsExact(a, ids, connected, recent) && IsExact(c, ids, connected[ip.node := ip], recent')
    requires IsSubset(a.list, recent)
    ensures IsSubset(c.list, recent') <==> !(f.Same? && ip.node in ids && ip != recent[ip.node])
  {
    var n, now := ip.node, connected[ip.node := ip];
    SubsetIff(a, ids, connected, recent);
    SubsetIff(c, ids, now, recent');
    if f.Same? && n in ids && ip != recent[n] {
      assert IsGossipable(n, ids, now, recent');
    } else {
      forall m | IsGossipable(m, ids, now, recent') ensures now[m] == recent'[m] {
        assert m != n ==> IsGossipable(m, ids, connected, recent);
      }
    }
  }

  /** The node is connected with another address of the same time as the known one, and was not gossiped. */
  ghost predicate GossipsOther(ids: set<Node>, connected: map<Node, ClaimedIP>, recent: map<Node, ClaimedIP>, n: Node) {
    && n !in ids && n in connected && n in recent
    && connected[n].timestamp == recent[n].timestamp && connected[n] != recent[n]
  }

  /** And a node that becomes gossipable leaves it unless it is connected with another address of the
      same time as the known one. */
  lemma SubsetAfterGossip(a: Lists, c: Lists, ids: set<Node>, connected: map<Node, ClaimedIP>,
                          recent: map<Node, ClaimedIP>, n: Node)
    requires IsExact(a, ids, connected, recent) && IsExact(c, ids + {n}, connected, recent) && IsSubset(a.list, recent)
    ensures IsSubset(c.list, recent) <==> !GossipsOther(ids, connected, recent, n)
  {
    SubsetIff(a, ids, connected, recent);
    SubsetIff(c, ids + {n}, connected, recent);
    forall m | m != n ensures IsGossipable(m, ids + {n}, connected, recent)
             <==> IsGossipable(m, ids, connected, recent) {
    }
    if n !in ids && n in connected && n in recent && connected[n].timestamp == recent[n].timestamp {
      assert IsGossipable(n, ids + {n}, connected, recent);
    }
    if n in ids { assert ids + {n} == ids; }
  }

  /** All listed addresses stay most recent ones exactly if no node is newly gossiped that is connected with
      another address of the known time. */
  ghost predicate KeepsSubset(list: seq<ClaimedIP>, list': seq<ClaimedIP>, ids: set<Node>,
                              connected: map<Node, ClaimedIP>, recent: map<Node, ClaimedIP>,
                              recent': map<Node, ClaimedIP>, n: Node) {
    IsSubset(list, recent) ==> (IsSubset(list', recent') <==> !GossipsOther(ids, connected, recent, n))
  }

  /** A node that is tracked from now on was not gossiped. */
  lemma SubsetTracked(lists: Lists, ids: set<Node>, connected: map<Node, ClaimedIP>, recent: map<Node, ClaimedIP>,
                      n: Node, ip: ClaimedIP)
    requires IsExact(lists, ids, connected, recent) && n !in ids && IsSubset(lists.list, recent)
    ensures IsSubset(lists.list, recent[n := ip])
  {
    forall k | 0 <= k < |lists.list| ensures lists.list[k].node != n {
      assert IsGossipable(lists.list[k].node, ids, connected, recent);
    }
  }

  /** A node that is tracked just before brings no other address. */
  lemma SubsetBoth(lists: Lists, list': seq<ClaimedIP>, ids: set<Node>, ips: Addresses,
                   recent': map<Node, ClaimedIP>, f: Filter, f': Filter, n: Node, reset: Reset)
    requires IsSound(ids, ips, lists, f) && ids <= ips.tracked && IsTracking(ips, recent', f, f', n, reset)
    requires KeepsSubset(lists.list, list', ids, ips.connected, recent', recent', n)
    ensures KeepsSubset(lists.list, list', ids, ips.connected, ips.recent, recent', n)
  {
    if IsSubset(lists.list, ips.recent) && n !in ips.tracked && n in ips.connected {
      SubsetTracked(lists, ids, ips.connected, ips.recent, n, ips.connected[n]);
    }
  }

  /** A newer address removes the old one of its node. */
  lemma SubsetAfterNews(a: Lists, c: Lists, ids: set<Node>, tracked: set<Node>, connected: map<Node, ClaimedIP>,
                        recent: map<Node, ClaimedIP>,
                        ip: ClaimedIP)
    requires IsExact(a, ids, connected, recent) && IsExact(c, ids, connected, recent[ip.node := ip])
             && IsSubset(a.list, recent)
    requires AreIPs(Addresses(tracked, connected, recent)) && ip.node in tracked
    requires ip.node in recent ==> recent[ip.node].timestamp < ip.timestamp
    ensures IsSubset(c.list, recent[ip.node := ip])
  {
    SubsetKept(a, c, ids, ids, connected, connected, recent, recent[ip.node := ip]);
  }

  lemma SubsetForgotten(lists: Lists, ids: set<Node>, connected: map<Node, ClaimedIP>, recent: map<Node, ClaimedIP>,
                        recent': map<Node, ClaimedIP>, n: Node)
    requires IsExact(lists, ids, connected, recent) && n !in ids && IsSubset(lists.list, recent)
             && recent' == recent - {n}
    ensures IsSubset(lists.list, recent')
  {
    forall k | 0 <= k < |lists.list| ensures lists.list[k].node != n {
      assert IsGossipable(lists.list[k].node, ids, connected, recent);
    }
  }

  lemma SubsetRemoved(a: Lists, b: Lists, recent: map<Node, ClaimedIP>, n: Node)
    requires IsIndex(a.index, a.list) && WithoutNode(a, b, n)
    ensures IsSubset(a.list, recent) ==> IsSubset(b.list, recent)
  {
    forall k | 0 <= k < |b.list| ensures b.list[k].node in a.index && b.list[k] == a.list[a.index[b.list[k].node]] {
      assert b.list[k].node in b.index;
    }
  }

  /** Nothing else changes the address of a gossipable node. */
  lemma SubsetKept(a: Lists, c: Lists, ids: set<Node>, ids': set<Node>, connected: map<Node, ClaimedIP>,
                   connected': map<Node, ClaimedIP>,
                   recent: map<Node, ClaimedIP>, recent': map<Node, ClaimedIP>)
    requires IsExact(a, ids, connected, recent) && IsExact(c, ids', connected', recent') && IsSubset(a.list, recent)
    requires forall n :: IsGossipable(n, ids', connected', recent') ==>
               && IsGossipable(n, ids, connected, recent) && connected'[n] == connected[n] && recent'[n] == recent[n]
    ensures IsSubset(c.list, recent')
  {
    SubsetIff(a, ids, connected, recent);
    SubsetIff(c, ids', connected', recent');
  }

  /** The address of a node that is not gossiped can be forgotten. */
  lemma Forgotten(lists: Lists, ids: set<Node>, ips: Addresses, f: Filter, n: Node)
    requires IsExact(lists, ids, ips.connected, ips.recent) && AreIPs(ips) && IsFilter(f, ips.recent) && n !in ids
    ensures IsExact(lists, ids, ips.connected, ips.recent - {n})
    ensures AreIPs(Addresses(ips.tracked - {n}, ips.connected, ips.recent - {n})) && IsFilter(f, ips.recent - {n})
  {
    forall m ensures m in lists.index <==> IsGossipable(m, ids, ips.connected, ips.recent - {n}) {
      assert m in lists.index <==> IsGossipable(m, ids, ips.connected, ips.recent);
    }
  }

  class Tracker {
    var manuallyTracked: set<Node>
    var manuallyGossipable: set<Node>
    var mostRecentTrackedIPs: map<Node, ClaimedIP>
    var trackedIDs: set<Node>
    var bloom: seq<GossipID>
    var bloomAdditions: map<Node, int>
    var maxBloomCount: int
    var connected: map<Node, ClaimedIP>
    var gossipableIndices: map<Node, nat>
    var gossipableIPs: seq<ClaimedIP>
    var gossipableIDs: set<Node>

    /** The current validators, and whether no address has been lost to a reset that failed since the
        last that succeeded. */
    ghost var validators: set<Node>
    ghost var upToDate: bool

    // ---------- the invariant ----------

    ghost function GossipableLists(): Lists
      reads this`gossipableIndices, this`gossipableIPs
    {
      Lists(gossipableIndices, gossipableIPs)
    }

    ghost function IPs(): Addresses
      reads this`trackedIDs, this`connected, this`mostRecentTrackedIPs
    {
      Addresses(trackedIDs, connected, mostRecentTrackedIPs)
    }

    ghost function View(): Filter
      reads this`bloom, this`bloomAdditions, this`maxBloomCount, this`upToDate
    {
      Filter(bloom, bloomAdditions, maxBloomCount, upToDate)
    }

    ghost function IDs(): Desired
      reads this`manuallyTracked, this`manuallyGossipable, this`trackedIDs, this`gossipableIDs, this`validators
    {
      Desired(manuallyTracked, manuallyGossipable, trackedIDs, gossipableIDs, validators)
    }

    ghost predicate IDsValid()
      reads this`manuallyTracked, this`manuallyGossipable, this`trackedIDs, this`gossipableIDs, this`validators
    {
      AreDesired(IDs())
    }

    ghost predicate Exact()
      reads this`gossipableIndices, this`gossipableIPs, this`gossipableIDs, this`connected, this`mostRecentTrackedIPs
    {
      IsExact(GossipableLists(), gossipableIDs, connected, mostRecentTrackedIPs)
    }

    ghost predicate Subset()
      reads this`gossipableIPs, this`mostRecentTrackedIPs
    {
      IsSubset(gossipableIPs, mostRecentTrackedIPs)
    }

    ghost predicate BloomValid()
      reads this`bloom, this`bloomAdditions, this`maxBloomCount, this`mostRecentTrackedIPs, this`upToDate
    {
      IsFilter(View(), mostRecentTrackedIPs)
    }

    ghost predicate Sound()
      reads this
    {
      IsSound(gossipableIDs, IPs(), GossipableLists(), View())
    }

    ghost predicate Valid()
      reads this
    {
      IDsValid() && Sound()
    }

    // ---------- the list of gossipable addresses ----------

    method AddGossipableIP(ip: ClaimedIP)
      modifies this`gossipableIndices, this`gossipableIPs
      ensures gossipableIPs == old(gossipableIPs) + [ip]
      ensures gossipableIndices == old(gossipableIndices)[ip.node := |old(gossipableIPs)|]
    {
      gossipableIndices := gossipableIndices[ip.node := |gossipableIPs|];
      gossipableIPs := gossipableIPs + [ip];
    }

    /** The last address takes the place of the one that is removed. */
    method RemoveGossipableIP(n: Node)
      requires IsIndex(gossipableIndices, gossipableIPs)
      modifies this`gossipableIndices, this`gossipableIPs
      ensures WithoutNode(old(GossipableLists()), GossipableLists(), n)
    {
      if n !in gossipableIndices { return; }
      var indexToRemove := gossipableIndices[n];
      var last := |gossipableIPs| - 1;
      if last != indexToRemove {
        var replacement := gossipableIPs[last];
        gossipableIndices := gossipableIndices[replacement.node := indexToRemove];
        gossipableIPs := gossipableIPs[indexToRemove := replacement];
      }
      gossipableIndices := gossipableIndices - {n};
      gossipableIPs := gossipableIPs[..last];
    }

    // ---------- the filter ----------

    /** A new filter with the most recent address of every node. */
    method ResetBloom(reset: Reset) returns (ok: bool)
      requires IsCounted(bloom, bloomAdditions)
               && forall n :: n in mostRecentTrackedIPs ==> mostRecentTrackedIPs[n].node == n
      modifies this`bloom, this`bloomAdditions, this`maxBloomCount, this`upToDate
      ensures ok == reset.Succeeds? && IsCounted(bloom, bloomAdditions)
      ensures !ok ==> View() == old(View())
      ensures ok ==> maxBloomCount == reset.maxCount && upToDate
      ensures ok ==> forall n :: AdditionsOf(bloomAdditions, n) == if n in mostRecentTrackedIPs then 1 else 0
      ensures ok ==> forall n :: n in mostRecentTrackedIPs ==> IDOf(mostRecentTrackedIPs[n]) in bloom
    {
      ok := reset.Succeeds?;
      if !ok { return; }
      bloom, bloomAdditions, maxBloomCount, upToDate := [], map[], reset.maxCount, true;
      var left := mostRecentTrackedIPs.Keys;
      while left != {}
        invariant left <= mostRecentTrackedIPs.Keys && maxBloomCount == reset.maxCount && upToDate
        invariant forall n :: AdditionsOf(bloomAdditions, n) == CountOf(bloom, n)
                    == if n in mostRecentTrackedIPs && n !in left then 1 else 0
        invariant forall n :: n in mostRecentTrackedIPs && n !in left ==> IDOf(mostRecentTrackedIPs[n]) in bloom
        decreases left
      {
        var n :| n in left;
        var g := IDOf(mostRecentTrackedIPs[n]);
        forall m { CountAppend(bloom, g, m); }
        bloom := bloom + [g];
        bloomAdditions := bloomAdditions[n := 1];
        left := left - {n};
      }
    }

    /** A full filter is replaced by one that holds all addresses, if one can be made. */
    method Refill(ip: ClaimedIP, reset: Reset)
      requires IsCounted(bloom, bloomAdditions) && AdditionsOf(bloomAdditions, ip.node) < MAX_ENTRIES
      requires |bloom| >= maxBloomCount && forall n :: n in mostRecentTrackedIPs ==> mostRecentTrackedIPs[n].node == n
      modifies this`bloom, this`bloomAdditions, this`maxBloomCount, this`upToDate
      ensures BloomValid() && IsUpdate(old(View()), View(), mostRecentTrackedIPs, ip, reset)
    {
      var ok := ResetBloom(reset);
      if !ok { upToDate := false; }
    }

    /** The address becomes the most recent one of its node; it enters the filter if the node has
        room left, by way of a new filter if the old one is full. */
    method UpdateMostRecentTrackedIP(ip: ClaimedIP, reset: Reset)
      requires BloomValid() && forall n :: n in mostRecentTrackedIPs ==> mostRecentTrackedIPs[n].node == n
      modifies this`mostRecentTrackedIPs, this`bloom, this`bloomAdditions, this`maxBloomCount, this`upToDate
      ensures mostRecentTrackedIPs == old(mostRecentTrackedIPs)[ip.node := ip]
      ensures BloomValid() && IsUpdate(old(View()), View(), mostRecentTrackedIPs, ip, reset)
    {
      mostRecentTrackedIPs := mostRecentTrackedIPs[ip.node := ip];
      var oldCount := AdditionsOf(bloomAdditions, ip.node);
      if oldCount >= MAX_ENTRIES { return; }
      if |bloom| >= maxBloomCount {
        Refill(ip, reset);
        return;
      }
      bloomAdditions := bloomAdditions[ip.node := oldCount + 1];
      bloom := bloom + [IDOf(ip)];
      FilterGrows(old(View()), View(), old(mostRecentTrackedIPs), ip);
    }

    // ---------- addresses ----------

    predicate ShouldVerifyIP(ip: ClaimedIP)
      reads this`trackedIDs, this`mostRecentTrackedIPs
    {
      && ip.node in trackedIDs
      && (ip.node in mostRecentTrackedIPs ==> mostRecentTrackedIPs[ip.node].timestamp < ip.timestamp)
    }

    /** addIP: what a new address does to everything but `connected`. */
    method TryAddIP(ip: ClaimedIP, reset: Reset) returns (f: Freshness)
      requires IsIndex(gossipableIndices, gossipableIPs) && BloomValid()
      requires forall n :: n in mostRecentTrackedIPs ==> mostRecentTrackedIPs[n].node == n
      modifies this`mostRecentTrackedIPs, this`bloom, this`bloomAdditions, this`maxBloomCount, this`upToDate,
               this`gossipableIndices, this`gossipableIPs
      ensures BloomValid() && f == FreshnessOf(trackedIDs, old(mostRecentTrackedIPs), ip)
      ensures IsTaken(old(IPs()), mostRecentTrackedIPs, old(View()), View(), ip, reset)
      ensures if f.Newer? then WithoutNode(old(GossipableLists()), GossipableLists(), ip.node)
              else GossipableLists() == old(GossipableLists())
    {
      if ip.node !in trackedIDs { return Untracked; }
      if ip.node !in mostRecentTrackedIPs {
        UpdateMostRecentTrackedIP(ip, reset);
        return New;
      }
      var prev := mostRecentTrackedIPs[ip.node];
      if prev.timestamp > ip.timestamp { return Older; }
      if prev.timestamp == ip.timestamp { return Same; }
      UpdateMostRecentTrackedIP(ip, reset);
      RemoveGossipableIP(ip.node);
      return Newer;
    }

    /** An address heard of: it is taken over exactly if it had to be verified. */
    method AddIP(ip: ClaimedIP, reset: Reset) returns (added: bool)
      requires Valid()
      modifies this`mostRecentTrackedIPs, this`bloom, this`bloomAdditions, this`maxBloomCount, this`upToDate,
               this`gossipableIndices, this`gossipableIPs
      ensures Valid() && added == old(ShouldVerifyIP(ip))
      ensures IsTaken(old(IPs()), mostRecentTrackedIPs, old(View()), View(), ip, reset)
      ensures old(Subset()) ==> Subset()
    {
      added := TakeIP(ip, reset);
      if added && old(Subset()) {
        SubsetAfterNews(old(GossipableLists()), GossipableLists(), gossipableIDs, trackedIDs, connected,
                        old(mostRecentTrackedIPs), ip);
      }
    }

    method TakeIP(ip: ClaimedIP, reset: Reset) returns (added: bool)
      requires Valid()
      modifies this`mostRecentTrackedIPs, this`bloom, this`bloomAdditions, this`maxBloomCount, this`upToDate,
               this`gossipableIndices, this`gossipableIPs
      ensures Valid() && added == old(ShouldVerifyIP(ip))
      ensures IsTaken(old(IPs()), mostRecentTrackedIPs, old(View()), View(), ip, reset)
      ensures !added ==> gossipableIPs == old(gossipableIPs)
    {
      var f := TryAddIP(ip, reset);
      added := f.New? || f.Newer?;
      SoundTaken(gossipableIDs, old(IPs()), IPs(), old(GossipableLists()), GossipableLists(), old(View()), View(), ip);
      assert IDs() == old(IDs());
    }

    /** A peer has connected. For a node that is not connected the tracker stays valid. */
    method Connected(ip: ClaimedIP, reset: Reset)
      requires Valid()
      modifies this`connected, this`mostRecentTrackedIPs, this`bloom, this`bloomAdditions, this`maxBloomCount,
               this`upToDate, this`gossipableIndices, this`gossipableIPs
      ensures AreIPs(IPs()) && BloomValid() && connected == old(connected)[ip.node := ip]
      ensures IsTaken(old(IPs()), mostRecentTrackedIPs, old(View()), View(), ip, reset)
      ensures IsConnect(old(GossipableLists()), GossipableLists(), gossipableIDs, old(IPs()), mostRecentTrackedIPs, ip)
    {
      DesiredSubset(IDs());
      ghost var lists, ips := GossipableLists(), IPs();
      var f := RecordConnected(ip, reset);
      ghost var ips', filter' := IPs(), View();
      ListConnected(ip, f, lists, ips);
      assert IPs() == ips' && View() == filter';
    }

    /** Connected for a node that is not connected, as the network calls it. */
    method ConnectNew(ip: ClaimedIP, reset: Reset)
      requires Valid() && ip.node !in connected
      modifies this`connected, this`mostRecentTrackedIPs, this`bloom, this`bloomAdditions, this`maxBloomCount,
               this`upToDate, this`gossipableIndices, this`gossipableIPs
      ensures Valid() && connected == old(connected)[ip.node := ip]
      ensures IsTaken(old(IPs()), mostRecentTrackedIPs, old(View()), View(), ip, reset)
    {
      Connected(ip, reset);
      ConnectSound(gossipableIDs, old(IPs()), IPs(), old(GossipableLists()), GossipableLists(), old(View()), View(),
                   ip);
      assert IDs() == old(IDs());
    }

    /** The second half of Connected: an address that is up to date is gossiped. */
    method ListConnected(ip: ClaimedIP, f: Freshness, ghost lists: Lists, ghost ips: Addresses)
      requires IsExact(lists, gossipableIDs, ips.connected, ips.recent) && AreIPs(ips)
               && gossipableIDs <= ips.tracked
      requires f == FreshnessOf(ips.tracked, ips.recent, ip)
      requires mostRecentTrackedIPs == if f.New? || f.Newer? then ips.recent[ip.node := ip] else ips.recent
      requires if f.Newer? then WithoutNode(lists, GossipableLists(), ip.node) else GossipableLists() == lists
      modifies this`gossipableIndices, this`gossipableIPs
      ensures IsConnect(lists, GossipableLists(), gossipableIDs, ips, mostRecentTrackedIPs, ip)
    {
      ghost var removed := GossipableLists();
      if (f.Same? || f.New? || f.Newer?) && ip.node in gossipableIDs {
        AddGossipableIP(ip);
      }
      ConnectIs(lists, removed, GossipableLists(), gossipableIDs, ips, mostRecentTrackedIPs, ip, f);
    }

    /** The first half of Connected. */
    method RecordConnected(ip: ClaimedIP, reset: Reset) returns (f: Freshness)
      requires Valid()
      modifies this`connected, this`mostRecentTrackedIPs, this`bloom, this`bloomAdditions, this`maxBloomCount,
               this`upToDate, this`gossipableIndices, this`gossipableIPs
      ensures connected == old(connected)[ip.node := ip] && AreIPs(IPs()) && BloomValid()
      ensures f == FreshnessOf(trackedIDs, old(mostRecentTrackedIPs), ip)
      ensures mostRecentTrackedIPs == if f.New? || f.Newer? then old(mostRecentTrackedIPs)[ip.node := ip]
                                      else old(mostRecentTrackedIPs)
      ensures IsTaken(old(IPs()), mostRecentTrackedIPs, old(View()), View(), ip, reset)
      ensures if f.Newer? then WithoutNode(old(GossipableLists()), GossipableLists(), ip.node)
              else GossipableLists() == old(GossipableLists())
    {
      connected := connected[ip.node := ip];
      f := TryAddIP(ip, reset);
      IPsAfterConnect(trackedIDs, old(connected), old(mostRecentTrackedIPs), mostRecentTrackedIPs, ip, f);
    }

    method Disconnected(n: Node)
      requires Valid()
      modifies this`connected, this`gossipableIndices, this`gossipableIPs
      ensures Valid() && connected == old(connected) - {n}
      ensures old(Subset()) ==> Subset()
    {
      connected := connected - {n};
      RemoveGossipableIP(n);
      SubsetRemoved(old(GossipableLists()), GossipableLists(), mostRecentTrackedIPs, n);
      SoundDisconnected(gossipableIDs, old(IPs()), IPs(), old(GossipableLists()), GossipableLists(), View(), n);
    }

    // ---------- which nodes are desired ----------

    method AddTrackableID(n: Node, reset: Reset)
      requires Sound() && gossipableIDs <= trackedIDs
      modifies this`trackedIDs, this`mostRecentTrackedIPs, this`bloom, this`bloomAdditions, this`maxBloomCount,
               this`upToDate
      ensures Sound()
      ensures trackedIDs == old(trackedIDs) + {n}
      ensures IsTracking(old(IPs()), mostRecentTrackedIPs, old(View()), View(), n, reset)
      ensures old(Subset()) ==> Subset()
    {
      if n in trackedIDs {
        assert trackedIDs == trackedIDs + {n};
        return;
      }
      trackedIDs := trackedIDs + {n};
      if n in connected {
        UpdateMostRecentTrackedIP(connected[n], reset);
        if old(Subset()) { SubsetTracked(GossipableLists(), gossipableIDs, connected, old(mostRecentTrackedIPs), n,
                                         connected[n]); }
      }
      SoundTracked(gossipableIDs, old(IPs()), IPs(), GossipableLists(), old(View()), View(), n);
    }

    method AddGossipableID(n: Node)
      requires Sound()
      modifies this`gossipableIDs, this`gossipableIndices, this`gossipableIPs
      ensures Sound() && gossipableIDs == old(gossipableIDs) + {n}
      ensures KeepsSubset(old(gossipableIPs), gossipableIPs, old(gossipableIDs), connected, mostRecentTrackedIPs,
                          mostRecentTrackedIPs, n)
    {
      ListGossipable(n);
      if old(Subset()) {
        SubsetAfterGossip(old(GossipableLists()), GossipableLists(), old(gossipableIDs), connected,
                          mostRecentTrackedIPs, n);
      }
    }

    method ListGossipable(n: Node)
      requires AreIPs(IPs()) && Exact()
      modifies this`gossipableIDs, this`gossipableIndices, this`gossipableIPs
      ensures Exact() && gossipableIDs == old(gossipableIDs) + {n}
    {
      if n in gossipableIDs {
        assert gossipableIDs == gossipableIDs + {n};
        return;
      }
      gossipableIDs := gossipableIDs + {n};
      if n !in connected { return; }
      if n !in mostRecentTrackedIPs || connected[n].timestamp != mostRecentTrackedIPs[n].timestamp { return; }
      AddGossipableIP(connected[n]);
    }

    method AddBoth(n: Node, reset: Reset)
      requires Sound() && gossipableIDs <= trackedIDs
      modifies this`trackedIDs, this`mostRecentTrackedIPs, this`bloom, this`bloomAdditions, this`maxBloomCount,
               this`upToDate,
               this`gossipableIDs, this`gossipableIndices, this`gossipableIPs
      ensures Sound()
      ensures trackedIDs == old(trackedIDs) + {n} && gossipableIDs == old(gossipableIDs) + {n}
      ensures IsTracking(old(IPs()), mostRecentTrackedIPs, old(View()), View(), n, reset)
      ensures KeepsSubset(old(gossipableIPs), gossipableIPs, old(gossipableIDs), connected, old(mostRecentTrackedIPs),
                          mostRecentTrackedIPs, n)
    {
      AddTrackableID(n, reset);
      AddGossipableID(n);
      SubsetBoth(old(GossipableLists()), gossipableIPs, old(gossipableIDs), old(IPs()), mostRecentTrackedIPs,
                 old(View()), View(), n, reset);
    }

    method ManuallyTrack(n: Node, reset: Reset)
      requires Valid()
      modifies this`trackedIDs, this`manuallyTracked, this`mostRecentTrackedIPs, this`bloom, this`bloomAdditions,
               this`maxBloomCount, this`upToDate
      ensures Valid() && manuallyTracked == old(manuallyTracked) + {n}
      ensures IsTracking(old(IPs()), mostRecentTrackedIPs, old(View()), View(), n, reset)
      ensures old(Subset()) ==> Subset()
    {
      DesiredSubset(IDs());
      AddTrackableID(n, reset);
      manuallyTracked := manuallyTracked + {n};
      DesiredTrack(old(IDs()), IDs(), n);
    }

    method ManuallyGossip(n: Node, reset: Reset)
      requires Valid()
      modifies this`trackedIDs, this`manuallyTracked, this`mostRecentTrackedIPs, this`bloom, this`bloomAdditions,
               this`maxBloomCount, this`upToDate,
               this`gossipableIDs, this`manuallyGossipable, this`gossipableIndices, this`gossipableIPs
      ensures Valid() && manuallyTracked == old(manuallyTracked) + {n}
              && manuallyGossipable == old(manuallyGossipable) + {n}
      ensures IsTracking(old(IPs()), mostRecentTrackedIPs, old(View()), View(), n, reset)
      ensures KeepsSubset(old(gossipableIPs), gossipableIPs, old(gossipableIDs), connected, old(mostRecentTrackedIPs),
                          mostRecentTrackedIPs, n)
    {
      DesiredSubset(IDs());
      AddBoth(n, reset);
      ghost var lists, ips, f := GossipableLists(), IPs(), View();
      manuallyTracked := manuallyTracked + {n};
      manuallyGossipable := manuallyGossipable + {n};
      DesiredGossip(old(IDs()), IDs(), n);
      assert GossipableLists() == lists && IPs() == ips && View() == f;
    }

    method OnValidatorAdded(n: Node, reset: Reset)
      requires Valid()
      modifies this`trackedIDs, this`mostRecentTrackedIPs, this`bloom, this`bloomAdditions, this`maxBloomCount,
               this`upToDate,
               this`gossipableIDs, this`gossipableIndices, this`gossipableIPs, this`validators
      ensures Valid() && validators == old(validators) + {n}
      ensures IsTracking(old(IPs()), mostRecentTrackedIPs, old(View()), View(), n, reset)
      ensures KeepsSubset(old(gossipableIPs), gossipableIPs, old(gossipableIDs), connected, old(mostRecentTrackedIPs),
                          mostRecentTrackedIPs, n)
    {
      DesiredSubset(IDs());
      AddBoth(n, reset);
      ghost var lists, ips, f := GossipableLists(), IPs(), View();
      validators := validators + {n};
      DesiredAdd(old(IDs()), IDs(), n);
      assert GossipableLists() == lists && IPs() == ips && View() == f;
    }

    method OnValidatorRemoved(n: Node)
      requires Valid()
      modifies this`trackedIDs, this`mostRecentTrackedIPs, this`gossipableIDs, this`gossipableIndices,
               this`gossipableIPs, this`validators
      ensures Valid() && validators == old(validators) - {n}
      ensures mostRecentTrackedIPs == if n in manuallyTracked then old(mostRecentTrackedIPs)
                                      else old(mostRecentTrackedIPs) - {n}
      ensures old(Subset()) ==> Subset()
    {
      validators := validators - {n};
      if n !in manuallyGossipable { Undesire(n); }
      DesiredRemove(old(IDs()), IDs(), n);
    }

    /** The rest of OnValidatorRemoved, for a node that was not gossiped by hand. */
    method Undesire(n: Node)
      requires Sound()
      modifies this`trackedIDs, this`mostRecentTrackedIPs, this`gossipableIDs, this`gossipableIndices,
               this`gossipableIPs
      ensures Sound()
      ensures gossipableIDs == old(gossipableIDs) - {n}
      ensures trackedIDs == if n in manuallyTracked then old(trackedIDs) else old(trackedIDs) - {n}
      ensures mostRecentTrackedIPs == if n in manuallyTracked then old(mostRecentTrackedIPs)
                                      else old(mostRecentTrackedIPs) - {n}
      ensures old(Subset()) ==> Subset()
    {
      StopGossip(n);
      if n in manuallyTracked { return; }
      StopTracking(n);
    }

    method StopTracking(n: Node)
      requires Sound()
               && n !in gossipableIDs
      modifies this`trackedIDs, this`mostRecentTrackedIPs
      ensures Sound()
      ensures trackedIDs == old(trackedIDs) - {n} && mostRecentTrackedIPs == old(mostRecentTrackedIPs) - {n}
      ensures old(Subset()) ==> Subset()
    {
      ghost var recent := mostRecentTrackedIPs - {n};
      if Subset() { SubsetForgotten(GossipableLists(), gossipableIDs, connected, mostRecentTrackedIPs, recent, n); }
      Forgotten(GossipableLists(), gossipableIDs, Addresses(trackedIDs, connected, mostRecentTrackedIPs), View(), n);
      trackedIDs := trackedIDs - {n};
      mostRecentTrackedIPs := mostRecentTrackedIPs - {n};
    }

    method StopGossip(n: Node)
      requires Exact()
      modifies this`gossipableIDs, this`gossipableIndices, this`gossipableIPs
      ensures Exact() && gossipableIDs == old(gossipableIDs) - {n}
      ensures old(Subset()) ==> Subset()
    {
      gossipableIDs := gossipableIDs - {n};
      RemoveGossipableIP(n);
      SubsetRemoved(old(GossipableLists()), GossipableLists(), mostRecentTrackedIPs, n);
      ListAfterRemoval(old(GossipableLists()), GossipableLists(), old(gossipableIDs), connected, mostRecentTrackedIPs,
                       n);
    }

    constructor (maxCount: int)
      ensures Valid() && upToDate && connected == map[] && mostRecentTrackedIPs == map[]
      ensures manuallyTracked == manuallyGossipable == validators == {}
      ensures bloom == [] && bloomAdditions == map[] && maxBloomCount == maxCount
    {
      manuallyTracked, manuallyGossipable, trackedIDs, gossipableIDs, validators := {}, {}, {}, {}, {};
      mostRecentTrackedIPs, connected, gossipableIndices, bloomAdditions := map[], map[], map[], map[];
      gossipableIPs, bloom, maxBloomCount, upToDate := [], [], maxCount, true;
    }

    // ---------- what is gossiped ----------

    predicate Eligible(ip: ClaimedIP, exceptNode: Node, exceptIPs: GossipID -> bool) {
      ip.node != exceptNode && !exceptIPs(IDOf(ip))
    }

    /** A sample of the gossipable addresses: each at most once, and all that are eligible if there are
        no more than asked for. The order is that of the sampler, which draws every index once. */
    method GetGossipableIPs(exceptNode: Node, exceptIPs: GossipID -> bool, maxNumIPs: nat, order: seq<nat>)
      returns (ips: seq<ClaimedIP>)
      requires Valid() && NoDuplicates(order) && forall k :: k in order <==> 0 <= k < |gossipableIPs|
      ensures |ips| <= maxNumIPs
      ensures forall i, j :: 0 <= i < j < |ips| ==> ips[i].node != ips[j].node
      ensures forall ip :: ip in ips ==> ip in gossipableIPs && Eligible(ip, exceptNode, exceptIPs)
      ensures |ips| < maxNumIPs ==>
                forall ip :: ip in gossipableIPs && Eligible(ip, exceptNode, exceptIPs) ==> ip in ips
    {
      ips := [];
      var next := 0;
      assert forall p :: 0 <= p < |order| ==> order[p] in order;
      while |ips| < maxNumIPs
        invariant next <= |order| && |ips| <= maxNumIPs
        invariant forall i, j :: 0 <= i < j < |ips| ==> ips[i].node != ips[j].node
        invariant forall ip :: ip in ips ==> Eligible(ip, exceptNode, exceptIPs) && Drawn(order, next, ip)
        invariant forall p :: 0 <= p < next && Eligible(gossipableIPs[order[p]], exceptNode, exceptIPs)
                    ==> gossipableIPs[order[p]] in ips
        decreases |order| - next
      {
        if next == |order| {
          forall ip | ip in gossipableIPs && Eligible(ip, exceptNode, exceptIPs) ensures ip in ips {
            var k :| 0 <= k < |gossipableIPs| && gossipableIPs[k] == ip;
            assert k in order;
          }
          return;
        }
        var ip := gossipableIPs[order[next]];
        forall other | other in ips ensures other.node != ip.node { DrawnBefore(order, next, other); }
        next := next + 1;
        if ip.node == exceptNode { continue; }
        if !exceptIPs(IDOf(ip)) {
          ips := ips + [ip];
        }
      }
    }

    ghost predicate Drawn(order: seq<nat>, n: nat, ip: ClaimedIP)
      reads this`gossipableIPs
    {
      exists p :: 0 <= p < n && p < |order| && order[p] < |gossipableIPs| && gossipableIPs[order[p]] == ip
    }

    lemma DrawnBefore(order: seq<nat>, n: nat, ip: ClaimedIP)
      requires IsIndex(gossipableIndices, gossipableIPs) && NoDuplicates(order) && n < |order|
               && order[n] < |gossipableIPs| && Drawn(order, n, ip)
      ensures ip.node != gossipableIPs[order[n]].node
    {
    }
  }

  /** Two addresses of one node may carry the same time, so that the address gossiped is not the one
      that is known as most recent. */
  method SameTimeOtherAddress() returns (t: Tracker)
    ensures fresh(t) && t.Valid()
    ensures exists ip ::
              ip in t.gossipableIPs && ip.node in t.mostRecentTrackedIPs && ip != t.mostRecentTrackedIPs[ip.node]
  {
    t := KnownAddress();
    t.ConnectNew(ClaimedIP(1, 5, 20), Fails);
    assert IsGossipable(1, t.gossipableIDs, t.connected, t.mostRecentTrackedIPs);
    var ip := t.gossipableIPs[t.gossipableIndices[1]];
    assert ip == ClaimedIP(1, 5, 20);
  }

  /** Where a reset fails that an address needs, the filter misses that address. */
  method AddressLost() returns (t: Tracker)
    ensures fresh(t) && t.Valid()
    ensures !IsCovered(t.bloom, t.bloomAdditions, t.mostRecentTrackedIPs)
  {
    t := new Tracker(0);
    t.ManuallyTrack(1, Fails);
    var added := t.AddIP(ClaimedIP(1, 5, 10), Fails);
    assert AdditionsOf(t.bloomAdditions, 1) == 0;
  }

  method KnownAddress() returns (t: Tracker)
    ensures fresh(t) && t.Valid() && t.connected == map[] && 1 in t.gossipableIDs && 1 in t.trackedIDs
    ensures t.mostRecentTrackedIPs == map[1 := ClaimedIP(1, 5, 10)]
  {
    t := new Tracker(8);
    t.ManuallyGossip(1, Fails);
    var added := t.AddIP(ClaimedIP(1, 5, 10), Fails);
  }
}
