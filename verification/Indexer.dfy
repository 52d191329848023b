/** Which chains are indexed, over all runs of a node (indexer/indexer.go). */
module Indexer {
  type Chain = nat

  /** What is kept in the database from run to run: whether the node has run, and the chains marked as
      incomplete and as indexed before. */
  datatype Flags = Flags(hasRun: bool, incomplete: set<Chain>, previouslyIndexed: set<Chain>)

  /** A run: its configuration, what was found at its start, and the chains with an index of blocks, of
      vertices and of transactions. */
  datatype Run = Run(allowIncompleteIndex: bool, indexingEnabled: bool, hasRunBefore: bool, closed: bool,
                     indices: set<Chain>, vertices: set<Chain>, txs: set<Chain>)

  datatype VM = DAG | Linear | Unexpected

  /** What fails when a chain is registered: the marks cannot be read or written, or an index cannot be
      created. */
  datatype Fault = None | Reading | Writing | BlockIndex | VertexIndex | TxIndex

  /** A registration; `primary` tells whether the chain is in the primary network. */
  datatype Registration = Registration(chain: Chain, primary: bool, vm: VM, fault: Fault)

  datatype State = State(flags: Flags, run: Run)

  // ---------- the steps as functions ----------

  function Started(flags: Flags, allowIncompleteIndex: bool, indexingEnabled: bool): State {
    State(flags.(hasRun := true), Run(allowIncompleteIndex, indexingEnabled, flags.hasRun, false, {}, {}, {}))
  }

  function Closed(s: State): State { s.(run := s.run.(closed := true)) }

  /** Registering the chain would make its index incomplete, or it is already. */
  predicate Refused(s: State, chain: Chain) {
    && !s.run.allowIncompleteIndex
    && if s.run.indexingEnabled
       then chain in s.flags.incomplete && (chain in s.flags.previouslyIndexed || s.run.hasRunBefore)
       else chain in s.flags.previouslyIndexed
  }

  function Registered(s: State, r: Registration): State {
    if s.run.closed || !r.primary || r.chain in s.run.indices + s.run.vertices + s.run.txs then s
    else if r.fault.Reading? || Refused(s, r.chain) || r.fault.Writing? then Closed(s)
    else if !s.run.indexingEnabled then s.(flags := s.flags.(incomplete := s.flags.incomplete + {r.chain}))
    else Created(s.(flags := s.flags.(previouslyIndexed := s.flags.previouslyIndexed + {r.chain})), r)
  }

  /** The indices of a chain are created: of blocks, and for a DAG of vertices and transactions. */
  function Created(s: State, r: Registration): State {
    if r.fault.BlockIndex? then Closed(s)
    else
      var blocks := s.(run := s.run.(indices := s.run.indices + {r.chain}));
      match r.vm
      case Linear => blocks
      case Unexpected => Closed(blocks)
      case DAG =>
        if r.fault.VertexIndex? then Closed(blocks)
        else
          var vertices := blocks.(run := blocks.run.(vertices := s.run.vertices + {r.chain}));
          if r.fault.TxIndex? then Closed(vertices) else vertices.(run := vertices.run.(txs := s.run.txs + {r.chain}))
  }

  // ---------- the indexer ----------

  class NodeIndexer {
    var flags: Flags
    var closed: bool
    var indices: set<Chain>
    var vertices: set<Chain>
    var txs: set<Chain>
    const allowIncompleteIndex: bool
    const indexingEnabled: bool
    const hasRunBefore: bool

    ghost function View(): State
      reads this
    {
      State(flags, Run(allowIncompleteIndex, indexingEnabled, hasRunBefore, closed, indices, vertices, txs))
    }

    constructor (db: Flags, allowIncompleteIndex: bool, indexingEnabled: bool)
      ensures View() == Started(db, allowIncompleteIndex, indexingEnabled)
    {
      this.allowIncompleteIndex, this.indexingEnabled, hasRunBefore := allowIncompleteIndex, indexingEnabled, db.hasRun;
      flags, closed, indices, vertices, txs := db.(hasRun := true), false, {}, {}, {};
    }

    method RegisterChain(r: Registration)
      modifies this
      ensures View() == Registered(old(View()), r)
    {
      if closed || !r.primary || r.chain in indices || r.chain in vertices || r.chain in txs { return; }
      if r.fault.Reading? {
        closed := true;
        return;
      }
      var isIncomplete, previouslyIndexed := r.chain in flags.incomplete, r.chain in flags.previouslyIndexed;
      if !indexingEnabled {
        if previouslyIndexed && !allowIncompleteIndex {
          closed := true;
          return;
        }
        if r.fault.Writing? {
          closed := true;
          return;
        }
        flags := flags.(incomplete := flags.incomplete + {r.chain});
        return;
      }
      if !allowIncompleteIndex && isIncomplete && (previouslyIndexed || hasRunBefore) {
        closed := true;
        return;
      }
      if r.fault.Writing? {
        closed := true;
        return;
      }
      flags := flags.(previouslyIndexed := flags.previouslyIndexed + {r.chain});
      CreateIndices(r);
    }

    method CreateIndices(r: Registration)
      modifies this
      ensures View() == Created(old(View()), r)
    {
      if r.fault.BlockIndex? {
        closed := true;
        return;
      }
      indices := indices + {r.chain};
      match r.vm {
        case DAG =>
          if r.fault.VertexIndex? {
            closed := true;
            return;
          }
          vertices := vertices + {r.chain};
          if r.fault.TxIndex? {
            closed := true;
            return;
          }
          txs := txs + {r.chain};
        case Linear =>
        case Unexpected => closed := true;
      }
    }

    method Close()
      modifies this
      ensures View() == Closed(old(View()))
    {
      closed := true;
    }
  }

  // ---------- all runs ----------

  datatype Event = Start(allowIncompleteIndex: bool, indexingEnabled: bool) | Register(r: Registration) | Close

  function Next(s: State, e: Event): State {
    match e
    case Start(allow, enabled) => Started(s.flags, allow, enabled)
    case Register(r) => Registered(s, r)
    case Close => Closed(s)
  }

  /** A fresh database, before the first run. */
  const Initial := State(Flags(false, {}, {}), Run(false, false, false, true, {}, {}, {}))

  function After(events: seq<Event>, n: nat): State
    requires n <= |events|
  {
    if n == 0 then Initial else Next(After(events, n - 1), events[n - 1])
  }

  /** A chain is marked as incomplete only by a run that does not index; in a later run the node has run
      before, so that the mark counts. */
  ghost predicate Valid(s: State) {
    && (s.flags.incomplete != {} ==> s.flags.hasRun)
    && (!s.run.closed ==> s.flags.hasRun)
    && (!s.run.indexingEnabled ==> s.run.indices == {}) && s.run.txs <= s.run.vertices <= s.run.indices
    && (s.run.indexingEnabled && s.flags.incomplete != {} ==> s.run.hasRunBefore)
    && (!s.run.allowIncompleteIndex ==> s.run.indices !! s.flags.incomplete)
    && s.run.indices <= s.flags.previouslyIndexed
  }

  lemma {:induction false} AlwaysValid(events: seq<Event>, n: nat)
    requires n <= |events|
    ensures Valid(After(events, n))
  {
    if n > 0 {
      AlwaysValid(events, n - 1);
      var s, e := After(events, n - 1), events[n - 1];
      if e.Register? { RegisteredKeepsValid(s, e.r); }
    }
  }

  lemma RegisteredKeepsValid(s: State, r: Registration)
    requires Valid(s)
    ensures Valid(Registered(s, r))
  {
  }

  /** The step marks the chain as incomplete. */
  ghost predicate Marks(events: seq<Event>, k: nat, chain: Chain)
    requires k < |events|
  {
    chain !in After(events, k).flags.incomplete && chain in After(events, k + 1).flags.incomplete
  }

  lemma {:induction false} MarksStay(events: seq<Event>, k: nat, n: nat, chain: Chain)
    requires k <= n <= |events| && chain in After(events, k).flags.incomplete
    ensures chain in After(events, n).flags.incomplete
    decreases n
  {
    if k < n { MarksStay(events, k, n - 1, chain); }
  }

  /** Where incomplete indices are not allowed, a chain has an index only if it was never marked as
      incomplete, in this run or in any before it. */
  lemma IndexedIsComplete(events: seq<Event>, n: nat, chain: Chain, k: nat)
    requires k < n <= |events| && !After(events, n).run.allowIncompleteIndex && chain in After(events, n).run.indices
    ensures !Marks(events, k, chain)
  {
    AlwaysValid(events, n);
    if Marks(events, k, chain) { MarksStay(events, k + 1, n, chain); }
  }

  /** A chain of the primary network that is registered with an open indexer ends up with an index, is
      marked as incomplete, or closes the indexer: nothing is missed silently. */
  lemma NothingMissed(events: seq<Event>, n: nat)
    requires n < |events| && events[n].Register? && events[n].r.primary && !After(events, n).run.closed
    ensures var s := After(events, n + 1); var chain := events[n].r.chain;
            s.run.closed || chain in s.run.indices || chain in s.flags.incomplete
    ensures var s := After(events, n + 1); var chain := events[n].r.chain;
            chain in s.run.indices ==> s.run.indexingEnabled && chain in s.flags.previouslyIndexed
    ensures var s := After(events, n + 1); var r := events[n].r;
            !s.run.closed && r.chain !in After(events, n).run.indices && r.chain in s.run.indices ==>
              r.vm != Unexpected && (r.vm.DAG? <==> r.chain in s.run.vertices) && (r.vm.DAG? <==> r.chain in s.run.txs)
  {
    AlwaysValid(events, n);
  }

  /** A chain once indexed is never marked as incomplete while that is not allowed. */
  lemma {:induction false} StaysComplete(events: seq<Event>, k: nat, n: nat, chain: Chain)
    requires k <= n <= |events| && chain in After(events, k).flags.previouslyIndexed
             && chain !in After(events, k).flags.incomplete
    requires forall j :: k <= j <= n ==> !After(events, j).run.allowIncompleteIndex
    ensures chain in After(events, n).flags.previouslyIndexed && chain !in After(events, n).flags.incomplete
    decreases n
  {
    if k < n {
      StaysComplete(events, k, n - 1, chain);
      assert !After(events, n - 1).run.allowIncompleteIndex;
    }
  }

  // ---------- exactly what a registration does ----------

  /** Some earlier step has marked the chain as incomplete. */
  ghost predicate WasMarked(events: seq<Event>, n: nat, chain: Chain)
    requires n <= |events|
  {
    exists k :: 0 <= k < n && Marks(events, k, chain)
  }

  /** The step begins to index the chain, for the first time. */
  ghost predicate Indexes(events: seq<Event>, k: nat, chain: Chain)
    requires k < |events|
  {
    chain !in After(events, k).flags.previouslyIndexed && chain in After(events, k + 1).flags.previouslyIndexed
  }

  ghost predicate WasIndexed(events: seq<Event>, n: nat, chain: Chain)
    requires n <= |events|
  {
    exists k :: 0 <= k < n && Indexes(events, k, chain)
  }

  lemma {:induction false} FlagsRemember(events: seq<Event>, n: nat, chain: Chain)
    requires n <= |events|
    ensures chain in After(events, n).flags.incomplete <==> WasMarked(events, n, chain)
    ensures chain in After(events, n).flags.previouslyIndexed <==> WasIndexed(events, n, chain)
  {
    if n > 0 {
      FlagsRemember(events, n - 1, chain);
      Remembered(events, n - 1, chain);
    }
  }

  lemma Remembered(events: seq<Event>, n: nat, chain: Chain)
    requires n < |events|
    ensures WasMarked(events, n + 1, chain) <==> WasMarked(events, n, chain) || Marks(events, n, chain)
    ensures WasIndexed(events, n + 1, chain) <==> WasIndexed(events, n, chain) || Indexes(events, n, chain)
  {
    if WasMarked(events, n, chain) {
      var k :| 0 <= k < n && Marks(events, k, chain);
      assert 0 <= k < n + 1;
    }
    if WasIndexed(events, n, chain) {
      var k :| 0 <= k < n && Indexes(events, k, chain);
      assert 0 <= k < n + 1;
    }
  }

  /** The node has run before exactly if there was an earlier start. */
  lemma {:induction false} HasRunBefore(events: seq<Event>, n: nat)
    requires n <= |events|
    ensures After(events, n).flags.hasRun <==> exists k :: 0 <= k < n && events[k].Start?
  {
    if n > 0 { HasRunBefore(events, n - 1); }
  }

  /** What fails is needed by this registration. */
  predicate Fails(r: Registration, indexing: bool) {
    || r.fault.Reading? || r.fault.Writing?
    || (indexing && (r.fault.BlockIndex? || r.vm.Unexpected?))
    || (indexing && r.vm.DAG? && (r.fault.VertexIndex? || r.fault.TxIndex?))
  }

  /** The registration counts: the indexer is open, and the chain is of the primary network and not indexed yet. */
  ghost predicate Counts(events: seq<Event>, n: nat)
    requires n < |events|
  {
    var s := After(events, n);
    events[n].Register? && events[n].r.primary && !s.run.closed && events[n].r.chain !in s.run.indices
  }

  /** An indexing run closes on a chain if and only if something fails that it needs, or incomplete indices are not
      allowed and some run has missed the chain; otherwise the chain is indexed. */
  lemma IndexingCloses(events: seq<Event>, n: nat)
    requires n < |events| && Counts(events, n) && After(events, n).run.indexingEnabled
    ensures var s, t, r := After(events, n), After(events, n + 1), events[n].r;
            && (t.run.closed <==> Fails(r, true) || (!s.run.allowIncompleteIndex && WasMarked(events, n, r.chain)))
            && (!t.run.closed ==> r.chain in t.run.indices && Indexed(t, r))
            && t.flags.incomplete == s.flags.incomplete
  {
    AlwaysValid(events, n);
    FlagsRemember(events, n, events[n].r.chain);
  }

  ghost predicate Indexed(s: State, r: Registration) {
    && r.chain in s.flags.previouslyIndexed
    && (r.chain in s.run.vertices <==> r.vm.DAG?) && (r.chain in s.run.txs <==> r.vm.DAG?)
  }

  /** A run that does not index closes on a chain if and only if something fails that it needs, or incomplete indices
      are not allowed and some run has indexed the chain; otherwise the chain is marked. */
  lemma NotIndexingCloses(events: seq<Event>, n: nat)
    requires n < |events| && Counts(events, n) && !After(events, n).run.indexingEnabled
    ensures var s, t, r := After(events, n), After(events, n + 1), events[n].r;
            && (t.run.closed <==> Fails(r, false) || (!s.run.allowIncompleteIndex && WasIndexed(events, n, r.chain)))
            && t.flags.incomplete == s.flags.incomplete + (if t.run.closed then {} else {r.chain})
            && t.run == s.run.(closed := t.run.closed) && t.flags.previouslyIndexed == s.flags.previouslyIndexed
  {
    AlwaysValid(events, n);
    FlagsRemember(events, n, events[n].r.chain);
  }

  /** Everything else that can be registered changes nothing. */
  lemma OthersIgnored(events: seq<Event>, n: nat)
    requires n < |events| && events[n].Register? && !Counts(events, n)
    ensures After(events, n + 1) == After(events, n)
  {
    AlwaysValid(events, n);
  }

  /** Other chains are not touched by a registration. */
  lemma OtherChains(events: seq<Event>, n: nat, chain: Chain)
    requires n < |events| && events[n].Register? && chain != events[n].r.chain
    ensures var s, t := After(events, n), After(events, n + 1);
            && (chain in t.run.indices <==> chain in s.run.indices)
            && (chain in t.run.vertices <==> chain in s.run.vertices) && (chain in t.run.txs <==> chain in s.run.txs)
            && (chain in t.flags.incomplete <==> chain in s.flags.incomplete)
            && (chain in t.flags.previouslyIndexed <==> chain in s.flags.previouslyIndexed)
            && t.flags.hasRun == s.flags.hasRun
  {
  }

  /** A start opens an indexer without indices that goes on with what was kept; after an end nothing changes. */
  lemma StartsAndEnds(events: seq<Event>, n: nat)
    requires n < |events| && !events[n].Register?
    ensures var s, t := After(events, n), After(events, n + 1);
            && t.flags.incomplete == s.flags.incomplete && t.flags.previouslyIndexed == s.flags.previouslyIndexed
            && (events[n].Close? ==> t.run.closed && t.run.indices == s.run.indices)
            && (events[n].Start? ==>
                && !t.run.closed && t.run.indices == t.run.vertices == t.run.txs == {}
                && t.run.allowIncompleteIndex == events[n].allowIncompleteIndex
                && t.run.indexingEnabled == events[n].indexingEnabled
                && (t.run.hasRunBefore <==> exists k :: 0 <= k < n && events[k].Start?))
  {
    HasRunBefore(events, n);
  }
}
