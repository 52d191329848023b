/** The shared memory of all chains (chains/atomic/shared_memory.go, memory.go, prefixes.go): where
    the messages from one chain to another are kept, and why the order in which chains are
    executed does not matter. */
module AtomicMemory {
  import opened ByteStrings
  import opened AtomicState

  // ---------- what happens to one store, whatever the order ----------

  datatype Op = Put(e: Element) | Remove(key: Bytes)

  function Perform(s: Store, op: Op): Result<Store> {
    match op
    case Put(e) => SetValue(s, e)
    case Remove(key) => RemoveValue(s, key)
  }

  function Run(s: Store, ops: seq<Op>): Result<Store>
    decreases |ops|
  {
    if ops == [] then Ok(s)
    else
      var r := Perform(s, ops[0]);
      if r.Err? then r else Run(r.value, ops[1..])
  }

  function Puts(ops: seq<Op>): seq<Element> {
    if ops == [] then [] else (if ops[0].Put? then [ops[0].e] else []) + Puts(ops[1..])
  }

  function Removes(ops: seq<Op>): seq<Bytes> {
    if ops == [] then [] else (if ops[0].Remove? then [ops[0].key] else []) + Removes(ops[1..])
  }

  function Elements(s: seq<Bytes>): set<Bytes> { set k | k in s }

  function PutKeys(puts: seq<Element>): (ks: seq<Bytes>)
    ensures |ks| == |puts| && forall i :: 0 <= i < |ks| ==> ks[i] == puts[i].key
  {
    seq(|puts|, i requires 0 <= i < |puts| => puts[i].key)
  }

  /** The keys that are listed under `t` in the end: those put with that trait and not removed,
      last put first. */
  function Listed(puts: seq<Element>, removed: set<Bytes>, t: Bytes): seq<Bytes> {
    if puts == [] then []
    else
      var e := puts[|puts| - 1];
      (if e.key !in removed && t in e.traits then [e.key] else []) + Listed(puts[..|puts| - 1], removed, t)
  }

  /** What remains once these elements have been put and these keys removed, in any order: an
      element that was put and not removed, a marker for a key that was removed and not put. */
  ghost predicate IsOutcome(s: Store, puts: seq<Element>, removed: set<Bytes>) {
    && (forall k :: k in s.values <==> (k in PutKeys(puts)) != (k in removed))
    && (forall k :: k in removed && k !in PutKeys(puts) ==> s.values[k] == Marker)
    && (forall i :: 0 <= i < |puts| && puts[i].key !in removed ==>
          puts[i].key in s.values && s.values[puts[i].key] == Present(puts[i].value, puts[i].traits))
    && (forall t :: KeysOf(s.index, t) == Listed(puts, removed, t))
    && (forall t :: t in s.index ==> s.index[t] != [])
  }

  lemma OutcomeIsUnique(a: Store, b: Store, puts: seq<Element>, removed: set<Bytes>)
    requires IsOutcome(a, puts, removed) && IsOutcome(b, puts, removed)
    ensures a == b
  {
    forall k | k in a.values ensures a.values[k] == b.values[k] {
      if k in PutKeys(puts) { var i :| 0 <= i < |puts| && puts[i].key == k; }
    }
    forall t ensures t in a.index <==> t in b.index { assert KeysOf(a.index, t) == KeysOf(b.index, t); }
    forall t | t in a.index ensures a.index[t] == b.index[t] { assert KeysOf(a.index, t) == KeysOf(b.index, t); }
  }

  lemma {:induction false} ListedKeys(puts: seq<Element>, removed: set<Bytes>, t: Bytes, k: Bytes)
    requires k in Listed(puts, removed, t)
    ensures k in PutKeys(puts) && k !in removed
  {
    var n := |puts| - 1;
    if k == puts[n].key && k !in removed {
      assert PutKeys(puts)[n] == k;
    } else {
      ListedKeys(puts[..n], removed, t, k);
      assert PutKeys(puts) == PutKeys(puts[..n]) + [puts[n].key];
    }
  }

  lemma {:induction false} ListedWithout(puts: seq<Element>, removed: set<Bytes>, t: Bytes, k: Bytes)
    ensures Listed(puts, removed + {k}, t) == ListDelete(Listed(puts, removed, t), k)
  {
    if puts != [] {
      var n := |puts| - 1;
      ListedWithout(puts[..n], removed, t, k);
      var rest := Listed(puts[..n], removed, t);
      assert ([puts[n].key] + rest)[1..] == rest && [] + rest == rest;
    }
  }

  lemma {:induction false} ListDeleteAbsent(l: seq<Bytes>, k: Bytes)
    requires k !in l
    ensures ListDelete(l, k) == l
  {
    if l != [] { ListDeleteAbsent(l[1..], k); }
  }

  /** Only the traits of its element list a key. */
  lemma {:induction false} ListedTraits(puts: seq<Element>, removed: set<Bytes>, t: Bytes, i: nat)
    requires i < |puts| && NoDuplicates(PutKeys(puts)) && t !in puts[i].traits
    ensures puts[i].key !in Listed(puts, removed, t)
  {
    var n := |puts| - 1;
    var k := puts[i].key;
    assert PutKeys(puts) == PutKeys(puts[..n]) + [puts[n].key];
    if i < n {
      assert PutKeys(puts)[i] != PutKeys(puts)[n];
      forall a, b | 0 <= a < b < n ensures PutKeys(puts[..n])[a] != PutKeys(puts[..n])[b] {
        assert PutKeys(puts)[a] != PutKeys(puts)[b];
      }
      ListedTraits(puts[..n], removed, t, i);
    } else {
      forall j | 0 <= j < n ensures PutKeys(puts[..n])[j] != k { assert PutKeys(puts)[j] != PutKeys(puts)[n]; }
      if k in Listed(puts[..n], removed, t) { ListedKeys(puts[..n], removed, t, k); }
    }
  }

  lemma PutKeysAppend(puts: seq<Element>, e: Element)
    ensures PutKeys(puts + [e]) == PutKeys(puts) + [e.key]
  {
  }

  lemma PutStep(s: Store, puts: seq<Element>, removed: set<Bytes>, e: Element)
    requires IsOutcome(s, puts, removed) && e.key !in PutKeys(puts)
    ensures SetValue(s, e).Ok? && IsOutcome(SetValue(s, e).value, puts + [e], removed)
  {
    var all := puts + [e];
    PutKeysAppend(puts, e);
    assert all[..|all| - 1] == puts;
    var r := SetValue(s, e).value;
    forall t ensures KeysOf(r.index, t) == Listed(all, removed, t) {
      assert KeysOf(s.index, t) == Listed(puts, removed, t);
      if e.key in KeysOf(s.index, t) { ListedKeys(puts, removed, t, e.key); }
    }
    forall i | 0 <= i < |all| && all[i].key !in removed
      ensures all[i].key in r.values && r.values[all[i].key] == Present(all[i].value, all[i].traits)
    {
      if i < |puts| { assert PutKeys(puts)[i] == all[i].key; }
    }
  }

  lemma RemoveStep(s: Store, puts: seq<Element>, removed: set<Bytes>, key: Bytes)
    requires IsOutcome(s, puts, removed) && key !in removed && NoDuplicates(PutKeys(puts))
    ensures RemoveValue(s, key).Ok? && IsOutcome(RemoveValue(s, key).value, puts, removed + {key})
  {
    var r := RemoveValue(s, key).value;
    forall t ensures KeysOf(r.index, t) == Listed(puts, removed + {key}, t) {
      ListedWithout(puts, removed, t, key);
      assert KeysOf(s.index, t) == Listed(puts, removed, t);
      if key in PutKeys(puts) {
        var i :| 0 <= i < |puts| && puts[i].key == key;
        assert s.values[key] == Present(puts[i].value, puts[i].traits);
        if t !in puts[i].traits {
          ListedTraits(puts, removed, t, i);
          ListDeleteAbsent(KeysOf(s.index, t), key);
        }
      } else {
        if key in KeysOf(s.index, t) { ListedKeys(puts, removed, t, key); }
        ListDeleteAbsent(KeysOf(s.index, t), key);
      }
    }
    forall i | 0 <= i < |puts| && puts[i].key !in removed + {key}
      ensures puts[i].key in r.values && r.values[puts[i].key] == Present(puts[i].value, puts[i].traits)
    {
      assert puts[i].key in s.values;
    }
  }

  ghost predicate Once(ops: seq<Op>) {
    NoDuplicates(PutKeys(Puts(ops))) && NoDuplicates(Removes(ops))
  }

  /** If no key is put twice and none is removed twice, every operation succeeds and what remains
      does not depend on how puts and removals follow each other. */
  lemma {:induction false} RunOutcome(s: Store, puts: seq<Element>, removed: seq<Bytes>, ops: seq<Op>)
    requires IsOutcome(s, puts, Elements(removed))
    requires NoDuplicates(PutKeys(puts + Puts(ops))) && NoDuplicates(removed + Removes(ops))
    ensures Run(s, ops).Ok?
    ensures IsOutcome(Run(s, ops).value, puts + Puts(ops), Elements(removed + Removes(ops)))
    decreases |ops|
  {
    if ops == [] {
      assert puts + Puts(ops) == puts && removed + Removes(ops) == removed;
    } else {
      match ops[0]
      case Put(e) =>
        assert puts + Puts(ops) == puts + [e] + Puts(ops[1..]) && removed + Removes(ops) == removed + Removes(ops[1..]);
        DistinctPrefix(PutKeys(puts), e.key, PutKeys(puts + Puts(ops)));
        PutStep(s, puts, Elements(removed), e);
        RunOutcome(SetValue(s, e).value, puts + [e], removed, ops[1..]);
      case Remove(key) =>
        assert puts + Puts(ops) == puts + Puts(ops[1..])
               && removed + Removes(ops) == removed + [key] + Removes(ops[1..]);
        DistinctPrefix(removed, key, removed + Removes(ops));
        DistinctPutKeys(puts, Puts(ops));
        RemoveStep(s, puts, Elements(removed), key);
        assert Elements(removed + [key]) == Elements(removed) + {key};
        RunOutcome(RemoveValue(s, key).value, puts, removed + [key], ops[1..]);
    }
  }

  lemma DistinctPrefix(a: seq<Bytes>, x: Bytes, all: seq<Bytes>)
    requires NoDuplicates(all) && a + [x] <= all
    ensures x !in a
  {
    assert all[|a|] == x;
    forall i | 0 <= i < |a| ensures a[i] != x { assert all[i] == a[i]; }
  }

  lemma DistinctPutKeys(puts: seq<Element>, more: seq<Element>)
    requires NoDuplicates(PutKeys(puts + more))
    ensures NoDuplicates(PutKeys(puts))
  {
    forall i, j | 0 <= i < j < |puts| ensures PutKeys(puts)[i] != PutKeys(puts)[j] {
      assert PutKeys(puts + more)[i] != PutKeys(puts + more)[j];
    }
  }

  lemma RunFromEmpty(ops: seq<Op>)
    requires Once(ops)
    ensures Run(Empty, ops).Ok? && IsOutcome(Run(Empty, ops).value, Puts(ops), Elements(Removes(ops)))
  {
    assert [] + Puts(ops) == Puts(ops) && [] + Removes(ops) == Removes(ops);
    RunOutcome(Empty, [], [], ops);
  }

  // ---------- where messages are kept (chains/atomic/prefixes.go, sharedID of memory.go) ----------

  type ID = nat

  datatype Prefixes = Prefixes(smallerValue: nat, smallerIndex: nat, largerValue: nat, largerIndex: nat)

  const Inbound := Prefixes(0, 1, 2, 3)
  const Outbound := Prefixes(2, 3, 0, 1)

  /** The store of one direction between two chains: the shared ID, which stands for the hash of the
      ordered pair of chains, and the prefixes of its two databases. */
  datatype Box = Box(lo: ID, hi: ID, valuePrefix: nat, indexPrefix: nat)

  function Locate(p: Prefixes, me: ID, peer: ID): Box {
    var lo, hi := if me > peer then peer else me, if me > peer then me else peer;
    if me < peer then Box(lo, hi, p.smallerValue, p.smallerIndex) else Box(lo, hi, p.largerValue, p.largerIndex)
  }

  function Inbox(me: ID, peer: ID): Box { Locate(Inbound, me, peer) }

  function Outbox(me: ID, peer: ID): Box { Locate(Outbound, me, peer) }

  /** What one chain sends is what the other receives, and nobody else; a chain that sends to itself
      receives nothing. */
  lemma Mirrored(a: ID, b: ID, c: ID, d: ID)
    ensures Inbox(a, b) == Inbox(c, d) <==> a == c && b == d
    ensures Outbox(a, b) == Outbox(c, d) <==> a == c && b == d
    ensures Outbox(a, b) == Inbox(c, d) <==> a != b && c == b && d == a
  {
  }

  // ---------- sharedMemory.Apply ----------

  datatype Requests = Requests(removes: seq<Bytes>, puts: seq<Element>)

  datatype Call = Call(chain: ID, requests: map<ID, Requests>)

  type Memory = map<Box, Store>

  function At(mem: Memory, b: Box): Store { if b in mem then mem[b] else Empty }

  function PutOps(es: seq<Element>): (ops: seq<Op>)
    ensures |ops| == |es| && forall i :: 0 <= i < |es| ==> ops[i] == Put(es[i])
  {
    seq(|es|, i requires 0 <= i < |es| => Put(es[i]))
  }

  function RemoveOps(ks: seq<Bytes>): (ops: seq<Op>)
    ensures |ops| == |ks| && forall i :: 0 <= i < |ks| ==> ops[i] == Remove(ks[i])
  {
    seq(|ks|, i requires 0 <= i < |ks| => Remove(ks[i]))
  }

  /** What a call does to one store: nothing, the removals it requests or the puts it requests. */
  function StepOps(call: Call, b: Box): seq<Op> {
    var peer := if call.chain == b.lo then b.hi else b.lo;
    if peer !in call.requests then []
    else if Inbox(call.chain, peer) == b then RemoveOps(call.requests[peer].removes)
    else if Outbox(call.chain, peer) == b then PutOps(call.requests[peer].puts)
    else []
  }

  /** The call succeeds and takes `mem` to `next`. */
  ghost predicate Applied(mem: Memory, call: Call, next: Memory) {
    forall b :: Run(At(mem, b), StepOps(call, b)) == Ok(At(next, b))
  }

  datatype BatchOp = PutBytes(key: Bytes, value: Bytes) | DeleteBytes(key: Bytes)

  function WriteBatch(db: map<Bytes, Bytes>, ops: seq<BatchOp>): map<Bytes, Bytes> {
    if ops == [] then db
    else
      var before := WriteBatch(db, ops[..|ops| - 1]);
      match ops[|ops| - 1]
      case PutBytes(k, v) => before[k := v]
      case DeleteBytes(k) => before - {k}
  }

  function Concat(batches: seq<seq<BatchOp>>): seq<BatchOp> {
    if batches == [] then [] else Concat(batches[..|batches| - 1]) + batches[|batches| - 1]
  }

  /** Operation `j` of batch `i` is the last one that names the key, in this batch and in all later ones. */
  ghost predicate IsLast(batches: seq<seq<BatchOp>>, i: nat, j: nat, k: Bytes) {
    && i < |batches| && j < |batches[i]| && batches[i][j].key == k
    && (forall y :: j < y < |batches[i]| ==> batches[i][y].key != k)
    && (forall x, y :: i < x < |batches| && 0 <= y < |batches[x]| ==> batches[x][y].key != k)
  }

  ghost predicate IsNamed(batches: seq<seq<BatchOp>>, k: Bytes) {
    exists x, y :: 0 <= x < |batches| && 0 <= y < |batches[x]| && batches[x][y].key == k
  }

  /** Key by key: the last operation that names the key decides, and a key that is not named stays as it is. */
  ghost predicate AreWritten(before: map<Bytes, Bytes>, after: map<Bytes, Bytes>, batches: seq<seq<BatchOp>>) {
    && (forall k, i: nat, j: nat :: IsLast(batches, i, j, k) ==> HasWritten(after, batches[i][j]))
    && (forall k :: !IsNamed(batches, k) ==> SameAt(before, after, k))
  }

  ghost predicate HasWritten(db: map<Bytes, Bytes>, op: BatchOp) {
    match op
    case PutBytes(k, v) => k in db && db[k] == v
    case DeleteBytes(k) => k !in db
  }

  ghost predicate SameAt(a: map<Bytes, Bytes>, b: map<Bytes, Bytes>, k: Bytes) {
    (k in a <==> k in b) && (k in a ==> a[k] == b[k])
  }

  lemma {:induction false} LastDecides(db: map<Bytes, Bytes>, ops: seq<BatchOp>, i: nat)
    requires i < |ops| && forall j :: i < j < |ops| ==> ops[j].key != ops[i].key
    ensures HasWritten(WriteBatch(db, ops), ops[i])
  {
    if i < |ops| - 1 { LastDecides(db, ops[..|ops| - 1], i); }
  }

  lemma {:induction false} OthersStay(db: map<Bytes, Bytes>, ops: seq<BatchOp>, k: Bytes)
    requires forall j :: 0 <= j < |ops| ==> ops[j].key != k
    ensures SameAt(db, WriteBatch(db, ops), k)
  {
    if ops != [] { OthersStay(db, ops[..|ops| - 1], k); }
  }

  /** Where operation `j` of batch `i` stands in all of them, and that everything there comes from a batch. */
  lemma {:induction false} ConcatAt(batches: seq<seq<BatchOp>>, i: nat, j: nat) returns (p: nat)
    requires i < |batches| && j < |batches[i]|
    ensures p < |Concat(batches)| && Concat(batches)[p] == batches[i][j]
    ensures forall q :: p < q < |Concat(batches)| ==> IsLater(batches, i, j, Concat(batches)[q])
  {
    var n := |batches| - 1;
    var init := batches[..n];
    if i == n {
      p := |Concat(init)| + j;
      forall q | p < q < |Concat(batches)| ensures IsLater(batches, i, j, Concat(batches)[q]) {
        assert Concat(batches)[q] == batches[n][q - |Concat(init)|];
      }
    } else {
      p := ConcatAt(init, i, j);
      forall q | p < q < |Concat(batches)| ensures IsLater(batches, i, j, Concat(batches)[q]) {
        if q < |Concat(init)| {
          LaterStill(batches, i, j, Concat(init)[q]);
        } else {
          assert Concat(batches)[q] == batches[n][q - |Concat(init)|];
        }
      }
    }
  }

  ghost predicate IsLater(batches: seq<seq<BatchOp>>, i: nat, j: nat, op: BatchOp) {
    exists x, y :: 0 <= x < |batches| && 0 <= y < |batches[x]| && batches[x][y] == op && (x > i || (x == i && y > j))
  }

  lemma LaterStill(batches: seq<seq<BatchOp>>, i: nat, j: nat, op: BatchOp)
    requires batches != [] && IsLater(batches[..|batches| - 1], i, j, op)
    ensures IsLater(batches, i, j, op)
  {
    var init := batches[..|batches| - 1];
    var x, y :| 0 <= x < |init| && 0 <= y < |init[x]| && init[x][y] == op && (x > i || (x == i && y > j));
    assert init[x] == batches[x];
  }

  lemma {:induction false} ConcatNames(batches: seq<seq<BatchOp>>, q: nat)
    requires q < |Concat(batches)|
    ensures IsNamed(batches, Concat(batches)[q].key)
  {
    var n := |batches| - 1;
    var init := batches[..n];
    if q < |Concat(init)| {
      ConcatNames(init, q);
      var x, y :| 0 <= x < |init| && 0 <= y < |init[x]| && init[x][y].key == Concat(init)[q].key;
      assert batches[x] == init[x];
    } else {
      assert Concat(batches)[q] == batches[n][q - |Concat(init)|];
    }
  }

  /** A key that is named is named last somewhere, so that the result is determined. */
  lemma {:induction false} HasLast(batches: seq<seq<BatchOp>>, k: Bytes) returns (i: nat, j: nat)
    requires IsNamed(batches, k)
    ensures IsLast(batches, i, j, k)
  {
    var n := |batches| - 1;
    if y :| 0 <= y < |batches[n]| && batches[n][y].key == k {
      i := n;
      j := LastIn(batches[n], k, y);
    } else {
      var init := batches[..n];
      var x, y :| 0 <= x < |batches| && 0 <= y < |batches[x]| && batches[x][y].key == k;
      assert init[x] == batches[x];
      i, j := HasLast(init, k);
    }
  }

  lemma {:induction false} LastIn(ops: seq<BatchOp>, k: Bytes, y: nat) returns (j: nat)
    requires y < |ops| && ops[y].key == k
    ensures y <= j < |ops| && ops[j].key == k && forall z :: j < z < |ops| ==> ops[z].key != k
    decreases |ops| - y
  {
    if z :| y < z < |ops| && ops[z].key == k { j := LastIn(ops, k, z); } else { j := y; }
  }

  lemma WrittenOnce(db: map<Bytes, Bytes>, a: map<Bytes, Bytes>, b: map<Bytes, Bytes>, batches: seq<seq<BatchOp>>)
    requires AreWritten(db, a, batches) && AreWritten(db, b, batches)
    ensures a == b
  {
    forall k ensures SameAt(a, b, k) {
      if IsNamed(batches, k) {
        var i, j := HasLast(batches, k);
        assert HasWritten(a, batches[i][j]) && HasWritten(b, batches[i][j]);
      } else {
        assert SameAt(db, a, k) && SameAt(db, b, k);
      }
    }
    assert a.Keys == b.Keys by { forall k ensures k in a <==> k in b { assert SameAt(a, b, k); } }
    forall k | k in a ensures a[k] == b[k] { assert SameAt(a, b, k); }
  }

  lemma BatchesWrite(db: map<Bytes, Bytes>, batches: seq<seq<BatchOp>>)
    ensures AreWritten(db, WriteBatch(db, Concat(batches)), batches)
  {
    var ops := Concat(batches);
    forall k, i: nat, j: nat | IsLast(batches, i, j, k) ensures HasWritten(WriteBatch(db, ops), batches[i][j]) {
      var p := ConcatAt(batches, i, j);
      forall q | p < q < |ops| ensures ops[q].key != k { assert IsLater(batches, i, j, ops[q]); }
      LastDecides(db, ops, p);
    }
    forall k | !IsNamed(batches, k) ensures SameAt(db, WriteBatch(db, ops), k) {
      forall q | 0 <= q < |ops| ensures ops[q].key != k { ConcatNames(batches, q); }
      OthersStay(db, ops, k);
    }
  }

  class SharedMemory {
    var memory: Memory
    /** The rest of the database, which the batches of a chain write to. */
    var rest: map<Bytes, Bytes>

    constructor ()
      ensures memory == map[] && rest == map[]
    {
      memory, rest := map[], map[];
    }

    /** All requests and all batches take effect, or none of them does. */
    method Apply(chain: ID, requests: map<ID, Requests>, batches: seq<seq<BatchOp>>) returns (r: Result<()>)
      modifies this
      ensures r.Ok? ==> Applied(old(memory), Call(chain, requests), memory) && AreWritten(old(rest), rest, batches)
      ensures r.Err? ==> memory == old(memory) && rest == old(rest)
      ensures r.Err? ==> exists b :: Run(old(At(memory, b)), StepOps(Call(chain, requests), b)).Err?
    {
      var vdb := memory;
      var left := requests.Keys;
      assert Restrict(requests, requests.Keys - left) == map[];
      while left != {}
        invariant left <= requests.Keys && memory == old(memory) && rest == old(rest)
        invariant Applied(memory, Call(chain, Restrict(requests, requests.Keys - left)), vdb)
        decreases left
      {
        var peer :| peer in left;
        ghost var done := requests.Keys - left;
        Untouched(chain, requests, done, peer);
        var next;
        r, next := ApplyPeer(vdb, chain, peer, requests[peer]);
        if r.Err? { return; }
        vdb := next;
        OnePeerMore(chain, requests, done, peer);
        left := left - {peer};
        assert requests.Keys - left == done + {peer};
      }
      assert Restrict(requests, requests.Keys) == requests;
      var base := ReplayAll(batches);
      memory := vdb;
      BatchesWrite(rest, batches);
      rest := WriteBatch(rest, base);
      r := Ok(());
    }

    /** The values that `peer` has sent, one for each key, or an error if one of them is not there. */
    method Get(me: ID, peer: ID, keys: seq<Bytes>) returns (r: Result<seq<Bytes>>)
      ensures r.Ok? <==> forall i :: 0 <= i < |keys| ==> ValueOf(At(memory, Inbox(me, peer)), keys[i]).Ok?
      ensures r.Ok? ==> |r.value| == |keys|
      ensures r.Ok? ==> forall i :: 0 <= i < |keys| ==>
                r.value[i] == ValueOf(At(memory, Inbox(me, peer)), keys[i]).value.value
      ensures r.Err? ==> r.error == NotFound
    {
      var s := At(memory, Inbox(me, peer));
      var state := new State(s);
      var values := [];
      for i := 0 to |keys|
        invariant |values| == i && state.View() == s
        invariant forall j :: 0 <= j < i ==> ValueOf(s, keys[j]).Ok? && values[j] == ValueOf(s, keys[j]).value.value
      {
        var e := state.Value(keys[i]);
        if e.Err? { return Err(e.error); }
        values := values + [e.value.value];
      }
      return Ok(values);
    }
  }

  /** Puts the operations of all batches into one (chains/atomic/writer.go). */
  method ReplayAll(batches: seq<seq<BatchOp>>) returns (base: seq<BatchOp>)
    ensures base == Concat(batches)
  {
    base := [];
    for i := 0 to |batches|
      invariant base == Concat(batches[..i])
    {
      assert batches[..i + 1][..i] == batches[..i];
      base := base + batches[i];
    }
    assert batches[..|batches|] == batches;
  }

  /** Removes from the inbox of one peer, then puts into its outbox. */
  method ApplyPeer(mem: Memory, chain: ID, peer: ID, req: Requests) returns (r: Result<()>, next: Memory)
    ensures r.Err? ==> Run(At(mem, Inbox(chain, peer)), RemoveOps(req.removes)).Err?
                       || Run(At(mem, Outbox(chain, peer)), PutOps(req.puts)).Err?
    ensures r.Ok? ==> forall b ::
              Ok(At(next, b)) == if b == Inbox(chain, peer) then Run(At(mem, b), RemoveOps(req.removes))
                                                     else if b == Outbox(chain, peer)
                                                          then Run(At(mem, b), PutOps(req.puts))
                                                     else Ok(At(mem, b))
  {
    Mirrored(chain, peer, chain, peer);
    var after;
    r, after := ApplyOps(At(mem, Inbox(chain, peer)), RemoveOps(req.removes));
    next := mem[Inbox(chain, peer) := after];
    if r.Err? { return; }
    r, after := ApplyOps(At(next, Outbox(chain, peer)), PutOps(req.puts));
    next := next[Outbox(chain, peer) := after];
  }

  /** Performs the operations on one store, stopping at the first error. */
  method ApplyOps(s: Store, ops: seq<Op>) returns (r: Result<()>, after: Store)
    ensures match Run(s, ops) case Ok(t) => r.Ok? && after == t case Err(e) => r == Err(e)
  {
    var state := new State(s);
    for i := 0 to |ops|
      invariant Run(s, ops) == Run(state.View(), ops[i..])
    {
      assert ops[i..][1..] == ops[i + 1..];
      match ops[i] {
        case Put(e) => r := state.Put(e);
        case Remove(key) => r := state.Remove(key);
      }
      if r.Err? { return r, s; }
    }
    assert ops[|ops|..] == [];
    r, after := Ok(()), Store(state.valueDB, state.indexDB);
  }

  function Restrict<K, V>(m: map<K, V>, keys: set<K>): map<K, V> {
    map k | k in m && k in keys :: m[k]
  }

  lemma Untouched(chain: ID, requests: map<ID, Requests>, done: set<ID>, peer: ID)
    requires peer in requests && peer !in done
    ensures StepOps(Call(chain, Restrict(requests, done)), Inbox(chain, peer)) == []
    ensures StepOps(Call(chain, Restrict(requests, done)), Outbox(chain, peer)) == []
    ensures StepOps(Call(chain, requests), Inbox(chain, peer)) == RemoveOps(requests[peer].removes)
    ensures StepOps(Call(chain, requests), Outbox(chain, peer)) == PutOps(requests[peer].puts)
    ensures Inbox(chain, peer) != Outbox(chain, peer)
  {
    Mirrored(chain, peer, chain, peer);
  }

  lemma OnePeerMore(chain: ID, requests: map<ID, Requests>, done: set<ID>, peer: ID)
    requires peer in requests && peer !in done
    ensures forall b :: StepOps(Call(chain, Restrict(requests, done + {peer})), b) ==
                        if b == Inbox(chain, peer) then RemoveOps(requests[peer].removes)
                        else if b == Outbox(chain, peer) then PutOps(requests[peer].puts)
                        else StepOps(Call(chain, Restrict(requests, done)), b)
  {
    forall b ensures StepOps(Call(chain, Restrict(requests, done + {peer})), b) ==
                     if b == Inbox(chain, peer) then RemoveOps(requests[peer].removes)
                     else if b == Outbox(chain, peer) then PutOps(requests[peer].puts)
                     else StepOps(Call(chain, Restrict(requests, done)), b)
    {
      Mirrored(chain, peer, chain, peer);
    }
  }

  // ---------- many chains, in any order ----------

  /** `mem` is where the calls, made one after the other, lead from `start`. */
  ghost predicate Reaches(start: Memory, calls: seq<Call>, mem: Memory)
    decreases |calls|
  {
    if calls == [] then forall b :: At(start, b) == At(mem, b)
    else
      var n := |calls| - 1;
      exists mid :: Reaches(start, calls[..n], mid) && Applied(mid, calls[n], mem)
  }

  /** The operations that the calls perform on one store. */
  function BoxOps(calls: seq<Call>, b: Box): seq<Op>
    decreases |calls|
  {
    if calls == [] then [] else BoxOps(calls[..|calls| - 1], b) + StepOps(calls[|calls| - 1], b)
  }

  /** What one chain does. */
  function History(calls: seq<Call>, chain: ID): seq<Call>
    decreases |calls|
  {
    if calls == [] then []
    else History(calls[..|calls| - 1], chain) + (if calls[|calls| - 1].chain == chain then [calls[|calls| - 1]] else [])
  }

  lemma {:induction false} RunConcat(s: Store, a: seq<Op>, b: seq<Op>)
    requires Run(s, a).Ok?
    ensures Run(s, a + b) == Run(Run(s, a).value, b)
    decreases |a|
  {
    if a == [] {
      assert a + b == b;
    } else {
      assert (a + b)[1..] == a[1..] + b;
      RunConcat(Perform(s, a[0]).value, a[1..], b);
    }
  }

  /** The calls act on each store separately. */
  lemma {:induction false} ReachesRuns(calls: seq<Call>, mem: Memory, b: Box)
    requires Reaches(map[], calls, mem)
    ensures Run(Empty, BoxOps(calls, b)) == Ok(At(mem, b))
    decreases |calls|
  {
    if calls == [] {
      assert At(map[], b) == At(mem, b);
    } else {
      var n := |calls| - 1;
      var mid :| Reaches(map[], calls[..n], mid) && Applied(mid, calls[n], mem);
      ReachesRuns(calls[..n], mid, b);
      RunConcat(Empty, BoxOps(calls[..n], b), StepOps(calls[n], b));
    }
  }

  lemma {:induction false} PutsConcat(a: seq<Op>, b: seq<Op>)
    ensures Puts(a + b) == Puts(a) + Puts(b)
  {
    if a == [] {
      assert a + b == b;
    } else {
      var head := if a[0].Put? then [a[0].e] else [];
      assert (a + b)[0] == a[0] && (a + b)[1..] == a[1..] + b;
      PutsConcat(a[1..], b);
      assert Puts(a + b) == head + Puts(a[1..] + b);
      assert head + (Puts(a[1..]) + Puts(b)) == (head + Puts(a[1..])) + Puts(b);
    }
  }

  lemma {:induction false} RemovesConcat(a: seq<Op>, b: seq<Op>)
    ensures Removes(a + b) == Removes(a) + Removes(b)
  {
    if a == [] {
      assert a + b == b;
    } else {
      var head := if a[0].Remove? then [a[0].key] else [];
      assert (a + b)[0] == a[0] && (a + b)[1..] == a[1..] + b;
      RemovesConcat(a[1..], b);
      assert Removes(a + b) == head + Removes(a[1..] + b);
      assert head + (Removes(a[1..]) + Removes(b)) == (head + Removes(a[1..])) + Removes(b);
    }
  }

  lemma OpsConcat(a: seq<Op>, b: seq<Op>)
    ensures Puts(a + b) == Puts(a) + Puts(b) && Removes(a + b) == Removes(a) + Removes(b)
  {
    PutsConcat(a, b);
    RemovesConcat(a, b);
  }

  /** The chain that puts elements into a store, and the one that removes them. */
  function Sender(b: Box): ID { if b.valuePrefix == 0 then b.hi else b.lo }

  function Receiver(b: Box): ID { if b.valuePrefix == 0 then b.lo else b.hi }

  lemma {:induction false} PutOpsPuts(es: seq<Element>)
    ensures Puts(PutOps(es)) == es && Removes(PutOps(es)) == []
  {
    if es != [] {
      assert PutOps(es)[1..] == PutOps(es[1..]);
      PutOpsPuts(es[1..]);
    }
  }

  lemma {:induction false} RemoveOpsRemoves(ks: seq<Bytes>)
    ensures Removes(RemoveOps(ks)) == ks && Puts(RemoveOps(ks)) == []
  {
    if ks != [] {
      assert RemoveOps(ks)[1..] == RemoveOps(ks[1..]);
      RemoveOpsRemoves(ks[1..]);
    }
  }

  lemma OnlySenderPuts(call: Call, b: Box)
    ensures call.chain != Sender(b) ==> Puts(StepOps(call, b)) == []
    ensures call.chain != Receiver(b) ==> Removes(StepOps(call, b)) == []
  {
    var peer := if call.chain == b.lo then b.hi else b.lo;
    if peer in call.requests {
      PutOpsPuts(call.requests[peer].puts);
      RemoveOpsRemoves(call.requests[peer].removes);
    }
  }

  lemma {:induction false} OpsOfHistory(calls: seq<Call>, b: Box)
    ensures Puts(BoxOps(calls, b)) == Puts(BoxOps(History(calls, Sender(b)), b))
    ensures Removes(BoxOps(calls, b)) == Removes(BoxOps(History(calls, Receiver(b)), b))
    decreases |calls|
  {
    if calls != [] {
      var n := |calls| - 1;
      var last := calls[n];
      OpsOfHistory(calls[..n], b);
      OnlySenderPuts(last, b);
      OpsConcat(BoxOps(calls[..n], b), StepOps(last, b));
      HistoryStep(calls, b, Sender(b));
      HistoryStep(calls, b, Receiver(b));
    }
  }

  lemma HistoryStep(calls: seq<Call>, b: Box, chain: ID)
    requires calls != []
    ensures var n := |calls| - 1;
            var before, after := BoxOps(History(calls[..n], chain), b), BoxOps(History(calls, chain), b);
            if calls[n].chain == chain then
              && Puts(after) == Puts(before) + Puts(StepOps(calls[n], b))
              && Removes(after) == Removes(before) + Removes(StepOps(calls[n], b))
            else after == before
  {
    var n := |calls| - 1;
    var h := History(calls[..n], chain);
    if calls[n].chain == chain {
      assert (h + [calls[n]])[..|h|] == h;
      OpsConcat(BoxOps(h, b), StepOps(calls[n], b));
    } else {
      assert h + [] == h;
    }
  }

  /** No key is put twice into a store, and none is removed twice from it. */
  ghost predicate EachOnce(calls: seq<Call>) {
    forall b :: Once(BoxOps(calls, b))
  }

  /** Order independence: two runs in which every chain does the same, however the chains take
      turns, end with the same elements, markers and lists of keys. */
  lemma OrderIndependence(calls: seq<Call>, calls': seq<Call>, mem: Memory, mem': Memory, b: Box)
    requires EachOnce(calls) && forall chain :: History(calls, chain) == History(calls', chain)
    requires Reaches(map[], calls, mem) && Reaches(map[], calls', mem')
    ensures At(mem, b) == At(mem', b)
    ensures IsOutcome(At(mem, b), Puts(BoxOps(calls, b)), Elements(Removes(BoxOps(calls, b))))
  {
    ReachesRuns(calls, mem, b);
    ReachesRuns(calls', mem', b);
    OpsOfHistory(calls, b);
    OpsOfHistory(calls', b);
    assert Once(BoxOps(calls, b));
    RunFromEmpty(BoxOps(calls, b));
    RunFromEmpty(BoxOps(calls', b));
    OutcomeIsUnique(At(mem, b), At(mem', b), Puts(BoxOps(calls, b)), Elements(Removes(BoxOps(calls, b))));
  }

  /** And no call ever fails: wherever the run has got to, the next call succeeds on every store. */
  lemma NoCallFails(calls: seq<Call>, k: nat, mem: Memory, b: Box)
    requires EachOnce(calls) && k < |calls| && Reaches(map[], calls[..k], mem)
    ensures Run(At(mem, b), StepOps(calls[k], b)).Ok?
  {
    var before, now := BoxOps(calls[..k], b), StepOps(calls[k], b);
    ReachesRuns(calls[..k], mem, b);
    assert calls[..k + 1][..k] == calls[..k];
    assert BoxOps(calls[..k + 1], b) == before + now;
    OncePrefix(calls, k + 1, b);
    RunFromEmpty(before + now);
    RunConcat(Empty, before, now);
  }

  lemma {:induction false} OncePrefix(calls: seq<Call>, k: nat, b: Box)
    requires k <= |calls| && Once(BoxOps(calls, b))
    ensures Once(BoxOps(calls[..k], b))
    decreases |calls|
  {
    if k < |calls| {
      var n := |calls| - 1;
      OnceConcat(BoxOps(calls[..n], b), StepOps(calls[n], b));
      OncePrefix(calls[..n], k, b);
      assert calls[..n][..k] == calls[..k];
    } else {
      assert calls[..k] == calls;
    }
  }

  lemma OnceConcat(a: seq<Op>, b: seq<Op>)
    requires Once(a + b)
    ensures Once(a)
  {
    OpsConcat(a, b);
    DistinctPutKeys(Puts(a), Puts(b));
    forall i, j | 0 <= i < j < |Removes(a)| ensures Removes(a)[i] != Removes(a)[j] {
      assert Removes(a + b)[i] != Removes(a + b)[j];
    }
  }

  /** A chain finds in its inbox exactly what that peer has put there and it has not removed. */
  lemma InboxHoldsPeersPuts(calls: seq<Call>, mem: Memory, me: ID, peer: ID, e: Element)
    requires EachOnce(calls) && Reaches(map[], calls, mem)
    ensures var b := Inbox(me, peer);
            ValueOf(At(mem, b), e.key) == Ok(e) <==>
              e in Puts(BoxOps(History(calls, peer), b)) && e.key !in Removes(BoxOps(History(calls, me), b))
  {
    var b := Inbox(me, peer);
    assert Sender(b) == peer && Receiver(b) == me;
    OpsOfHistory(calls, b);
    ReachesRuns(calls, mem, b);
    assert Once(BoxOps(calls, b));
    OnceValue(BoxOps(calls, b), At(mem, b), e);
  }

  lemma OnceValue(ops: seq<Op>, s: Store, e: Element)
    requires Once(ops) && Run(Empty, ops) == Ok(s)
    ensures ValueOf(s, e.key) == Ok(e) <==> e in Puts(ops) && e.key !in Removes(ops)
  {
    RunFromEmpty(ops);
    OutcomeValue(s, Puts(ops), Elements(Removes(ops)), e);
  }

  lemma OutcomeValue(s: Store, puts: seq<Element>, removed: set<Bytes>, e: Element)
    requires IsOutcome(s, puts, removed) && NoDuplicates(PutKeys(puts))
    ensures ValueOf(s, e.key) == Ok(e) <==> e in puts && e.key !in removed
  {
    if e.key in PutKeys(puts) && e.key !in removed {
      var i :| 0 <= i < |puts| && PutKeys(puts)[i] == e.key;
      assert s.values[e.key] == Present(puts[i].value, puts[i].traits);
      forall j | 0 <= j < |puts| && puts[j].key == e.key ensures j == i { assert PutKeys(puts)[j] == PutKeys(puts)[i]; }
    }
    forall j | 0 <= j < |puts| && puts[j] == e ensures e.key in PutKeys(puts) { assert PutKeys(puts)[j] == e.key; }
  }

  /** Whatever is put and removed, however often, the lists of keys describe the elements present. */
  lemma {:induction false} ReachableAgrees(calls: seq<Call>, mem: Memory, b: Box)
    requires Reaches(map[], calls, mem)
    ensures Agrees(At(mem, b))
  {
    ReachesRuns(calls, mem, b);
    RunAgrees(Empty, BoxOps(calls, b));
  }

  lemma {:induction false} RunAgrees(s: Store, ops: seq<Op>)
    requires Agrees(s) && Run(s, ops).Ok?
    ensures Agrees(Run(s, ops).value)
    decreases |ops|
  {
    if ops != [] {
      match ops[0] {
        case Put(e) => SetValueAgrees(s, e);
        case Remove(key) => RemoveValueAgrees(s, key);
      }
      RunAgrees(Perform(s, ops[0]).value, ops[1..]);
    }
  }

  // ---------- any puts and removals, however often ----------

  /** How many more times a key was put than removed. */
  function Balance(ops: seq<Op>, k: Bytes): int {
    if ops == [] then 0
    else
      var n := |ops| - 1;
      Balance(ops[..n], k) + if ops[n].Put? && ops[n].e.key == k then 1
                             else if ops[n].Remove? && ops[n].key == k then -1 else 0
  }

  /** At no time is a key two puts or two removals ahead. */
  ghost predicate Balanced(ops: seq<Op>) {
    forall n, k :: 0 <= n <= |ops| ==> -1 <= Balance(ops[..n], k) <= 1
  }

  ghost predicate IsLastPut(ops: seq<Op>, i: nat, k: Bytes) {
    && i < |ops| && ops[i].Put? && ops[i].e.key == k
    && forall j :: i < j < |ops| && ops[j].Put? ==> ops[j].e.key != k
  }

  /** A key that was put once more than removed has the element put last, one removed once more than put
      has a marker, and of any other nothing remains. */
  ghost predicate RemainsOf(s: Store, ops: seq<Op>, k: Bytes) {
    match Balance(ops, k)
    case 1 => exists i: nat :: IsLastPut(ops, i, k) && ValueOf(s, k) == Ok(ops[i].e)
    case -1 => k in s.values && s.values[k] == Marker
    case 0 => k !in s.values
    case _ => false
  }

  lemma {:induction false} RunOneMore(s: Store, ops: seq<Op>, op: Op)
    ensures Run(s, ops + [op]) == if Run(s, ops).Err? then Run(s, ops) else Perform(Run(s, ops).value, op)
    decreases |ops|
  {
    if ops == [] {
      assert ops + [op] == [op];
    } else {
      assert (ops + [op])[1..] == ops[1..] + [op];
      if Perform(s, ops[0]).Ok? { RunOneMore(Perform(s, ops[0]).value, ops[1..], op); }
    }
  }

  /** A put fails exactly when its key is a put ahead already, a removal when it is a removal ahead. */
  lemma NextRemains(s: Store, before: seq<Op>, op: Op, k: Bytes)
    requires RemainsOf(s, before, k) && (k == if op.Put? then op.e.key else op.key)
    ensures Perform(s, op) == Err(DuplicatePut) <==> op.Put? && Balance(before, k) == 1
    ensures Perform(s, op) == Err(DuplicateRemove) <==> op.Remove? && Balance(before, k) == -1
    ensures Perform(s, op).Ok? <==> -1 <= Balance(before + [op], k) <= 1
    ensures Perform(s, op).Ok? ==> RemainsOf(Perform(s, op).value, before + [op], k)
  {
    var ops := before + [op];
    assert ops[..|before|] == before && ops[|before|] == op;
    if Perform(s, op).Ok? && op.Put? && Balance(before, k) == 0 { assert IsLastPut(ops, |before|, k); }
  }

  /** The other keys keep what they have. */
  lemma OthersRemain(s: Store, before: seq<Op>, op: Op, k: Bytes)
    requires RemainsOf(s, before, k) && (k != if op.Put? then op.e.key else op.key) && Perform(s, op).Ok?
    ensures RemainsOf(Perform(s, op).value, before + [op], k)
  {
    var ops := before + [op];
    assert ops[..|before|] == before && ops[|before|] == op;
    if Balance(before, k) == 1 {
      var i: nat :| IsLastPut(before, i, k) && ValueOf(s, k) == Ok(before[i].e);
      assert IsLastPut(ops, i, k);
    }
  }

  lemma BalancedOneMore(before: seq<Op>, op: Op, key: Bytes)
    requires key == if op.Put? then op.e.key else op.key
    ensures Balanced(before + [op]) <==> Balanced(before) && -1 <= Balance(before + [op], key) <= 1
  {
    var ops := before + [op];
    assert ops[..|ops|] == ops && ops[..|before|] == before && before[..|before|] == before;
    assert forall n :: 0 <= n <= |before| ==> ops[..n] == before[..n];
    if Balanced(ops) { assert forall n, k :: 0 <= n <= |before| ==> Balance(before[..n], k) == Balance(ops[..n], k); }
    if Balanced(before) && -1 <= Balance(ops, key) <= 1 {
      forall n, k | 0 <= n <= |ops| ensures -1 <= Balance(ops[..n], k) <= 1 {
        if n <= |before| { assert -1 <= Balance(before[..n], k) <= 1; }
        if n == |ops| && k != key { assert Balance(ops, k) == Balance(before, k); }
      }
    }
  }

  /** Puts and removals of whatever keys, in whatever order, succeed exactly when they are balanced, and
      then what remains of each key follows from how often it was put and removed. */
  lemma {:induction false} RunIffBalanced(ops: seq<Op>)
    ensures Run(Empty, ops).Ok? <==> Balanced(ops)
    ensures Run(Empty, ops).Ok? ==> forall k :: RemainsOf(Run(Empty, ops).value, ops, k)
  {
    if ops != [] {
      var before, op := ops[..|ops| - 1], ops[|ops| - 1];
      var key := if op.Put? then op.e.key else op.key;
      assert ops == before + [op];
      RunIffBalanced(before);
      RunOneMore(Empty, before, op);
      BalancedOneMore(before, op, key);
      if Run(Empty, before).Ok? {
        var s := Run(Empty, before).value;
        NextRemains(s, before, op, key);
        if Perform(s, op).Ok? {
          forall k ensures RemainsOf(Perform(s, op).value, ops, k) { if k != key { OthersRemain(s, before, op, k); } }
        }
      }
    }
  }
}
