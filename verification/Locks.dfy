/** The locks of shared memory (chains/atomic/memory.go, the order of locking in Apply of
    chains/atomic/shared_memory.go): reference-counted mutexes, made when first wanted and dropped
    with the last reference, as a state machine over the steps of any number of goroutines. */
module Locks {
  import opened Basics

  type ID = nat
  type Goroutine = nat

  /** rcLock; the number stands for the address of its mutex. */
  datatype RcLock = RcLock(lock: nat, count: int)

  /** Where a goroutine is: between calls, in `lock.Lock()` of GetSharedDatabase, returning from
      Apply, Get or Indexed, or in `lock.Unlock()` of ReleaseSharedDatabase. */
  datatype Phase = Running | Waiting(lock: nat) | Returning | Unlocking(lock: nat)

  /** A call that locks the shared IDs of `plan` in this order and has locked the first `got`. */
  datatype Thread = Thread(plan: seq<ID>, got: nat, phase: Phase)

  datatype State = State(locks: map<ID, RcLock>, created: nat, holders: map<nat, Goroutine>,
                         threads: map<Goroutine, Thread>)

  // ---------- makeLock and releaseLock, under Memory.lock ----------

  function Entry(locks: map<ID, RcLock>, created: nat, id: ID): RcLock {
    if id in locks then locks[id] else RcLock(created, 0)
  }

  function MakeLock(locks: map<ID, RcLock>, created: nat, id: ID): map<ID, RcLock> {
    var rc := Entry(locks, created, id);
    locks[id := rc.(count := rc.count + 1)]
  }

  function ReleaseLock(locks: map<ID, RcLock>, id: ID): map<ID, RcLock>
    requires id in locks
  {
    if locks[id].count == 1 then locks - {id} else locks[id := locks[id].(count := locks[id].count - 1)]
  }

  class Memory {
    var locks: map<ID, RcLock>
    var created: nat

    constructor ()
      ensures locks == map[]
    {
      locks, created := map[], 0;
    }

    method Make(id: ID) returns (lock: nat)
      modifies this
      ensures locks == MakeLock(old(locks), old(created), id)
      ensures lock == locks[id].lock
      ensures created == if id in old(locks) then old(created) else old(created) + 1
    {
      if id !in locks {
        locks := locks[id := RcLock(created, 0)];
        created := created + 1;
      }
      locks := locks[id := locks[id].(count := locks[id].count + 1)];
      lock := locks[id].lock;
    }

    /** None where it panics, because there is no such lock. */
    method Release(id: ID) returns (lock: Option<nat>)
      modifies this
      ensures lock == if id in old(locks) then Some(old(locks)[id].lock) else None
      ensures locks == (if id in old(locks) then ReleaseLock(old(locks), id) else old(locks)) && created == old(created)
    {
      if id !in locks { return None; }
      var rc := locks[id].(count := locks[id].count - 1);
      locks := locks[id := rc];
      if rc.count == 0 {
        locks := locks - {id};
      }
      return Some(rc.lock);
    }
  }

  // ---------- the steps ----------

  /** The shared IDs of Apply are sorted and distinct; Get and Indexed lock one. */
  ghost predicate Increasing(plan: seq<ID>) {
    forall i, j :: 0 <= i < j < |plan| ==> plan[i] < plan[j]
  }

  ghost predicate Call(s: State, t: Goroutine, plan: seq<ID>, next: State) {
    && t !in s.threads && Increasing(plan)
    && next == s.(threads := s.threads[t := Thread(plan, 0, Running)])
  }

  ghost predicate Want(s: State, t: Goroutine, next: State) {
    && t in s.threads && s.threads[t].phase.Running? && s.threads[t].got < |s.threads[t].plan|
    && var id := s.threads[t].plan[s.threads[t].got];
       next == s.(locks := MakeLock(s.locks, s.created, id),
                  created := if id in s.locks then s.created else s.created + 1,
                  threads := s.threads[t := s.threads[t].(phase := Waiting(Entry(s.locks, s.created, id).lock))])
  }

  ghost predicate Lock(s: State, t: Goroutine, next: State) {
    && t in s.threads && s.threads[t].phase.Waiting? && s.threads[t].phase.lock !in s.holders
    && next == s.(holders := s.holders[s.threads[t].phase.lock := t],
                  threads := s.threads[t := s.threads[t].(got := s.threads[t].got + 1, phase := Running)])
  }

  /** The call is over, or fails half way. */
  ghost predicate Return(s: State, t: Goroutine, next: State) {
    && t in s.threads && s.threads[t].phase.Running?
    && next == s.(threads := s.threads[t := s.threads[t].(phase := Returning)])
  }

  /** The deferred releases run, the last locked first; an unknown lock panics. */
  ghost predicate Release(s: State, t: Goroutine, next: State) {
    && t in s.threads && s.threads[t].phase.Returning? && 0 < s.threads[t].got <= |s.threads[t].plan|
    && var id := s.threads[t].plan[s.threads[t].got - 1];
       && id in s.locks
       && next == s.(locks := ReleaseLock(s.locks, id),
                     threads := s.threads[t := s.threads[t].(phase := Unlocking(s.locks[id].lock))])
  }

  /** Unlocking a mutex that is not locked is fatal. */
  ghost predicate Unlock(s: State, t: Goroutine, next: State) {
    && t in s.threads && s.threads[t].phase.Unlocking? && s.threads[t].phase.lock in s.holders && s.threads[t].got > 0
    && next == s.(holders := s.holders - {s.threads[t].phase.lock},
                  threads := s.threads[t := s.threads[t].(got := s.threads[t].got - 1, phase := Returning)])
  }

  ghost predicate Advance(s: State, t: Goroutine, next: State) {
    Want(s, t, next) || Lock(s, t, next) || Return(s, t, next) || Release(s, t, next) || Unlock(s, t, next)
  }

  ghost predicate Step(s: State, next: State) {
    || (exists t, plan :: Call(s, t, plan, next))
    || (exists t :: Advance(s, t, next))
  }

  ghost predicate IsRun(run: seq<State>) {
    && run != [] && run[0] == State(map[], 0, map[], map[])
    && forall i :: 0 <= i < |run| - 1 ==> StepsAt(run, i)
  }

  ghost predicate StepsAt(run: seq<State>, i: nat)
    requires i < |run| - 1
  {
    Step(run[i], run[i + 1])
  }

  // ---------- what every step keeps ----------

  /** How many shared databases a goroutine may be using: those between the return of
      GetSharedDatabase and the call of ReleaseSharedDatabase. */
  function InUse(th: Thread): nat { if th.phase.Unlocking? && th.got > 0 then th.got - 1 else th.got }

  /** And how many it refers to: one more if it waits for it. */
  function References(th: Thread): nat { if th.phase.Waiting? then th.got + 1 else InUse(th) }

  ghost predicate Among(plan: seq<ID>, n: nat, id: ID) {
    exists k :: 0 <= k < n && k < |plan| && plan[k] == id
  }

  ghost predicate Uses(th: Thread, id: ID) { Among(th.plan, InUse(th), id) }

  ghost predicate Refers(th: Thread, id: ID) { Among(th.plan, References(th), id) }

  ghost function Referrers(s: State, id: ID): set<Goroutine> {
    set t | t in s.threads && Refers(s.threads[t], id)
  }

  ghost predicate Valid(s: State) {
    && (forall t :: t in s.threads ==> ThreadValid(s, s.threads[t], t))
    && (forall id :: Counted(s, id))
    && (forall l :: l in s.holders ==> HolderValid(s, l))
    && Distinct(s)
  }

  /** A goroutine holds the mutex of every ID it uses, waits for that of the ID it wants, and unlocks
      one that it holds; that one can only stand in the table for the ID just released. */
  ghost predicate ThreadValid(s: State, th: Thread, t: Goroutine) {
    && Increasing(th.plan) && th.got <= |th.plan| && References(th) <= |th.plan|
    && (forall k :: 0 <= k < InUse(th) ==> th.plan[k] in s.locks && Holds(s, s.locks[th.plan[k]].lock, t))
    && (th.phase.Waiting? ==> th.plan[th.got] in s.locks && s.locks[th.plan[th.got]].lock == th.phase.lock)
    && (th.phase.Unlocking? ==>
          && th.got > 0 && Holds(s, th.phase.lock, t)
          && forall id :: id in s.locks && s.locks[id].lock == th.phase.lock ==> id == th.plan[th.got - 1])
  }

  ghost predicate Holds(s: State, lock: nat, t: Goroutine) { lock in s.holders && s.holders[lock] == t }

  /** The table has exactly the IDs that are referred to, and counts the references. */
  ghost predicate Counted(s: State, id: ID) {
    |Referrers(s, id)| == if id in s.locks then s.locks[id].count else 0
  }

  /** A mutex is held by a goroutine that uses its ID, or is about to unlock it. */
  ghost predicate HolderValid(s: State, l: nat)
    requires l in s.holders
  {
    var t := s.holders[l];
    && t in s.threads
    && (s.threads[t].phase == Unlocking(l) || exists k :: HeldFor(s, s.threads[t], l, k))
  }

  ghost predicate HeldFor(s: State, th: Thread, l: nat, k: nat) {
    k < InUse(th) && k < |th.plan| && th.plan[k] in s.locks && s.locks[th.plan[k]].lock == l
  }

  ghost predicate Distinct(s: State) {
    && (forall id :: id in s.locks ==> s.locks[id].lock < s.created && s.locks[id].count > 0)
    && (forall l :: l in s.holders ==> l < s.created)
    && (forall a, b :: a in s.locks && b in s.locks && s.locks[a].lock == s.locks[b].lock ==> a == b)
  }

  /** A step of goroutine `t` leaves another one valid if it keeps its mutexes in the table and in its
      hands; a new mutex is none of those that exist. */
  lemma OtherThread(s: State, next: State, u: Goroutine)
    requires Distinct(s) && u in s.threads && ThreadValid(s, s.threads[u], u)
    requires forall id :: Refers(s.threads[u], id)
               ==> id in next.locks && id in s.locks && next.locks[id].lock == s.locks[id].lock
    requires forall l :: Holds(s, l, u) ==> Holds(next, l, u)
    requires forall id :: id in next.locks
               ==> next.locks[id].lock >= s.created || (id in s.locks && next.locks[id].lock == s.locks[id].lock)
    ensures ThreadValid(next, s.threads[u], u)
  {
    var th := s.threads[u];
    forall k | 0 <= k < References(th) ensures Refers(th, th.plan[k]) {}
    forall k | 0 <= k < InUse(th) ensures th.plan[k] in next.locks && Holds(next, next.locks[th.plan[k]].lock, u) {
      assert Refers(th, th.plan[k]);
    }
    assert th.phase.Waiting? ==> Refers(th, th.plan[th.got]);
  }

  /** What a goroutine refers to is in the table. */
  lemma ReferredIsListed(s: State, u: Goroutine, id: ID)
    requires Valid(s) && u in s.threads && Refers(s.threads[u], id)
    ensures id in s.locks
  {
    assert ThreadValid(s, s.threads[u], u);
  }

  lemma ReferrersAfter(s: State, next: State, t: Goroutine, th: Thread, id: ID)
    requires next.threads == s.threads[t := th]
    ensures Referrers(next, id) == if Refers(th, id) then Referrers(s, id) + {t} else Referrers(s, id) - {t}
    ensures t in Referrers(s, id) <==> t in s.threads && Refers(s.threads[t], id)
  {
  }

  /** A reference is taken or given up. */
  lemma ReferenceCount(s: State, next: State, t: Goroutine, th: Thread, id: ID)
    requires t in s.threads && next.threads == s.threads[t := th]
    ensures |Referrers(next, id)| == |Referrers(s, id)| + (if Refers(th, id) then 1 else 0)
                                     - (if Refers(s.threads[t], id) then 1 else 0)
  {
    ReferrersAfter(s, next, t, th, id);
    AddOne(Referrers(s, id), t);
    RemoveOne(Referrers(s, id), t);
  }

  lemma SameReferences(s: State, next: State, t: Goroutine, th: Thread)
    requires t in s.threads && next.threads == s.threads[t := th] && next.locks == s.locks
    requires th.plan == s.threads[t].plan && References(th) == References(s.threads[t])
    requires forall id :: Counted(s, id)
    ensures forall id :: Counted(next, id)
  {
    forall id ensures Counted(next, id) {
      ReferenceCount(s, next, t, th, id);
      assert Counted(s, id);
    }
  }

  lemma CallKeepsValid(s: State, t: Goroutine, plan: seq<ID>, next: State)
    requires Valid(s) && Call(s, t, plan, next)
    ensures Valid(next)
  {
    var th := Thread(plan, 0, Running);
    forall id ensures Counted(next, id) {
      ReferrersAfter(s, next, t, th, id);
      assert t !in Referrers(s, id) && Referrers(next, id) == Referrers(s, id);
      assert Counted(s, id);
    }
    Others(s, next, t);
    SameHolders(s, next, t);
  }

  /** When table and holders stay the same. */
  lemma Others(s: State, next: State, t: Goroutine)
    requires Valid(s) && next.locks == s.locks && next.holders == s.holders
    requires forall u :: u in next.threads && u != t ==> u in s.threads && next.threads[u] == s.threads[u]
    ensures forall u :: u in next.threads && u != t ==> ThreadValid(next, next.threads[u], u)
  {
    forall u | u in next.threads && u != t ensures ThreadValid(next, next.threads[u], u) {
      forall id | Refers(s.threads[u], id) ensures id in s.locks { ReferredIsListed(s, u, id); }
      OtherThread(s, next, u);
    }
  }

  lemma SameHolders(s: State, next: State, t: Goroutine)
    requires Valid(s) && next.locks == s.locks && next.holders == s.holders
    requires forall u :: u in s.threads ==> u in next.threads && next.threads[u].plan == s.threads[u].plan
    requires forall u :: u in s.threads ==> InUse(next.threads[u]) == InUse(s.threads[u])
    requires forall u, l :: u in s.threads && s.threads[u].phase == Unlocking(l)
               ==> next.threads[u].phase == Unlocking(l)
    ensures forall l :: l in next.holders ==> HolderValid(next, l)
  {
    forall l | l in next.holders ensures HolderValid(next, l) {
      assert HolderValid(s, l);
      var u := s.holders[l];
      if k :| HeldFor(s, s.threads[u], l, k) { assert HeldFor(next, next.threads[u], l, k); }
    }
  }

  lemma ReturnKeepsValid(s: State, t: Goroutine, next: State)
    requires Valid(s) && Return(s, t, next)
    ensures Valid(next)
  {
    SameReferences(s, next, t, next.threads[t]);
    Others(s, next, t);
    SameHolders(s, next, t);
    assert ThreadValid(s, s.threads[t], t);
  }

  lemma WantKeepsValid(s: State, t: Goroutine, next: State)
    requires Valid(s) && Want(s, t, next)
    ensures Valid(next)
  {
    WantOwn(s, t, next);
    WantCounted(s, t, next);
    WantOthers(s, t, next);
    WantHolders(s, t, next);
  }

  lemma WantOwn(s: State, t: Goroutine, next: State)
    requires Valid(s) && Want(s, t, next)
    ensures t in next.threads && ThreadValid(next, next.threads[t], t) && Distinct(next)
  {
    assert ThreadValid(s, s.threads[t], t);
  }

  lemma WantOthers(s: State, t: Goroutine, next: State)
    requires Valid(s) && Want(s, t, next)
    ensures forall u :: u in next.threads && u != t ==> ThreadValid(next, next.threads[u], u)
  {
    assert ThreadValid(s, s.threads[t], t);
    forall u | u in next.threads && u != t ensures ThreadValid(next, next.threads[u], u) {
      forall x | Refers(s.threads[u], x) ensures x in s.locks { ReferredIsListed(s, u, x); }
      OtherThread(s, next, u);
    }
  }

  lemma WantHolders(s: State, t: Goroutine, next: State)
    requires Valid(s) && Want(s, t, next)
    ensures forall l :: l in next.holders ==> HolderValid(next, l)
  {
    var th, th' := s.threads[t], next.threads[t];
    assert ThreadValid(s, th, t);
    forall l | l in next.holders ensures HolderValid(next, l) {
      assert HolderValid(s, l);
      var u := s.holders[l];
      if k :| HeldFor(s, s.threads[u], l, k) { assert HeldFor(next, next.threads[u], l, k); }
    }
  }

  lemma WantCounted(s: State, t: Goroutine, next: State)
    requires Valid(s) && Want(s, t, next)
    ensures forall x :: Counted(next, x)
  {
    assert ThreadValid(s, s.threads[t], t);
    forall x ensures Counted(next, x) {
      assert Counted(s, x);
      WantCounts(s, t, next, x);
    }
  }

  lemma WantCounts(s: State, t: Goroutine, next: State, x: ID)
    requires Want(s, t, next) && Counted(s, x) && Increasing(s.threads[t].plan)
    ensures Counted(next, x)
  {
    ReferenceCount(s, next, t, next.threads[t], x);
    OneMore(s.threads[t].plan, s.threads[t].got, x);
  }

  lemma OneMore(plan: seq<ID>, n: nat, x: ID)
    requires Increasing(plan) && n < |plan|
    ensures Among(plan, n + 1, x) <==> Among(plan, n, x) || x == plan[n]
    ensures !Among(plan, n, plan[n])
  {
    if x == plan[n] { assert Among(plan, n + 1, x); }
  }

  lemma LockKeepsValid(s: State, t: Goroutine, next: State)
    requires Valid(s) && Lock(s, t, next)
    ensures Valid(next)
  {
    LockOwn(s, t, next);
    SameReferences(s, next, t, next.threads[t]);
    LockOthers(s, t, next);
    LockHolders(s, t, next);
  }

  lemma LockOwn(s: State, t: Goroutine, next: State)
    requires Valid(s) && Lock(s, t, next)
    ensures t in next.threads && ThreadValid(next, next.threads[t], t) && Distinct(next)
  {
    assert ThreadValid(s, s.threads[t], t);
  }

  lemma LockOthers(s: State, t: Goroutine, next: State)
    requires Valid(s) && Lock(s, t, next)
    ensures forall u :: u in next.threads && u != t ==> ThreadValid(next, next.threads[u], u)
  {
    assert ThreadValid(s, s.threads[t], t);
    forall u | u in next.threads && u != t ensures ThreadValid(next, next.threads[u], u) {
      forall x | Refers(s.threads[u], x) ensures x in s.locks { ReferredIsListed(s, u, x); }
      OtherThread(s, next, u);
    }
  }

  lemma LockHolders(s: State, t: Goroutine, next: State)
    requires Valid(s) && Lock(s, t, next)
    ensures forall l :: l in next.holders ==> HolderValid(next, l)
  {
    var th, th' := s.threads[t], next.threads[t];
    assert ThreadValid(s, th, t);
    forall l | l in next.holders ensures HolderValid(next, l) {
      if l == th.phase.lock {
        assert HeldFor(next, th', l, th.got);
      } else {
        assert HolderValid(s, l);
        var u := s.holders[l];
        if k :| HeldFor(s, s.threads[u], l, k) { assert HeldFor(next, next.threads[u], l, k); }
      }
    }
  }

  lemma ReleaseKeepsValid(s: State, t: Goroutine, next: State)
    requires Valid(s) && Release(s, t, next)
    ensures Valid(next)
  {
    ReleaseOwn(s, t, next);
    ReleaseCounted(s, t, next);
    ReleaseOthers(s, t, next);
    ReleaseHolders(s, t, next);
  }

  lemma ReleaseOwn(s: State, t: Goroutine, next: State)
    requires Valid(s) && Release(s, t, next)
    ensures t in next.threads && ThreadValid(next, next.threads[t], t) && Distinct(next)
  {
    var th := s.threads[t];
    assert ThreadValid(s, th, t);
    forall k | 0 <= k < th.got - 1 ensures th.plan[k] != th.plan[th.got - 1] {}
  }

  lemma ReleaseOthers(s: State, t: Goroutine, next: State)
    requires Valid(s) && Release(s, t, next)
    ensures forall u :: u in next.threads && u != t ==> ThreadValid(next, next.threads[u], u)
  {
    assert ThreadValid(s, s.threads[t], t);
    ReleaseCounted(s, t, next);
    forall u | u in next.threads && u != t ensures ThreadValid(next, next.threads[u], u) {
      forall x | Refers(s.threads[u], x) ensures x in s.locks && x in next.locks {
        ReferredIsListed(s, u, x);
        assert Counted(next, x) && u in Referrers(next, x);
      }
      OtherThread(s, next, u);
    }
  }

  lemma ReleaseHolders(s: State, t: Goroutine, next: State)
    requires Valid(s) && Release(s, t, next)
    ensures forall l :: l in next.holders ==> HolderValid(next, l)
  {
    var th, th' := s.threads[t], next.threads[t];
    var id := th.plan[th.got - 1];
    assert ThreadValid(s, th, t);
    forall l | l in next.holders ensures HolderValid(next, l) {
      assert HolderValid(s, l);
      var u := s.holders[l];
      if k :| HeldFor(s, s.threads[u], l, k) {
        if l != s.locks[id].lock { assert HeldFor(next, next.threads[u], l, k); }
      }
    }
  }

  lemma ReleaseCounted(s: State, t: Goroutine, next: State)
    requires Valid(s) && Release(s, t, next)
    ensures forall x :: Counted(next, x)
  {
    assert ThreadValid(s, s.threads[t], t);
    forall x ensures Counted(next, x) {
      assert Counted(s, x);
      ReleaseCounts(s, t, next, x);
    }
  }

  lemma ReleaseCounts(s: State, t: Goroutine, next: State, x: ID)
    requires Release(s, t, next) && Counted(s, x) && Increasing(s.threads[t].plan)
    ensures Counted(next, x)
  {
    ReferenceCount(s, next, t, next.threads[t], x);
    OneMore(s.threads[t].plan, s.threads[t].got - 1, x);
  }

  lemma UnlockKeepsValid(s: State, t: Goroutine, next: State)
    requires Valid(s) && Unlock(s, t, next)
    ensures Valid(next)
  {
    var th, th' := s.threads[t], next.threads[t];
    assert ThreadValid(s, th, t);
    SameReferences(s, next, t, th');
    UnlockOthers(s, t, next);
    UnlockHolders(s, t, next);
    forall k | 0 <= k < th.got - 1 ensures s.locks[th.plan[k]].lock != th.phase.lock {
      assert th.plan[k] != th.plan[th.got - 1];
    }
  }

  lemma UnlockOthers(s: State, t: Goroutine, next: State)
    requires Valid(s) && Unlock(s, t, next)
    ensures forall u :: u in next.threads && u != t ==> ThreadValid(next, next.threads[u], u)
  {
    assert ThreadValid(s, s.threads[t], t);
    forall u | u in next.threads && u != t ensures ThreadValid(next, next.threads[u], u) {
      forall x | Refers(s.threads[u], x) ensures x in s.locks { ReferredIsListed(s, u, x); }
      OtherThread(s, next, u);
    }
  }

  lemma UnlockHolders(s: State, t: Goroutine, next: State)
    requires Valid(s) && Unlock(s, t, next)
    ensures forall l :: l in next.holders ==> HolderValid(next, l)
  {
    var th, th' := s.threads[t], next.threads[t];
    assert ThreadValid(s, th, t);
    forall l | l in next.holders ensures HolderValid(next, l) {
      assert HolderValid(s, l);
      var u := s.holders[l];
      if k :| HeldFor(s, s.threads[u], l, k) { assert HeldFor(next, next.threads[u], l, k); }
    }
  }

  lemma {:induction false} RunIsValid(run: seq<State>, i: nat)
    requires IsRun(run) && i < |run|
    ensures Valid(run[i])
  {
    if i == 0 {
      assert forall id :: Referrers(run[0], id) == {};
    } else {
      RunIsValid(run, i - 1);
      var s, next := run[i - 1], run[i];
      assert StepsAt(run, i - 1);
      if t, plan :| Call(s, t, plan, next) {
        CallKeepsValid(s, t, plan, next);
      } else {
        var t :| Advance(s, t, next);
        if Want(s, t, next) { WantKeepsValid(s, t, next); }
        else if Lock(s, t, next) { LockKeepsValid(s, t, next); }
        else if Return(s, t, next) { ReturnKeepsValid(s, t, next); }
        else if Release(s, t, next) { ReleaseKeepsValid(s, t, next); }
        else { UnlockKeepsValid(s, t, next); }
      }
    }
  }

  // ---------- the guarantees ----------

  /** In every state of every run at most one goroutine uses the database of a shared ID. */
  lemma MutualExclusion(run: seq<State>, i: nat, id: ID, a: Goroutine, b: Goroutine)
    requires IsRun(run) && i < |run| && a in run[i].threads && b in run[i].threads
    requires Uses(run[i].threads[a], id) && Uses(run[i].threads[b], id)
    ensures a == b
  {
    RunIsValid(run, i);
    assert ThreadValid(run[i], run[i].threads[a], a) && ThreadValid(run[i], run[i].threads[b], b);
  }

  ghost predicate Finished(th: Thread) { th.phase.Returning? && th.got == 0 }

  /** The goroutine is in `lock.Lock()`, and the mutex is held. */
  ghost predicate Blocked(s: State, t: Goroutine)
    requires t in s.threads
  {
    s.threads[t].phase.Waiting? && s.threads[t].phase.lock in s.holders
  }

  /** Only a goroutine that waits for a held mutex cannot go on: no release panics and no unlock is
      fatal. */
  lemma OnlyBlocked(run: seq<State>, i: nat, t: Goroutine)
    requires IsRun(run) && i < |run| && t in run[i].threads && !Finished(run[i].threads[t])
    ensures (exists next :: Advance(run[i], t, next)) <==> !Blocked(run[i], t)
  {
    RunIsValid(run, i);
    if !Blocked(run[i], t) { var next := Successor(run[i], t); }
  }

  lemma Successor(s: State, t: Goroutine) returns (next: State)
    requires Valid(s) && t in s.threads && !Finished(s.threads[t]) && !Blocked(s, t)
    ensures Advance(s, t, next)
  {
    var th := s.threads[t];
    assert ThreadValid(s, th, t);
    match th.phase
    case Running =>
      next := s.(threads := s.threads[t := th.(phase := Returning)]);
      assert Return(s, t, next);
    case Waiting(lock) =>
      next := s.(holders := s.holders[lock := t], threads := s.threads[t := th.(got := th.got + 1, phase := Running)]);
      assert Lock(s, t, next);
    case Returning =>
      var id := th.plan[th.got - 1];
      next := s.(locks := ReleaseLock(s.locks, id), threads :=
                 s.threads[t := th.(phase := Unlocking(s.locks[id].lock))]);
      assert Release(s, t, next);
    case Unlocking(lock) =>
      next := s.(holders := s.holders - {lock}, threads := s.threads[t := th.(got := th.got - 1, phase := Returning)]);
      assert Unlock(s, t, next);
  }

  /** There is no deadlock: while a goroutine has not finished, some goroutine can take a step. */
  lemma NoDeadlock(run: seq<State>, i: nat, t: Goroutine)
    requires IsRun(run) && i < |run| && t in run[i].threads && !Finished(run[i].threads[t])
    ensures exists u, next :: u in run[i].threads && Advance(run[i], u, next)
  {
    RunIsValid(run, i);
    var u := t;
    if Blocked(run[i], t) { u := Unblocked(run[i], t); }
    var next := Successor(run[i], u);
  }

  /** Follow the mutexes that goroutines wait for: the wanted IDs increase, so this ends. */
  lemma {:induction false} Unblocked(s: State, t: Goroutine) returns (u: Goroutine)
    requires Valid(s) && t in s.threads && Blocked(s, t)
    ensures u in s.threads && !Finished(s.threads[u]) && !Blocked(s, u)
    decreases Above(s, Wanted(s, t))
  {
    var id := Wanted(s, t);
    var l := s.threads[t].phase.lock;
    assert HolderValid(s, l);
    u := s.holders[l];
    assert ThreadValid(s, s.threads[u], u);
    if Blocked(s, u) {
      assert Wanted(s, u) in Above(s, id) && Wanted(s, u) !in Above(s, Wanted(s, u));
      u := Unblocked(s, u);
    }
  }

  ghost function Wanted(s: State, t: Goroutine): (id: ID)
    requires Valid(s) && t in s.threads && Blocked(s, t)
    ensures id in s.locks && s.locks[id].lock == s.threads[t].phase.lock
  {
    assert ThreadValid(s, s.threads[t], t);
    s.threads[t].plan[s.threads[t].got]
  }

  ghost function Above(s: State, id: ID): set<ID> { set x | x in s.locks && x > id }

  /** When all calls are over no lock is left behind. */
  lemma NoLeak(run: seq<State>, i: nat)
    requires IsRun(run) && i < |run| && forall t :: t in run[i].threads ==> Finished(run[i].threads[t])
    ensures run[i].locks == map[] && run[i].holders == map[]
  {
    RunIsValid(run, i);
    var s := run[i];
    forall id ensures id !in s.locks {
      assert Counted(s, id);
      assert Referrers(s, id) == {};
    }
    forall l ensures l !in s.holders {}
  }

  // ---------- every call ends ----------

  /** How many steps a goroutine has left at most: two to lock an ID, one to return, two to unlock it. */
  function StepsLeft(th: Thread): int {
    match th.phase
    case Running => 4 * |th.plan| - 2 * th.got + 1
    case Waiting(_) => 4 * |th.plan| - 2 * th.got
    case Returning => 2 * th.got
    case Unlocking(_) => 2 * th.got - 1
  }

  /** A step is one less, for that goroutine alone. */
  lemma StepTaken(s: State, t: Goroutine, next: State)
    requires Valid(s) && Advance(s, t, next)
    ensures next.threads.Keys == s.threads.Keys && next.threads[t].plan == s.threads[t].plan
    ensures 0 <= StepsLeft(next.threads[t]) < StepsLeft(s.threads[t])
    ensures forall u :: u in s.threads && u != t ==> next.threads[u] == s.threads[u]
  {
    assert ThreadValid(s, s.threads[t], t);
  }

  /** How often a goroutine has moved between two states of a run. */
  function Moves(run: seq<State>, i: nat, j: nat, t: Goroutine): nat
    requires i <= j < |run|
  {
    if i == j then 0
    else
      var s, next := run[j - 1].threads, run[j].threads;
      Moves(run, i, j - 1, t) + if t in s && t in next && next[t] != s[t] then 1 else 0
  }

  /** No step is left exactly when the call has finished. */
  lemma LeftIn(run: seq<State>, i: nat, t: Goroutine)
    requires IsRun(run) && i < |run| && t in run[i].threads
    ensures 0 <= StepsLeft(run[i].threads[t]) <= 4 * |run[i].threads[t].plan| + 1
    ensures StepsLeft(run[i].threads[t]) == 0 <==> Finished(run[i].threads[t])
  {
    RunIsValid(run, i);
    assert ThreadValid(run[i], run[i].threads[t], t);
  }

  lemma MovedOn(run: seq<State>, j: nat, t: Goroutine)
    requires IsRun(run) && 0 < j < |run| && t in run[j - 1].threads
    ensures t in run[j].threads && run[j].threads[t].plan == run[j - 1].threads[t].plan
    ensures run[j].threads[t] == run[j - 1].threads[t]
            || StepsLeft(run[j].threads[t]) < StepsLeft(run[j - 1].threads[t])
  {
    RunIsValid(run, j - 1);
    var s, next := run[j - 1], run[j];
    assert StepsAt(run, j - 1);
    if u :| Advance(s, u, next) { StepTaken(s, u, next); }
  }

  /** With every move, whatever the others do, a call comes nearer to its end: one of `n` shared IDs moves
      at most `4 * n + 1` times. Since some goroutine can always move, all of them finish if no more
      calls are made. */
  lemma {:induction false} CallsEnd(run: seq<State>, i: nat, j: nat, t: Goroutine)
    requires IsRun(run) && i <= j < |run| && t in run[i].threads
    ensures t in run[j].threads
    ensures Moves(run, i, j, t) + StepsLeft(run[j].threads[t]) <= StepsLeft(run[i].threads[t])
    decreases j
  {
    if i < j {
      CallsEnd(run, i, j - 1, t);
      MovedOn(run, j, t);
    }
  }
}
