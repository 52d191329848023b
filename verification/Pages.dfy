/** Looking up what a peer has sent by trait, a page at a time (getKeys and appendTraitKeys of
    chains/atomic/state.go, Indexed of chains/atomic/shared_memory.go). */
module Pages {
  import opened ByteStrings
  import opened AtomicState

  /** A place in the iteration: a trait, and one of the keys listed under it. */
  datatype Entry = Entry(t: Bytes, key: Bytes)

  // ---------- what is iterated over ----------

  /** The first place at or behind `i` where the key stands, or the end of the list. */
  function Find(l: seq<Bytes>, key: Bytes, i: nat): (p: nat)
    requires i <= |l|
    ensures i <= p <= |l| && (p < |l| ==> l[p] == key) && forall k :: i <= k < p ==> l[k] != key
    decreases |l| - i
  {
    if i == |l| || l[i] == key then i else Find(l, key, i + 1)
  }

  /** NewIteratorWithStart of database/linkeddb: from `start` on if it is in the list, else all of it. */
  function From(l: seq<Bytes>, start: Bytes): seq<Bytes> {
    var p := Find(l, start, 0);
    if p < |l| then l[p..] else l
  }

  /** The key from which the list of `t` is read when iteration starts at `start`. */
  function StartFor(t: Bytes, start: Entry): Bytes {
    if t == start.t then start.key else []
  }

  /** What is read for one trait. */
  function ListFor(index: Index, t: Bytes, start: Entry): seq<Bytes> {
    if Less(t, start.t) then [] else From(KeysOf(index, t), StartFor(t, start))
  }

  function ListsFrom(index: Index, start: Entry): Bytes -> seq<Bytes> { t => ListFor(index, t, start) }

  /** The keys that are read for the first `n` traits, each with a list to be read. */
  function Stream(lists: Bytes -> seq<Bytes>, ts: seq<Bytes>, n: nat): seq<Bytes>
    requires n <= |ts|
  {
    if n == 0 then [] else Stream(lists, ts, n - 1) + lists(ts[n - 1])
  }

  /** Which trait and key the iteration has reached at position `p`. */
  function EntryAt(lists: Bytes -> seq<Bytes>, ts: seq<Bytes>, n: nat, p: nat): Entry
    requires n <= |ts| && p < |Stream(lists, ts, n)|
  {
    if p < |Stream(lists, ts, n - 1)| then EntryAt(lists, ts, n - 1, p) else Entry(ts[n - 1], Stream(lists, ts, n)[p])
  }

  function All(index: Index, ts: seq<Bytes>, start: Entry): seq<Bytes> { Stream(ListsFrom(index, start), ts, |ts|) }

  // ---------- which part of it makes a page ----------

  /** `keys` followed by those of the first `n` of `more` that are not yet there, each once. */
  function AddNew(keys: seq<Bytes>, more: seq<Bytes>, n: nat): (all: seq<Bytes>)
    requires n <= |more|
    ensures |keys| <= |all| <= |keys| + n
  {
    if n == 0 then keys
    else
      var before := AddNew(keys, more, n - 1);
      if more[n - 1] in before then before else before + [more[n - 1]]
  }

  function Distinct(s: seq<Bytes>, n: nat): seq<Bytes>
    requires n <= |s|
  {
    AddNew([], s, n)
  }

  lemma {:induction false} AddNewMembers(keys: seq<Bytes>, more: seq<Bytes>, n: nat, k: Bytes)
    requires n <= |more|
    ensures k in AddNew(keys, more, n) <==> k in keys || exists i :: 0 <= i < n && more[i] == k
  {
    if n > 0 {
      AddNewMembers(keys, more, n - 1, k);
      AddNewMembers(keys, more, n - 1, more[n - 1]);
    }
  }

  lemma {:induction false} AddNewMonotone(keys: seq<Bytes>, more: seq<Bytes>, m: nat, n: nat)
    requires m <= n <= |more|
    ensures AddNew(keys, more, m) <= AddNew(keys, more, n)
    decreases n
  {
    if m < n { AddNewMonotone(keys, more, m, n - 1); }
  }

  /** Going on with `b` after all of `a`. */
  lemma {:induction false} AddNewConcat(keys: seq<Bytes>, a: seq<Bytes>, b: seq<Bytes>, all: seq<Bytes>, n: nat)
    requires a + b <= all && n <= |b|
    ensures AddNew(AddNew(keys, a, |a|), b, n) == AddNew(keys, all, |a| + n)
  {
    if n > 0 {
      AddNewConcat(keys, a, b, all, n - 1);
      assert all[|a| + n - 1] == (a + b)[|a| + n - 1] == b[n - 1];
    } else {
      AddNewAgree(keys, a, all, |a|);
    }
  }

  lemma {:induction false} AddNewAgree(keys: seq<Bytes>, a: seq<Bytes>, b: seq<Bytes>, n: nat)
    requires n <= |a| && n <= |b| && forall i :: 0 <= i < n ==> a[i] == b[i]
    ensures AddNew(keys, a, n) == AddNew(keys, b, n)
  {
    if n > 0 { AddNewAgree(keys, a, b, n - 1); }
  }

  lemma {:induction false} AddNothing(keys: seq<Bytes>, more: seq<Bytes>, n: nat)
    requires n <= |more| && forall i :: 0 <= i < n ==> more[i] in keys
    ensures AddNew(keys, more, n) == keys
  {
    if n > 0 { AddNothing(keys, more, n - 1); }
  }

  /** A page of at most `limit` keys reads the first `n` of `ks`: all of them, or up to the one that
      brings the last key. */
  ghost predicate Reads(ks: seq<Bytes>, limit: int, n: nat) {
    && n <= |ks|
    && (n < |ks| ==> |Distinct(ks, n)| >= limit)
    && (n > 0 ==> |Distinct(ks, n - 1)| < limit)
  }

  ghost predicate StrictlySorted(ts: seq<Bytes>) {
    forall i, j :: 0 <= i < j < |ts| ==> Less(ts[i], ts[j])
  }

  ghost predicate WithoutRepeats(index: Index) {
    forall t :: t in index ==> NoDuplicates(index[t])
  }

  // ---------- resuming ----------

  lemma FromSuffix(l: seq<Bytes>, start: Bytes, i: nat)
    requires NoDuplicates(l) && i < |From(l, start)|
    ensures From(l, From(l, start)[i]) == From(l, start)[i..]
  {
    var p := Find(l, start, 0);
    var at := if p < |l| then p else 0;
    SuffixFrom(l, at, i);
    assert l[0..] == l;
  }

  lemma SuffixFrom(l: seq<Bytes>, at: nat, i: nat)
    requires NoDuplicates(l) && at + i < |l|
    ensures From(l, l[at..][i]) == l[at..][i..]
  {
    assert l[at..][i] == l[at + i] && l[at..][i..] == l[at + i..];
    assert Find(l, l[at + i], 0) == at + i;
  }

  /** Every key comes from the list of one of the traits. */
  lemma {:induction false} StreamAt(lists: Bytes -> seq<Bytes>, ts: seq<Bytes>, n: nat, p: nat) returns (j: nat, i: nat)
    requires n <= |ts| && p < |Stream(lists, ts, n)|
    ensures j < n && i < |lists(ts[j])| && p == |Stream(lists, ts, j)| + i
    ensures Stream(lists, ts, n)[p] == lists(ts[j])[i] && EntryAt(lists, ts, n, p) == Entry(ts[j], lists(ts[j])[i])
  {
    var before := Stream(lists, ts, n - 1);
    if p < |before| {
      j, i := StreamAt(lists, ts, n - 1, p);
    } else {
      j, i := n - 1, p - |before|;
    }
  }

  lemma StreamListed(index: Index, ts: seq<Bytes>, start: Entry, p: nat) returns (j: nat)
    requires p < |All(index, ts, start)|
    ensures j < |ts| && All(index, ts, start)[p] in KeysOf(index, ts[j])
  {
    var i;
    j, i := StreamAt(ListsFrom(index, start), ts, |ts|, p);
    ListForListed(index, ts[j], start, i);
  }

  lemma ListForListed(index: Index, t: Bytes, start: Entry, i: nat)
    requires i < |ListFor(index, t, start)|
    ensures !Less(t, start.t) && ListFor(index, t, start)[i] in KeysOf(index, t)
  {
  }

  /** The lists of `g` are those of `f`, begun later: at `i` in the one of trait `j`. */
  ghost predicate BeginsAt(f: Bytes -> seq<Bytes>, g: Bytes -> seq<Bytes>, ts: seq<Bytes>, j: nat, i: nat)
    requires j < |ts| && i < |f(ts[j])|
  {
    && (forall k :: 0 <= k < j ==> g(ts[k]) == [])
    && g(ts[j]) == f(ts[j])[i..]
    && (forall k :: j < k < |ts| ==> g(ts[k]) == f(ts[k]))
  }

  lemma {:induction false} StreamFrom(f: Bytes -> seq<Bytes>, g: Bytes -> seq<Bytes>, ts: seq<Bytes>, n: nat, j: nat,
                                      i: nat)
    requires j < n <= |ts| && i < |f(ts[j])| && BeginsAt(f, g, ts, j, i)
    ensures |Stream(f, ts, j)| + i < |Stream(f, ts, n)|
    ensures Stream(g, ts, n) == Stream(f, ts, n)[|Stream(f, ts, j)| + i..]
    decreases n
  {
    var t, p := ts[n - 1], |Stream(f, ts, j)| + i;
    if j < n - 1 {
      StreamFrom(f, g, ts, n - 1, j, i);
    } else {
      StreamEmpty(g, ts, n - 1);
    }
    DropConcat(Stream(f, ts, n - 1), f(t), p);
  }

  lemma {:induction false} StreamEmpty(lists: Bytes -> seq<Bytes>, ts: seq<Bytes>, n: nat)
    requires n <= |ts| && forall k :: 0 <= k < n ==> lists(ts[k]) == []
    ensures Stream(lists, ts, n) == []
  {
    if n > 0 { StreamEmpty(lists, ts, n - 1); }
  }

  /** Starting at an entry of the iteration continues it from that entry on. */
  lemma Resume(index: Index, ts: seq<Bytes>, start: Entry, p: nat, cursor: Entry)
    requires WithoutRepeats(index) && StrictlySorted(ts) && p < |All(index, ts, start)|
    requires cursor == EntryAt(ListsFrom(index, start), ts, |ts|, p)
    ensures All(index, ts, cursor) == All(index, ts, start)[p..]
  {
    var f, g := ListsFrom(index, start), ListsFrom(index, cursor);
    var j, i := StreamAt(f, ts, |ts|, p);
    ResumeLists(index, ts, start, j, i, cursor);
    StreamFrom(f, g, ts, |ts|, j, i);
  }

  lemma ResumeLists(index: Index, ts: seq<Bytes>, start: Entry, j: nat, i: nat, cursor: Entry)
    requires WithoutRepeats(index) && StrictlySorted(ts) && j < |ts| && i < |ListFor(index, ts[j], start)|
    requires cursor == Entry(ts[j], ListFor(index, ts[j], start)[i])
    ensures BeginsAt(ListsFrom(index, start), ListsFrom(index, cursor), ts, j, i)
  {
    ListForListed(index, ts[j], start, i);
    ResumeList(index, ts[j], start, i);
    forall k | j < k < |ts| ensures ListFor(index, ts[k], cursor) == ListFor(index, ts[k], start) {
      Later(ts[k], ts[j], start.t);
    }
  }

  lemma DropConcat<T>(a: seq<T>, b: seq<T>, p: nat)
    requires p < |a + b|
    ensures (a + b)[p] == (if p < |a| then a[p] else b[p - |a|])
    ensures (a + b)[p..] == if p < |a| then a[p..] + b else b[p - |a|..]
  {
  }

  lemma ResumeList(index: Index, t: Bytes, start: Entry, i: nat)
    requires WithoutRepeats(index) && i < |ListFor(index, t, start)|
    ensures var list := ListFor(index, t, start); ListFor(index, t, Entry(t, list[i])) == list[i..]
  {
    LessIrreflexive(t);
    FromSuffix(KeysOf(index, t), StartFor(t, start), i);
  }

  lemma Later(t: Bytes, u: Bytes, start: Bytes)
    requires Less(u, t) && !Less(u, start)
    ensures t != u && t != start && !Less(t, u) && !Less(t, start)
  {
    LessIrreflexive(t);
    if Less(t, u) { LessTransitive(t, u, t); }
    if Less(t, start) { LessTransitive(u, t, start); }
  }

  // ---------- all pages ----------

  ghost function PageLength(ks: seq<Bytes>, limit: int, n: nat): (m: nat)
    requires n <= |ks|
    ensures m <= n && (m < n ==> |Distinct(ks, m)| >= limit) && (m > 0 ==> |Distinct(ks, m - 1)| < limit)
  {
    if n == 0 then 0
    else
      var m := PageLength(ks, limit, n - 1);
      if m < n - 1 || |Distinct(ks, m)| >= limit then m else n
  }

  /** The pages that a caller reads who goes on from the last entry of each full page. */
  ghost function AllPages(index: Index, ts: seq<Bytes>, start: Entry, limit: nat): (pages: seq<seq<Bytes>>)
    requires WithoutRepeats(index) && StrictlySorted(ts) && limit >= 2
    decreases |All(index, ts, start)|
  {
    var s := All(index, ts, start);
    var n := PageLength(s, limit, |s|);
    var page := Distinct(s, n);
    if |page| < limit then [page]
    else
      var last := EntryAt(ListsFrom(index, start), ts, |ts|, n - 1);
      Resume(index, ts, start, n - 1, last);
      [page] + AllPages(index, ts, last, limit)
  }

  ghost predicate OnSomePage(pages: seq<seq<Bytes>>, key: Bytes) {
    exists i :: 0 <= i < |pages| && key in pages[i]
  }

  lemma OnSomePageCons(page: seq<Bytes>, rest: seq<seq<Bytes>>, key: Bytes)
    ensures OnSomePage([page] + rest, key) <==> key in page || OnSomePage(rest, key)
  {
    var pages := [page] + rest;
    assert pages[0] == page;
    if i :| 0 <= i < |rest| && key in rest[i] { assert pages[i + 1] == rest[i]; }
    if i :| 0 <= i < |pages| && key in pages[i] { assert i > 0 ==> rest[i - 1] == pages[i]; }
  }

  /** Together the pages hold exactly the keys of the iteration. */
  lemma {:induction false} PagesCover(index: Index, ts: seq<Bytes>, start: Entry, limit: nat, key: Bytes)
    requires WithoutRepeats(index) && StrictlySorted(ts) && limit >= 2
    ensures OnSomePage(AllPages(index, ts, start, limit), key) <==> key in All(index, ts, start)
    decreases |All(index, ts, start)|
  {
    var s := All(index, ts, start);
    var n := PageLength(s, limit, |s|);
    var page := Distinct(s, n);
    AddNewMembers([], s, n, key);
    if |page| < limit {
      OnSomePageCons(page, [], key);
      assert [page] + [] == [page];
    } else {
      var last := EntryAt(ListsFrom(index, start), ts, |ts|, n - 1);
      Resume(index, ts, start, n - 1, last);
      PagesCover(index, ts, last, limit, key);
      OnSomePageCons(page, AllPages(index, ts, last, limit), key);
      SplitKeys(s, n, key);
    }
  }

  lemma SplitKeys(ks: seq<Bytes>, n: nat, key: Bytes)
    requires 0 < n <= |ks|
    ensures key in ks <==> (exists i :: 0 <= i < n && ks[i] == key) || key in ks[n - 1..]
  {
    assert ks == ks[..n - 1] + ks[n - 1..];
  }

  /** How far a page reads is determined by what there is to read. */
  lemma ReadsUnique(ks: seq<Bytes>, limit: int, a: nat, b: nat)
    requires Reads(ks, limit, a) && Reads(ks, limit, b)
    ensures a == b
  {
    if a < b { AddNewMonotone([], ks, a, b - 1); }
    if b < a { AddNewMonotone([], ks, b, a - 1); }
  }

  // ---------- the loops of state.go ----------

  ghost function SortedTraits(traits: seq<Bytes>): (ts: seq<Bytes>)
    ensures StrictlySorted(ts) && forall t :: t in ts <==> t in traits
  {
    var same := map t | t in traits :: t;
    var ts := SortedKeys(same);
    SortedKeysAre(same);
    SortedIsStrict(ts, same);
    ts
  }

  function LastOf(keys: seq<Bytes>, n: nat, otherwise: Bytes): Bytes
    requires n <= |keys|
  {
    if n == 0 then otherwise else keys[n - 1]
  }

  /** Where the iteration over the first `n` traits ends when nothing stops it: at the last key of the
      last trait. */
  function EndCursor(index: Index, ts: seq<Bytes>, n: nat, start: Entry): Entry
    requires n <= |ts|
  {
    if n == 0 || Less(ts[n - 1], start.t) then start
    else
      var list := ListFor(index, ts[n - 1], start);
      Entry(ts[n - 1], LastOf(list, |list|, StartFor(ts[n - 1], start)))
  }

  /** Where a request for no keys is after the first `n` traits. */
  function IdleCursor(ts: seq<Bytes>, n: nat, start: Entry): Entry
    requires n <= |ts|
  {
    if n == 0 || Less(ts[n - 1], start.t) then start else Entry(ts[n - 1], StartFor(ts[n - 1], start))
  }

  /** Where a request for no keys ends: a limit of zero stops at the first trait that is not skipped, a
      negative one goes through all of them. */
  ghost predicate IsIdle(ts: seq<Bytes>, start: Entry, limit: int, last: Entry, n: nat) {
    && n <= |ts| && last == IdleCursor(ts, n, start)
    && (limit < 0 ==> n == |ts|)
    && (limit == 0 ==> forall k :: 0 <= k < n - 1 ==> Less(ts[k], start.t))
    && (limit == 0 && n < |ts| ==> n > 0 && !Less(ts[n - 1], start.t))
  }

  /** What a page is: the distinct keys of the entries it reads, and the entry to go on from. */
  ghost predicate IsPage(index: Index, ts: seq<Bytes>, start: Entry, limit: int, keys: seq<Bytes>, last: Entry,
                         n: nat) {
    var s := All(index, ts, start);
    && Reads(s, limit, n)
    && keys == Distinct(s, n)
    && last == if |keys| == limit && n > 0 then EntryAt(ListsFrom(index, start), ts, |ts|, n - 1)
               else EndCursor(index, ts, |ts|, start)
  }

  method SortTraits(traits: seq<Bytes>) returns (sorted: seq<Bytes>)
    ensures Sorted(sorted) && multiset(sorted) == multiset(traits)
  {
    sorted := [];
    for i := 0 to |traits|
      invariant Sorted(sorted) && multiset(sorted) == multiset(traits[..i])
    {
      var k := |sorted|;
      while k > 0 && Less(traits[i], sorted[k - 1])
        invariant 0 <= k <= |sorted|
        invariant forall j :: k <= j < |sorted| ==> Less(traits[i], sorted[j])
      {
        k := k - 1;
      }
      InsertSorted(sorted, k, traits[i]);
      assert traits[..i + 1] == traits[..i] + [traits[i]];
      assert sorted == sorted[..k] + sorted[k..];
      sorted := InsertAt(sorted, k, traits[i]);
    }
    assert traits[..|traits|] == traits;
  }

  /** `m` keys of the list have been read, and added to those found before. */
  ghost predicate IsPart(list: seq<Bytes>, before: seq<Bytes>, limit: int, keys: seq<Bytes>, m: nat) {
    && m <= |list| && keys == AddNew(before, list, m)
    && (m == |list| || |keys| >= limit)
    && (m > 0 ==> |AddNew(before, list, m - 1)| < limit)
  }

  /** Adds the keys of one trait, until the list ends or `limit` is used up; `m` of them are read. */
  method AppendTraitKeys(index: Index, keys0: seq<Bytes>, keySet0: set<Bytes>, limit0: int, t: Bytes, startKey: Bytes)
    returns (keys: seq<Bytes>, keySet: set<Bytes>, limit: int, lastKey: Bytes, ghost m: nat)
    requires forall k :: k in keySet0 <==> k in keys0
    ensures forall k :: k in keySet <==> k in keys
    ensures limit == limit0 - (|keys| - |keys0|)
    ensures IsPart(From(KeysOf(index, t), startKey), keys0, |keys0| + limit0, keys, m)
    ensures lastKey == LastOf(From(KeysOf(index, t), startKey), m, startKey)
  {
    var list := From(KeysOf(index, t), startKey);
    keys, keySet, limit, lastKey, m := keys0, keySet0, limit0, startKey, 0;
    var i := 0;
    while i < |list| && limit > 0
      invariant 0 <= i <= |list| && m == i
      invariant forall k :: k in keySet <==> k in keys
      invariant keys == AddNew(keys0, list, i) && limit == limit0 - (|keys| - |keys0|)
      invariant i > 0 ==> |AddNew(keys0, list, i - 1)| < |keys0| + limit0
      invariant lastKey == LastOf(list, i, startKey)
    {
      var key := list[i];
      lastKey := key;
      i, m := i + 1, m + 1;
      if key in keySet { continue; }
      keySet := keySet + {key};
      keys := keys + [key];
      limit := limit - 1;
    }
  }

  method GetKeys(index: Index, traits: seq<Bytes>, startTrait: Bytes, startKey: Bytes, limit: int)
    returns (keys: seq<Bytes>, lastTrait: Bytes, lastKey: Bytes, ghost n: nat)
    ensures limit > 0 ==>
              IsPage(index, SortedTraits(traits), Entry(startTrait, startKey), limit, keys, Entry(lastTrait, lastKey),
                     n)
    ensures limit <= 0 ==>
              keys == [] && IsIdle(SortedTraits(traits), Entry(startTrait, startKey), limit, Entry(lastTrait, lastKey),
                                   n)
  {
    var sorted := SortTraits(traits);
    SortedDistinct(sorted, traits);
    keys, lastTrait, lastKey, n :=
      GetSortedKeys(index, sorted, startTrait, startKey, limit, SortedTraits(traits), Entry(startTrait, startKey));
  }

  /** The same for traits that are sorted, and may repeat. */
  method GetSortedKeys(index: Index, sorted: seq<Bytes>, startTrait: Bytes, startKey: Bytes, limit: int,
                       ghost ts: seq<Bytes>, ghost start: Entry)
    returns (keys: seq<Bytes>, lastTrait: Bytes, lastKey: Bytes, ghost n: nat)
    requires Sorted(sorted) && ts == Distinct(sorted, |sorted|) && start == Entry(startTrait, startKey)
    ensures limit > 0 ==> IsPage(index, ts, start, limit, keys, Entry(lastTrait, lastKey), n)
    ensures limit <= 0 ==> keys == [] && IsIdle(ts, start, limit, Entry(lastTrait, lastKey), n)
  {
    var keySet, left, from := {}, limit, startKey;
    keys, lastTrait, lastKey, n := [], startTrait, startKey, 0;
    ghost var j := 0;
    for i := 0 to |sorted|
      invariant IsKeySet(keySet, keys) && left == limit - |keys| && from == FromKey(sorted, i, start)
      invariant j <= |ts| && ts[..j] == Distinct(sorted, i)
      invariant GoesOn(index, ts, j, start, limit, keys, Entry(lastTrait, lastKey))
    {
      var t := sorted[i];
      NextFrom(sorted, i, start);
      ghost var j' := NextTrait(sorted, i, ts, j);
      if Less(t, startTrait) {
        SkipTrait(index, ts, j, j', t, start);
        if limit <= 0 { SkipIdle(ts, j, j', t, start, limit, Entry(lastTrait, lastKey)); }
        j := j';
        continue;
      }
      if Less(startTrait, t) { from := []; }
      ghost var before := Entry(lastTrait, lastKey);
      lastTrait := t;
      keys, keySet, left, lastKey, n := ReadTrait(index, keys, keySet, left, t, from, limit, ts, j, j', start, before);
      j := j';
      if left == 0 { return; }
    }
    n := |ts|;
    if limit > 0 { n := EndOfStream(index, ts, start, limit, keys); }
  }

  ghost predicate IsKeySet(keySet: set<Bytes>, keys: seq<Bytes>) { forall k :: k in keySet <==> k in keys }

  /** After the first `j` traits nothing has stopped the iteration. */
  ghost predicate GoesOn(index: Index, ts: seq<Bytes>, j: nat, start: Entry, limit: int, keys: seq<Bytes>, last: Entry)
    requires j <= |ts|
  {
    if limit > 0 then ReadAll(index, ts, j, start, limit, keys, last)
    else keys == [] && StaysIdle(ts, j, start, limit, last)
  }

  /** Reads one trait; there is nothing left exactly when this ends the page. */
  method ReadTrait(index: Index, keys0: seq<Bytes>, keySet0: set<Bytes>, left0: int, t: Bytes, from: Bytes, limit: int,
                   ghost ts: seq<Bytes>, ghost j: nat, ghost j': nat, ghost start: Entry, ghost before: Entry)
    returns (keys: seq<Bytes>, keySet: set<Bytes>, left: int, lastKey: Bytes, ghost n: nat)
    requires IsKeySet(keySet0, keys0) && left0 == limit - |keys0|
    requires j <= j' <= j + 1 && 0 < j' <= |ts| && ts[j' - 1] == t && !Less(t, start.t) && from == StartFor(t, start)
    requires GoesOn(index, ts, j, start, limit, keys0, before)
    ensures IsKeySet(keySet, keys) && left == limit - |keys|
    ensures left != 0 ==> GoesOn(index, ts, j', start, limit, keys, Entry(t, lastKey))
    ensures left == 0 && limit > 0 ==> IsPage(index, ts, start, limit, keys, Entry(t, lastKey), n)
    ensures left == 0 && limit <= 0 ==> keys == [] && IsIdle(ts, start, limit, Entry(t, lastKey), n)
  {
    ghost var m;
    keys, keySet, left, lastKey, m := AppendTraitKeys(index, keys0, keySet0, left0, t, from);
    if limit > 0 {
      n := TraitRead(index, ts, j, j', t, start, limit, keys0, keys, m, lastKey);
    } else {
      n := j';
      IdleTrait(ts, j, j', start, limit, Entry(t, lastKey));
    }
  }

  /** A request for no keys that goes on has stopped nowhere. */
  ghost predicate StaysIdle(ts: seq<Bytes>, j: nat, start: Entry, limit: int, last: Entry)
    requires j <= |ts|
  {
    last == IdleCursor(ts, j, start) && (limit == 0 ==> forall k :: 0 <= k < j ==> Less(ts[k], start.t))
  }

  lemma SkipIdle(ts: seq<Bytes>, j: nat, j': nat, t: Bytes, start: Entry, limit: int, last: Entry)
    requires j <= j' <= j + 1 && 0 < j' <= |ts| && ts[j' - 1] == t && StaysIdle(ts, j, start, limit, last)
    requires Less(t, start.t) && forall k :: 0 <= k < j' ==> LessEq(ts[k], t)
    ensures StaysIdle(ts, j', start, limit, last)
  {
    if j > 0 {
      var u := ts[j - 1];
      LessTotal(u, t);
      if Less(u, t) { LessTransitive(u, t, start.t); }
    }
  }

  lemma IdleTrait(ts: seq<Bytes>, j: nat, j': nat, start: Entry, limit: int, last: Entry)
    requires j <= j' <= j + 1 && 0 < j' <= |ts| && !Less(ts[j' - 1], start.t)
    requires last == Entry(ts[j' - 1], StartFor(ts[j' - 1], start))
    requires limit == 0 ==> forall k :: 0 <= k < j ==> Less(ts[k], start.t)
    ensures limit == 0 ==> IsIdle(ts, start, limit, last, j')
    ensures limit < 0 ==> StaysIdle(ts, j', start, limit, last)
  {
  }

  /** After the first `j` traits all entries have been read, and there is room for more. */
  ghost predicate ReadAll(index: Index, ts: seq<Bytes>, j: nat, start: Entry, limit: int, keys: seq<Bytes>, last: Entry)
    requires j <= |ts|
  {
    var s := Stream(ListsFrom(index, start), ts, j);
    && keys == Distinct(s, |s|) && |keys| < limit
    && last == EndCursor(index, ts, j, start)
  }

  function FromKey(sorted: seq<Bytes>, i: nat, start: Entry): Bytes
    requires i <= |sorted|
  {
    if i > 0 && Less(start.t, sorted[i - 1]) then [] else start.key
  }

  lemma NextFrom(sorted: seq<Bytes>, i: nat, start: Entry)
    requires Sorted(sorted) && i < |sorted|
    ensures var t := sorted[i];
            && FromKey(sorted, i + 1, start) == (if Less(start.t, t) then [] else FromKey(sorted, i, start))
            && (Less(t, start.t) ==> FromKey(sorted, i + 1, start) == FromKey(sorted, i, start))
            && (!Less(t, start.t) ==> FromKey(sorted, i + 1, start) == StartFor(t, start))
  {
    var t := sorted[i];
    if i > 0 && !Less(start.t, t) { LessEqTransitive(sorted[i - 1], t, start.t); }
    LessTotal(t, start.t);
    LessIrreflexive(t);
    if Less(t, start.t) && Less(start.t, t) { LessTransitive(t, start.t, t); }
  }

  /** Removing repetitions from a sorted sequence leaves a strictly sorted one. */
  lemma {:induction false} DistinctSorted(s: seq<Bytes>, n: nat)
    requires Sorted(s) && n <= |s|
    ensures StrictlySorted(Distinct(s, n))
    ensures forall t :: t in Distinct(s, n) <==> exists i :: 0 <= i < n && s[i] == t
  {
    if n > 0 {
      DistinctSorted(s, n - 1);
      var d := Distinct(s, n - 1);
      forall i | 0 <= i < |d| && s[n - 1] !in d ensures Less(d[i], s[n - 1]) {
        assert d[i] in d;
        LessTotal(d[i], s[n - 1]);
      }
    }
    forall t ensures t in Distinct(s, n) <==> exists i :: 0 <= i < n && s[i] == t { AddNewMembers([], s, n, t); }
  }

  lemma SortedDistinct(sorted: seq<Bytes>, traits: seq<Bytes>)
    requires Sorted(sorted) && multiset(sorted) == multiset(traits)
    ensures Distinct(sorted, |sorted|) == SortedTraits(traits)
  {
    var d := Distinct(sorted, |sorted|);
    DistinctSorted(sorted, |sorted|);
    var same := map t | t in traits :: t;
    forall t ensures t in d <==> t in traits { assert t in multiset(sorted) <==> t in multiset(traits); }
    SortedListingUnique(d, SortedTraits(traits), same);
  }

  /** The next trait is the next of the distinct ones, or the last of them again. */
  lemma NextTrait(sorted: seq<Bytes>, i: nat, ts: seq<Bytes>, j: nat) returns (j': nat)
    requires Sorted(sorted) && i < |sorted| && ts == Distinct(sorted, |sorted|)
    requires j <= |ts| && ts[..j] == Distinct(sorted, i)
    ensures j <= j' <= j + 1 && 0 < j' <= |ts| && ts[..j'] == Distinct(sorted, i + 1) && ts[j' - 1] == sorted[i]
    ensures forall k :: 0 <= k < j' ==> LessEq(ts[k], sorted[i])
  {
    var t, d := sorted[i], Distinct(sorted, i);
    AddNewMonotone([], sorted, i + 1, |sorted|);
    DistinctSorted(sorted, i);
    DistinctSorted(sorted, i + 1);
    j' := if t in d then j else j + 1;
    var next := Distinct(sorted, i + 1);
    assert next <= ts && |next| == j';
    assert t in next;
    forall k | 0 <= k < j' ensures LessEq(ts[k], t) {
      assert ts[k] == next[k] && next[k] in next;
      LessIrreflexive(t);
    }
    var k :| 0 <= k < j' && next[k] == t;
    LastIs(next, k);
  }

  /** In a strictly sorted sequence, an element that none exceeds is the last. */
  lemma LastIs(s: seq<Bytes>, k: nat)
    requires StrictlySorted(s) && k < |s| && forall i :: 0 <= i < |s| ==> LessEq(s[i], s[k])
    ensures k == |s| - 1
  {
    assert LessEq(s[|s| - 1], s[k]);
  }

  lemma SkipTrait(index: Index, ts: seq<Bytes>, j: nat, j': nat, t: Bytes, start: Entry)
    requires j <= j' <= j + 1 && 0 < j' <= |ts| && ts[j' - 1] == t
    requires Less(t, start.t) && forall k :: 0 <= k < j' ==> LessEq(ts[k], t)
    ensures Stream(ListsFrom(index, start), ts, j') == Stream(ListsFrom(index, start), ts, j)
    ensures EndCursor(index, ts, j', start) == EndCursor(index, ts, j, start)
  {
    if j > 0 {
      var u := ts[j - 1];
      LessTotal(u, t);
      if Less(u, t) { LessTransitive(u, t, start.t); }
    }
  }

  /** The keys of the first traits are the beginning of the keys of all. */
  lemma {:induction false} StreamPrefix(lists: Bytes -> seq<Bytes>, ts: seq<Bytes>, j: nat, n: nat)
    requires j <= n <= |ts|
    ensures Stream(lists, ts, j) <= Stream(lists, ts, n)
    decreases n
  {
    if j < n { StreamPrefix(lists, ts, j, n - 1); }
  }

  lemma {:induction false} EntryPrefix(lists: Bytes -> seq<Bytes>, ts: seq<Bytes>, j: nat, n: nat, p: nat)
    requires j <= n <= |ts| && p < |Stream(lists, ts, j)|
    ensures p < |Stream(lists, ts, n)| && EntryAt(lists, ts, n, p) == EntryAt(lists, ts, j, p)
    decreases n
  {
    if j < n { EntryPrefix(lists, ts, j, n - 1, p); }
  }

  lemma {:induction false} ListInStream(lists: Bytes -> seq<Bytes>, ts: seq<Bytes>, n: nat, j: nat, i: nat)
    requires j < n <= |ts| && i < |lists(ts[j])|
    ensures lists(ts[j])[i] in Stream(lists, ts, n)
    decreases n
  {
    if j < n - 1 { ListInStream(lists, ts, n - 1, j, i); }
  }

  /** One more trait has been read, wholly or up to the limit. */
  lemma TraitRead(index: Index, ts: seq<Bytes>, j: nat, j': nat, t: Bytes, start: Entry, limit: int,
                  before: seq<Bytes>, keys: seq<Bytes>, m: nat, lastKey: Bytes) returns (n: nat)
    requires j <= j' <= j + 1 && 0 < j' <= |ts| && ts[j' - 1] == t && !Less(t, start.t)
    requires var s := Stream(ListsFrom(index, start), ts, j); before == Distinct(s, |s|) && |before| < limit
    requires IsPart(From(KeysOf(index, t), StartFor(t, start)), before, limit, keys, m)
    requires lastKey == LastOf(From(KeysOf(index, t), StartFor(t, start)), m, StartFor(t, start))
    ensures |keys| <= limit
    ensures |keys| < limit ==> ReadAll(index, ts, j', start, limit, keys, Entry(t, lastKey))
    ensures |keys| == limit ==> IsPage(index, ts, start, limit, keys, Entry(t, lastKey), n)
  {
    var lists := ListsFrom(index, start);
    assert lists(t) == From(KeysOf(index, t), StartFor(t, start));
    n := |Stream(lists, ts, j)| + m;
    ListRead(lists, ts, j, j', limit, before, keys, m, n);
  }

  lemma ListRead(lists: Bytes -> seq<Bytes>, ts: seq<Bytes>, j: nat, j': nat, limit: int,
                 before: seq<Bytes>, keys: seq<Bytes>, m: nat, n: nat)
    requires j <= j' <= j + 1 && 0 < j' <= |ts| && n == |Stream(lists, ts, j)| + m
    requires var s := Stream(lists, ts, j); before == Distinct(s, |s|) && |before| < limit
    requires IsPart(lists(ts[j' - 1]), before, limit, keys, m)
    ensures |keys| <= limit
    ensures |keys| < limit ==> m == |lists(ts[j' - 1])| && var s := Stream(lists, ts, j'); keys == Distinct(s, |s|)
    ensures |keys| == limit ==>
              var s := Stream(lists, ts, |ts|);
              m > 0 && Reads(s, limit, n) && keys == Distinct(s, n)
              && EntryAt(lists, ts, |ts|, n - 1) == Entry(ts[j' - 1], lists(ts[j' - 1])[m - 1])
  {
    if j' == j {
      RepeatedTrait(lists, ts, j, before, m);
    } else {
      NewTrait(lists, ts, j, limit, before, keys, m, Stream(lists, ts, j), Stream(lists, ts, j + 1),
               Stream(lists, ts, |ts|), n);
    }
  }

  lemma NewTrait(lists: Bytes -> seq<Bytes>, ts: seq<Bytes>, j: nat, limit: int, before: seq<Bytes>, keys: seq<Bytes>,
                 m: nat,
                 s: seq<Bytes>, next: seq<Bytes>, all: seq<Bytes>, n: nat)
    requires j < |ts| && |before| < limit && n == |s| + m
    requires s == Stream(lists, ts, j) && next == Stream(lists, ts, j + 1) && all == Stream(lists, ts, |ts|)
    requires before == Distinct(s, |s|) && IsPart(lists(ts[j]), before, limit, keys, m)
    ensures |keys| <= limit
    ensures |keys| < limit ==> keys == Distinct(next, |next|)
    ensures |keys| == limit ==>
              m > 0 && Reads(all, limit, n) && keys == Distinct(all, n)
              && EntryAt(lists, ts, |ts|, n - 1) == Entry(ts[j], lists(ts[j])[m - 1])
  {
    StreamPrefix(lists, ts, j + 1, |ts|);
    NewKeys(s, lists(ts[j]), next, all, limit, before, keys, m, n);
    if |keys| == limit { EntryOfTrait(lists, ts, j, m); }
  }

  lemma EntryOfTrait(lists: Bytes -> seq<Bytes>, ts: seq<Bytes>, j: nat, m: nat)
    requires j < |ts| && 0 < m <= |lists(ts[j])|
    ensures var n := |Stream(lists, ts, j)| + m;
            n <= |Stream(lists, ts, |ts|)| && EntryAt(lists, ts, |ts|, n - 1) == Entry(ts[j], lists(ts[j])[m - 1])
  {
    var n := |Stream(lists, ts, j)| + m;
    StreamPrefix(lists, ts, j + 1, |ts|);
    EntryPrefix(lists, ts, j + 1, |ts|, n - 1);
    assert EntryAt(lists, ts, j + 1, n - 1) == Entry(ts[j], lists(ts[j])[m - 1]);
  }

  lemma NewKeys(s: seq<Bytes>, list: seq<Bytes>, next: seq<Bytes>, all: seq<Bytes>,
                limit: int, before: seq<Bytes>, keys: seq<Bytes>, m: nat, n: nat)
    requires next == s + list && next <= all && n == |s| + m
    requires before == Distinct(s, |s|) && |before| < limit && IsPart(list, before, limit, keys, m)
    ensures |keys| <= limit
    ensures |keys| < limit ==> keys == Distinct(next, |next|)
    ensures |keys| == limit ==> m > 0 && Reads(all, limit, n) && keys == Distinct(all, n)
  {
    if |keys| < limit {
      PartOfPage(s, list, next, before, limit, keys, m, |next|);
    } else {
      PartOfPage(s, list, all, before, limit, keys, m, n);
    }
  }

  lemma PartOfPage(a: seq<Bytes>, list: seq<Bytes>, all: seq<Bytes>, before: seq<Bytes>, limit: int, keys: seq<Bytes>,
                   m: nat, n: nat)
    requires n == |a| + m && a + list <= all && before == Distinct(a, |a|) && |before| < limit
             && IsPart(list, before, limit, keys, m)
    ensures |keys| <= limit && keys == Distinct(all, n)
    ensures |keys| == limit ==> m > 0 && Reads(all, limit, n)
  {
    AddNewConcat([], a, list, all, m);
    if m > 0 { AddNewConcat([], a, list, all, m - 1); }
  }

  /** Another look at a trait that was read brings nothing. */
  lemma RepeatedTrait(lists: Bytes -> seq<Bytes>, ts: seq<Bytes>, j: nat, keys: seq<Bytes>, m: nat)
    requires 0 < j <= |ts| && m <= |lists(ts[j - 1])|
    requires var s := Stream(lists, ts, j); keys == Distinct(s, |s|)
    ensures AddNew(keys, lists(ts[j - 1]), m) == keys
  {
    var s, list := Stream(lists, ts, j), lists(ts[j - 1]);
    forall i | 0 <= i < m ensures list[i] in keys {
      ListInStream(lists, ts, j, j - 1, i);
      AddNewMembers([], s, |s|, list[i]);
    }
    AddNothing(keys, list, m);
  }

  lemma EndOfStream(index: Index, ts: seq<Bytes>, start: Entry, limit: int, keys: seq<Bytes>) returns (n: nat)
    requires var s := All(index, ts, start); keys == Distinct(s, |s|) && |keys| < limit
    ensures IsPage(index, ts, start, limit, keys, EndCursor(index, ts, |ts|, start), n)
  {
    var s := All(index, ts, start);
    n := |s|;
    if n > 0 { AddNewMonotone([], s, n - 1, n); }
  }

  // ---------- Indexed ----------

  /** The values of the keys on a page; while the lists of keys describe the elements present, none
      of them is missing. */
  method Indexed(s: Store, traits: seq<Bytes>, startTrait: Bytes, startKey: Bytes, limit: int)
    returns (r: Result<seq<Bytes>>, lastTrait: Bytes, lastKey: Bytes, ghost keys: seq<Bytes>, ghost n: nat)
    requires Agrees(s)
    ensures r.Ok? && |r.value| == |keys|
    ensures forall i :: 0 <= i < |keys| ==> ValueOf(s, keys[i]).Ok? && r.value[i] == ValueOf(s, keys[i]).value.value
    ensures limit > 0 ==>
              IsPage(s.index, SortedTraits(traits), Entry(startTrait, startKey), limit, keys,
                     Entry(lastTrait, lastKey), n)
    ensures limit <= 0 ==>
              keys == [] && IsIdle(SortedTraits(traits), Entry(startTrait, startKey), limit, Entry(lastTrait, lastKey),
                                   n)
  {
    var found;
    found, lastTrait, lastKey, n := GetKeys(s.index, traits, startTrait, startKey, limit);
    keys := found;
    if limit > 0 {
      PageKeysPresent(s, SortedTraits(traits), Entry(startTrait, startKey), limit, keys, Entry(lastTrait, lastKey), n);
    }
    r := ValuesOf(s, found);
  }

  method ValuesOf(s: Store, keys: seq<Bytes>) returns (r: Result<seq<Bytes>>)
    ensures r.Ok? <==> forall i :: 0 <= i < |keys| ==> ValueOf(s, keys[i]).Ok?
    ensures r.Ok? ==> |r.value| == |keys|
    ensures r.Ok? ==> forall i :: 0 <= i < |keys| ==> r.value[i] == ValueOf(s, keys[i]).value.value
    ensures r.Err? ==> r.error == NotFound
  {
    var state := new State(s);
    var values := [];
    for i := 0 to |keys|
      invariant |values| == i && state.View() == s
      invariant forall j :: 0 <= j < i ==> ValueOf(s, keys[j]).Ok? && values[j] == ValueOf(s, keys[j]).value.value
    {
      var e := state.Value(keys[i]);
      if e.Err? { return Err(e.error); }
      values := values + [e.value.value];
    }
    return Ok(values);
  }

  lemma PageKeysPresent(s: Store, ts: seq<Bytes>, start: Entry, limit: int, keys: seq<Bytes>, last: Entry, n: nat)
    requires Agrees(s) && IsPage(s.index, ts, start, limit, keys, last, n)
    ensures forall i :: 0 <= i < |keys| ==> ValueOf(s, keys[i]).Ok?
  {
    var all := All(s.index, ts, start);
    forall i | 0 <= i < |keys| ensures ValueOf(s, keys[i]).Ok? {
      AddNewMembers([], all, n, keys[i]);
      var p :| 0 <= p < n && all[p] == keys[i];
      var j := StreamListed(s.index, ts, start, p);
      ListedPresent(s, ts[j], keys[i]);
    }
  }

  lemma ListedPresent(s: Store, t: Bytes, key: Bytes)
    requires Agrees(s) && key in KeysOf(s.index, t)
    ensures ValueOf(s, key).Ok?
  {
    assert key in KeysOf(s.index, t);
  }

  // ---------- reading page after page ----------

  /** The pages of a caller who goes on from each returned cursor until a page is not full. */
  method ReadPages(index: Index, traits: seq<Bytes>, startTrait: Bytes, startKey: Bytes, limit: nat)
    returns (pages: seq<seq<Bytes>>)
    requires WithoutRepeats(index) && limit >= 2
    ensures pages == AllPages(index, SortedTraits(traits), Entry(startTrait, startKey), limit)
    decreases |All(index, SortedTraits(traits), Entry(startTrait, startKey))|
  {
    var keys, lastTrait, lastKey, n := GetKeys(index, traits, startTrait, startKey, limit);
    NextPage(index, SortedTraits(traits), Entry(startTrait, startKey), limit, keys, Entry(lastTrait, lastKey), n);
    if |keys| < limit { return [keys]; }
    var rest := ReadPages(index, traits, lastTrait, lastKey, limit);
    return [keys] + rest;
  }

  lemma NextPage(index: Index, ts: seq<Bytes>, start: Entry, limit: nat, keys: seq<Bytes>, last: Entry, n: nat)
    requires WithoutRepeats(index) && StrictlySorted(ts) && limit >= 2 && IsPage(index, ts, start, limit, keys, last, n)
    ensures |keys| < limit ==> AllPages(index, ts, start, limit) == [keys]
    ensures |keys| >= limit ==> AllPages(index, ts, start, limit) == [keys] + AllPages(index, ts, last, limit)
    ensures |keys| >= limit ==> |All(index, ts, last)| < |All(index, ts, start)|
  {
    var s := All(index, ts, start);
    PageIs(s, limit, n);
    if |keys| >= limit {
      Resume(index, ts, start, n - 1, last);
      assert |s[n - 1..]| < |s|;
      FullPage(index, ts, start, limit, s, keys, last, n);
    }
  }

  lemma FullPage(index: Index, ts: seq<Bytes>, start: Entry, limit: nat, s: seq<Bytes>, keys: seq<Bytes>, last: Entry,
                 n: nat)
    requires WithoutRepeats(index) && StrictlySorted(ts) && limit >= 2 && s == All(index, ts, start) && 0 < n <= |s|
    requires n == PageLength(s, limit, |s|) && keys == Distinct(s, n) && |keys| >= limit
    requires last == EntryAt(ListsFrom(index, start), ts, |ts|, n - 1)
    ensures AllPages(index, ts, start, limit) == [keys] + AllPages(index, ts, last, limit)
  {
  }

  /** A page is never longer than its limit, and a full page reads at least that many entries. */
  lemma PageIs(ks: seq<Bytes>, limit: nat, n: nat)
    requires limit > 0 && Reads(ks, limit, n)
    ensures PageLength(ks, limit, |ks|) == n
    ensures |Distinct(ks, n)| <= limit && (|Distinct(ks, n)| == limit ==> n >= limit)
  {
    ReadsUnique(ks, limit, n, PageLength(ks, limit, |ks|));
  }

  /** Iteration that starts at an entry begins with that entry. */
  lemma StartsAt(index: Index, ts: seq<Bytes>, start: Entry)
    requires StrictlySorted(ts) && start.t in ts && start.key in KeysOf(index, start.t)
    ensures All(index, ts, start) != [] && All(index, ts, start)[0] == start.key
    ensures EntryAt(ListsFrom(index, start), ts, |ts|, 0) == start
  {
    var j :| 0 <= j < |ts| && ts[j] == start.t;
    StartList(index, start);
    forall k | 0 <= k < j ensures ListFor(index, ts[k], start) == [] { assert Less(ts[k], ts[j]); }
    FirstList(ListsFrom(index, start), ts, j, start.key, |ts|);
  }

  /** The first list that is not empty is read first. */
  lemma {:induction false} FirstList(lists: Bytes -> seq<Bytes>, ts: seq<Bytes>, j: nat, key: Bytes, n: nat)
    requires j < n <= |ts| && lists(ts[j]) != [] && lists(ts[j])[0] == key
    requires forall k :: 0 <= k < j ==> lists(ts[k]) == []
    ensures Stream(lists, ts, n) != [] && Stream(lists, ts, n)[0] == key
    ensures EntryAt(lists, ts, n, 0) == Entry(ts[j], key)
  {
    if n == j + 1 { StreamEmpty(lists, ts, j); } else { FirstList(lists, ts, j, key, n - 1); }
  }

  lemma StartList(index: Index, start: Entry)
    requires start.key in KeysOf(index, start.t)
    ensures ListFor(index, start.t, start) != [] && ListFor(index, start.t, start)[0] == start.key
  {
    LessIrreflexive(start.t);
    var l := KeysOf(index, start.t);
    var i :| 0 <= i < |l| && l[i] == start.key;
    assert Find(l, start.key, 0) <= i;
  }

  /** With a limit of one, a page that starts at an entry is that entry alone, and its cursor is that
      entry again. */
  lemma LimitOneStays(index: Index, ts: seq<Bytes>, start: Entry, keys: seq<Bytes>, last: Entry, n: nat)
    requires StrictlySorted(ts) && start.t in ts && start.key in KeysOf(index, start.t)
    requires IsPage(index, ts, start, 1, keys, last, n)
    ensures keys == [start.key] && last == start
  {
    var s := All(index, ts, start);
    StartsAt(index, ts, start);
    assert Distinct(s, 0) == [] && Distinct(s, 1) == [s[0]];
    ReadsUnique(s, 1, n, 1);
  }

  /** The cursor of a full page that starts at an entry has moved if and only if the limit is not one. */
  lemma CursorMovesIff(index: Index, ts: seq<Bytes>, start: Entry, limit: nat, keys: seq<Bytes>, last: Entry, n: nat)
    requires WithoutRepeats(index) && StrictlySorted(ts) && start.t in ts && start.key in KeysOf(index, start.t)
    requires limit > 0 && IsPage(index, ts, start, limit, keys, last, n) && |keys| == limit
    ensures last != start <==> limit != 1
  {
    if limit == 1 {
      LimitOneStays(index, ts, start, keys, last, n);
    } else {
      NextPage(index, ts, start, limit, keys, last, n);
    }
  }

  // ---------- what is read, and in which order ----------

  ghost predicate StandsBefore(l: seq<Bytes>, a: Bytes, b: Bytes) {
    exists i, j :: 0 <= i < j < |l| && l[i] == a && l[j] == b
  }

  /** By trait, and under one trait as its list has them. */
  ghost predicate IsBefore(index: Index, a: Entry, b: Entry) {
    Less(a.t, b.t) || (a.t == b.t && StandsBefore(KeysOf(index, a.t), a.key, b.key))
  }

  ghost predicate IsReadAt(index: Index, ts: seq<Bytes>, start: Entry, e: Entry, p: nat) {
    p < |All(index, ts, start)| && EntryAt(ListsFrom(index, start), ts, |ts|, p) == e
  }

  lemma FromIs(l: seq<Bytes>, start: Bytes, key: Bytes)
    requires NoDuplicates(l)
    ensures key in From(l, start) <==> key in l && !StandsBefore(l, key, start)
  {
    var p := Find(l, start, 0);
    if p < |l| {
      assert forall i :: 0 <= i < |l| && l[i] == start ==> i == p;
      if i :| 0 <= i < |l| && l[i] == key {
        if i < p { assert forall k :: p <= k < |l| ==> l[k] != key; } else { assert l[p..][i - p] == key; }
      }
    }
  }

  lemma {:induction false} StreamHas(lists: Bytes -> seq<Bytes>, ts: seq<Bytes>, n: nat, j: nat, i: nat)
    requires j < n <= |ts| && i < |lists(ts[j])|
    ensures var p := |Stream(lists, ts, j)| + i;
            p < |Stream(lists, ts, n)| && EntryAt(lists, ts, n, p) == Entry(ts[j], lists(ts[j])[i])
    decreases n
  {
    if j < n - 1 { StreamHas(lists, ts, n - 1, j, i); }
  }

  /** The entries that are read are those of the asked traits, without the traits before the first one
      and the keys before the first key. */
  lemma IsReadIff(index: Index, ts: seq<Bytes>, start: Entry, e: Entry)
    requires WithoutRepeats(index)
    ensures (exists p :: IsReadAt(index, ts, start, e, p)) <==>
            && e.t in ts && e.key in KeysOf(index, e.t)
            && !Less(e.t, start.t) && !StandsBefore(KeysOf(index, e.t), e.key, StartFor(e.t, start))
  {
    var lists := ListsFrom(index, start);
    FromIs(KeysOf(index, e.t), StartFor(e.t, start), e.key);
    if p :| IsReadAt(index, ts, start, e, p) {
      var j, i := StreamAt(lists, ts, |ts|, p);
      ListForListed(index, ts[j], start, i);
    }
    if e.t in ts && e.key in lists(e.t) {
      var j :| 0 <= j < |ts| && ts[j] == e.t;
      var i :| 0 <= i < |lists(e.t)| && lists(e.t)[i] == e.key;
      StreamHas(lists, ts, |ts|, j, i);
      assert IsReadAt(index, ts, start, e, |Stream(lists, ts, j)| + i);
    }
  }

  lemma PlacesInOrder(lists: Bytes -> seq<Bytes>, ts: seq<Bytes>, j: nat, i: nat, j': nat, i': nat)
    requires j < |ts| && i < |lists(ts[j])| && j' < |ts| && i' < |lists(ts[j'])|
    requires |Stream(lists, ts, j)| + i < |Stream(lists, ts, j')| + i'
    ensures j < j' || (j == j' && i < i')
  {
    if j' < j { StreamPrefix(lists, ts, j' + 1, j); }
  }

  lemma ListInOrder(index: Index, t: Bytes, start: Entry, i: nat, i': nat)
    requires i < i' < |ListFor(index, t, start)|
    ensures StandsBefore(KeysOf(index, t), ListFor(index, t, start)[i], ListFor(index, t, start)[i'])
  {
    var l := KeysOf(index, t);
    var p := Find(l, StartFor(t, start), 0);
    var at := if p < |l| then p else 0;
    assert l[at + i] == ListFor(index, t, start)[i] && l[at + i'] == ListFor(index, t, start)[i'];
  }

  /** They are read in their order, so no entry is read twice. */
  lemma ReadInOrder(index: Index, ts: seq<Bytes>, start: Entry, a: Entry, p: nat, b: Entry, q: nat)
    requires StrictlySorted(ts) && p < q && IsReadAt(index, ts, start, a, p) && IsReadAt(index, ts, start, b, q)
    ensures IsBefore(index, a, b) && All(index, ts, start)[p] == a.key && All(index, ts, start)[q] == b.key
  {
    var lists := ListsFrom(index, start);
    var j, i := StreamAt(lists, ts, |ts|, p);
    var j', i' := StreamAt(lists, ts, |ts|, q);
    PlacesInOrder(lists, ts, j, i, j', i');
    if j == j' { ListInOrder(index, ts[j], start, i, i'); }
  }

  /** A page has at most as many keys as asked for, none of them twice; a page that is not full has all
      that is left. */
  lemma PageBounds(index: Index, ts: seq<Bytes>, start: Entry, limit: int, keys: seq<Bytes>, last: Entry, n: nat)
    requires limit > 0 && IsPage(index, ts, start, limit, keys, last, n)
    ensures |keys| <= limit && NoDuplicates(keys)
    ensures |keys| < limit ==> forall k :: k in keys <==> k in All(index, ts, start)
  {
    var s := All(index, ts, start);
    DistinctIs(s, n);
    if |keys| < limit {
      assert n == |s|;
      forall k ensures k in keys <==> k in s { AddNewMembers([], s, n, k); }
    }
  }

  lemma {:induction false} DistinctIs(s: seq<Bytes>, n: nat)
    requires n <= |s|
    ensures NoDuplicates(Distinct(s, n)) && (n > 0 ==> |Distinct(s, n)| <= |Distinct(s, n - 1)| + 1)
  {
    if n > 0 { DistinctIs(s, n - 1); }
  }

  lemma {:induction false} SameStream(f: Bytes -> seq<Bytes>, g: Bytes -> seq<Bytes>, ts: seq<Bytes>, n: nat)
    requires n <= |ts| && forall k :: 0 <= k < n ==> f(ts[k]) == g(ts[k])
    ensures Stream(f, ts, n) == Stream(g, ts, n)
  {
    if n > 0 { SameStream(f, g, ts, n - 1); }
  }

  /** Going on from a page that was not full reads nothing new. */
  lemma EndIsReached(index: Index, ts: seq<Bytes>, start: Entry)
    requires WithoutRepeats(index) && StrictlySorted(ts)
    ensures var s, rest := All(index, ts, start), All(index, ts, EndCursor(index, ts, |ts|, start));
            rest == [] || (s != [] && rest == [s[|s| - 1]])
  {
    var n, last := |ts|, EndCursor(index, ts, |ts|, start);
    if n > 0 && Less(ts[n - 1], start.t) {
      forall k | 0 <= k < n ensures Less(ts[k], start.t) { if k < n - 1 { LessTransitive(ts[k], ts[n - 1], start.t); } }
      StreamEmpty(ListsFrom(index, start), ts, n);
    } else if n > 0 && ListFor(index, ts[n - 1], start) != [] {
      var s := All(index, ts, start);
      Resume(index, ts, start, |s| - 1, last);
    } else if n > 0 {
      LessIrreflexive(ts[n - 1]);
      StreamEmpty(ListsFrom(index, last), ts, n);
    }
  }

  /** A request for no keys returns where reading can begin as well. */
  lemma NoKeysRead(index: Index, ts: seq<Bytes>, start: Entry, last: Entry, n: nat)
    requires StrictlySorted(ts) && IsIdle(ts, start, 0, last, n)
    ensures All(index, ts, last) == All(index, ts, start)
  {
    if n > 0 && !Less(ts[n - 1], start.t) {
      LessIrreflexive(ts[n - 1]);
      forall k | n <= k < |ts| ensures ListFor(index, ts[k], last) == ListFor(index, ts[k], start) {
        Later(ts[k], ts[n - 1], start.t);
      }
      SameStream(ListsFrom(index, last), ListsFrom(index, start), ts, |ts|);
    }
  }

  /** One for fewer than none goes to the last trait. */
  lemma AllButLastSkipped(index: Index, ts: seq<Bytes>, start: Entry, limit: int, last: Entry, n: nat)
    requires StrictlySorted(ts) && limit < 0 && IsIdle(ts, start, limit, last, n) && ts != []
    ensures All(index, ts, last) == ListFor(index, ts[|ts| - 1], start)
  {
    if Less(ts[n - 1], start.t) {
      forall k | 0 <= k < n ensures Less(ts[k], start.t) { if k < n - 1 { LessTransitive(ts[k], ts[n - 1], start.t); } }
      StreamEmpty(ListsFrom(index, start), ts, n);
    } else {
      LessIrreflexive(ts[n - 1]);
      StreamEmpty(ListsFrom(index, last), ts, n - 1);
    }
  }

  // ---------- what a caller who starts at the beginning gets ----------

  const Beginning := Entry([], [])

  ghost predicate Matches(index: Index, traits: seq<Bytes>, key: Bytes) {
    exists t :: t in traits && key in KeysOf(index, t)
  }

  /** No list has the empty key behind its head. */
  ghost predicate EmptyKeyFirst(index: Index) {
    forall t :: t in index ==> forall i :: 0 < i < |index[t]| ==> index[t][i] != []
  }

  /** Every request, read from the beginning in pages of two or more, gives exactly the keys that
      have one of its traits, precisely when the empty key, which also says "from the beginning",
      is nowhere behind the head of a list. */
  lemma CompleteIff(index: Index, limit: nat)
    requires WithoutRepeats(index) && limit >= 2
    ensures (forall traits, key ::
               OnSomePage(AllPages(index, SortedTraits(traits), Beginning, limit), key) <==>
               Matches(index, traits, key))
            <==> EmptyKeyFirst(index)
  {
    if EmptyKeyFirst(index) {
      forall traits, key ensures OnSomePage(AllPages(index, SortedTraits(traits), Beginning, limit), key)
               <==> Matches(index, traits, key) {
        PagesCover(index, SortedTraits(traits), Beginning, limit, key);
        BeginningIsAll(index, traits, key);
      }
    } else {
      var t :| t in index && exists i :: 0 < i < |index[t]| && index[t][i] == [];
      var i :| 0 < i < |index[t]| && index[t][i] == [];
      var key := index[t][0];
      OneTraitMisses(index, t, i);
      PagesCover(index, SortedTraits([t]), Beginning, limit, key);
      assert Matches(index, [t], key) by { assert t in [t] && key in KeysOf(index, t); }
    }
  }

  lemma BeginningIsAll(index: Index, traits: seq<Bytes>, key: Bytes)
    requires WithoutRepeats(index) && EmptyKeyFirst(index)
    ensures key in All(index, SortedTraits(traits), Beginning) <==> Matches(index, traits, key)
  {
    var ts := SortedTraits(traits);
    ListedIsMatch(index, ts, key);
    if t :| t in traits && key in KeysOf(index, t) { MatchIsListed(index, ts, t, key); }
  }

  lemma ListedIsMatch(index: Index, ts: seq<Bytes>, key: Bytes)
    ensures key in All(index, ts, Beginning) ==> Matches(index, ts, key)
  {
    var s := All(index, ts, Beginning);
    if p :| 0 <= p < |s| && s[p] == key { var j := StreamListed(index, ts, Beginning, p); }
  }

  lemma MatchIsListed(index: Index, ts: seq<Bytes>, t: Bytes, key: Bytes)
    requires WithoutRepeats(index) && EmptyKeyFirst(index) && t in ts && key in KeysOf(index, t)
    ensures key in All(index, ts, Beginning)
  {
    var l := KeysOf(index, t);
    assert Find(l, [], 0) == 0 || Find(l, [], 0) == |l|;
    assert ListFor(index, t, Beginning) == l;
    var i :| 0 <= i < |l| && l[i] == key;
    var j :| 0 <= j < |ts| && ts[j] == t;
    ListInStream(ListsFrom(index, Beginning), ts, |ts|, j, i);
  }

  lemma OneTraitMisses(index: Index, t: Bytes, i: nat)
    requires WithoutRepeats(index) && t in index && 0 < i < |index[t]| && index[t][i] == []
    ensures index[t][0] !in All(index, SortedTraits([t]), Beginning)
  {
    OneTrait(SortedTraits([t]), t);
    var l := index[t];
    assert Find(l, [], 0) == i;
    assert Stream(ListsFrom(index, Beginning), [t], 0) == [];
    assert All(index, [t], Beginning) == l[i..];
  }

  /** Such a list comes about by a put of the empty key and one of any other key with the same trait. */
  lemma EmptyKeyFallsBehind(value: Bytes, e: Element, t: Bytes)
    requires e.key != [] && t in e.traits
    ensures var first := SetValue(Empty, Element([], value, [t]));
            && first.Ok? && SetValue(first.value, e).Ok?
            && var index := SetValue(first.value, e).value.index; WithoutRepeats(index) && !EmptyKeyFirst(index)
  {
    var first := SetValue(Empty, Element([], value, [t])).value.index;
    assert ListPut([], []) == [[]];
    assert first == AddToIndex(map[], [t], []) == map[t := ListPut([], [])];
    OneList(first, e.traits, e.key, t);
  }

  lemma OneList(index: Index, traits: seq<Bytes>, key: Bytes, t: Bytes)
    requires index == map[t := [[]]] && key != [] && t in traits
    ensures WithoutRepeats(AddToIndex(index, traits, key)) && !EmptyKeyFirst(AddToIndex(index, traits, key))
  {
    var next := AddToIndex(index, traits, key);
    assert next[t] == [key, []] && next[t][1] == [];
    forall u | u in next ensures NoDuplicates(next[u]) {
      assert next[u] == if u == t then [key, []] else [key];
    }
  }

  lemma StrictIsDistinct(ts: seq<Bytes>)
    requires StrictlySorted(ts)
    ensures NoDuplicates(ts)
  {
    forall i, j | 0 <= i < j < |ts| ensures ts[i] != ts[j] { LessIrreflexive(ts[i]); }
  }

  lemma OneTrait(ts: seq<Bytes>, t: Bytes)
    requires StrictlySorted(ts) && forall u :: u in ts <==> u == t
    ensures ts == [t]
  {
    StrictIsDistinct(ts);
    ListsLength(ts, {t});
    assert t in ts;
  }
}
