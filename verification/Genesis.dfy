/** How the genesis distributes tokens (genesis/genesis.go, genesis/config.go). Amounts are uint64: that
    none of the arithmetic here wraps around is part of what is proved. */
module Genesis {
  import opened Basics

  newtype Uint64 = x: int | 0 <= x < 0x1_0000_0000_0000_0000

  type Address = nat

  datatype LockedAmount = LockedAmount(amount: Uint64, locktime: Uint64)

  datatype Allocation = Allocation(ethAddr: Address, avaxAddr: Address, initialAmount: Uint64,
                                   unlockSchedule: seq<LockedAmount>)

  /** The smallest unit of a locked amount, with everything that distinguishes it. */
  datatype Coin = Coin(ethAddr: Address, avaxAddr: Address, locktime: Uint64)

  function Copies(c: Coin, n: nat): (s: seq<Coin>)
    ensures |s| == n && forall i :: 0 <= i < n ==> s[i] == c
  {
    if n == 0 then [] else Copies(c, n - 1) + [c]
  }

  lemma MoreCopies(p: seq<Coin>, q: seq<Coin>, r: seq<Coin>, c: Coin, a: nat, b: nat)
    requires q == p + Copies(c, a) && r == q + Copies(c, b)
    ensures r == p + Copies(c, a + b)
  {
    CopiesAdd(c, a, b);
  }

  lemma CopiesAdd(c: Coin, a: nat, b: nat)
    ensures Copies(c, a) + Copies(c, b) == Copies(c, a + b)
  {
  }

  /** The coins of an unlock schedule, unit by unit and in order. */
  function ScheduleCoins(eth: Address, avax: Address, unlocks: seq<LockedAmount>): seq<Coin> {
    if unlocks == [] then []
    else
      var last := unlocks[|unlocks| - 1];
      ScheduleCoins(eth, avax, unlocks[..|unlocks| - 1]) + Copies(Coin(eth, avax, last.locktime), last.amount as int)
  }

  function CoinsOf(a: Allocation): seq<Coin> { ScheduleCoins(a.ethAddr, a.avaxAddr, a.unlockSchedule) }

  function AllCoins(allocations: seq<Allocation>): seq<Coin> {
    if allocations == [] then []
    else AllCoins(allocations[..|allocations| - 1]) + CoinsOf(allocations[|allocations| - 1])
  }

  function Flatten(parts: seq<seq<Allocation>>): seq<Coin> {
    if parts == [] then [] else Flatten(parts[..|parts| - 1]) + AllCoins(parts[|parts| - 1])
  }

  lemma ScheduleAppend(eth: Address, avax: Address, unlocks: seq<LockedAmount>, u: LockedAmount)
    ensures ScheduleCoins(eth, avax, unlocks + [u])
              == ScheduleCoins(eth, avax, unlocks) + Copies(Coin(eth, avax, u.locktime), u.amount as int)
  {
    assert (unlocks + [u])[..|unlocks|] == unlocks;
  }

  lemma AllAppend(allocations: seq<Allocation>, a: Allocation)
    ensures AllCoins(allocations + [a]) == AllCoins(allocations) + CoinsOf(a)
  {
    assert (allocations + [a])[..|allocations|] == allocations;
  }

  lemma FlattenAppend(parts: seq<seq<Allocation>>, part: seq<Allocation>)
    ensures Flatten(parts + [part]) == Flatten(parts) + AllCoins(part)
  {
    assert (parts + [part])[..|parts|] == parts;
  }

  // ---------- splitAllocations ----------

  /** The variables of the loops: the finished parts, the part being filled and its amount. */
  datatype Progress = Progress(parts: seq<seq<Allocation>>, node: seq<Allocation>, amount: Uint64)

  /** Everything that has been handed out so far. */
  ghost function Placed(p: Progress, current: Allocation): seq<Coin> { Handed(p) + CoinsOf(current) }

  ghost function Handed(p: Progress): seq<Coin> { Flatten(p.parts) + AllCoins(p.node) }

  const Nothing := Allocation(0, 0, 0, [])

  lemma NothingPlaced(p: Progress, a: Allocation, weight: Uint64, n: nat)
    ensures Placed(p, Emptied(a)) == Handed(p) && Placed(p, Nothing) == Handed(p)
    ensures Fair(p, Emptied(a), weight, n) <==> Fair(p, Nothing, weight, n)
  {
    assert CoinsOf(Emptied(a)) == [] && CoinsOf(Nothing) == [];
  }

  /** Finished parts are full, and the part being filled is not overfull unless it is the last. */
  ghost predicate Fair(p: Progress, current: Allocation, weight: Uint64, n: nat) {
    && (forall i :: 0 <= i < |p.parts| ==> |AllCoins(p.parts[i])| == weight as int && NoInitial(p.parts[i]))
    && |p.parts| <= n - 1
    && p.amount as int == |AllCoins(p.node)| + |CoinsOf(current)|
    && (|p.parts| < n - 1 ==> p.amount <= weight)
    && NoInitial(p.node) && current.initialAmount == 0
  }

  /** Initial amounts are handed out elsewhere. */
  ghost predicate NoInitial(allocations: seq<Allocation>) {
    forall i :: 0 <= i < |allocations| ==> allocations[i].initialAmount == 0
  }

  function Emptied(a: Allocation): Allocation { a.(initialAmount := 0, unlockSchedule := []) }

  predicate SameOwner(a: Allocation, b: Allocation) { a.ethAddr == b.ethAddr && a.avaxAddr == b.avaxAddr }

  function Append(a: Allocation, amount: Uint64, locktime: Uint64): Allocation {
    a.(unlockSchedule := a.unlockSchedule + [LockedAmount(amount, locktime)])
  }

  /** Where part `k` begins, in coins handed out; it ends where the next begins, the last one at the end. */
  function StartOf(k: nat, w: nat): nat { if k == 0 then 0 else StartOf(k - 1, w) + w }

  lemma {:induction false} StartIs(k: nat, w: nat)
    ensures StartOf(k, w) == k * w
  {
    if k > 0 {
      StartIs(k - 1, w);
      MulStep(k - 1, w);
    }
  }

  lemma {:induction false} StartMonotone(j: nat, k: nat, w: nat)
    requires j <= k
    ensures StartOf(j, w) <= StartOf(k, w)
    decreases k
  {
    if j < k { StartMonotone(j, k - 1, w); }
  }

  function AmountSum(us: seq<Output>): nat {
    if us == [] then 0 else AmountSum(us[..|us| - 1]) + us[|us| - 1].amount as int
  }

  /** What part `k`, from `a` to `b`, gets of a locked amount that begins at `lo`: the overlap of the two. If
      the amount begins just where the part ends, the part gets nothing of it, yet as an entry. */
  function Overlap(o: Output, lo: nat, first: bool, a: nat, last: bool, b: nat): (r: seq<Output>)
    requires a <= b
    ensures r != [] ==> |r| == 1 && (r[0].amount == 0 && o.amount > 0 ==> (lo == b || a == b) && !last)
  {
    var hi := lo + o.amount as int;
    if (first || a < hi) && (last || lo <= b) then
      var from := if first || a < lo then lo else a;
      var to := if last || hi < b then hi else b;
      [o.(amount := (to - from) as Uint64)]
    else []
  }

  /** The entries of part `k`. */
  function Entries(us: seq<Output>, k: nat, w: nat, n: nat): seq<Output> {
    if us == [] then []
    else
      var o, before := us[|us| - 1], us[..|us| - 1];
      Entries(before, k, w, n)
        + Overlap(o, AmountSum(before), k == 0, StartOf(k, w), k + 1 == n, StartOf(k + 1, w))
  }

  ghost predicate AreEntries(parts: seq<seq<Allocation>>, us: seq<Output>, w: nat, n: nat) {
    forall k :: 0 <= k < |parts| ==> HasEntries(parts[k], us, k, w, n)
  }

  ghost predicate HasEntries(part: seq<Allocation>, us: seq<Output>, k: nat, w: nat, n: nat) {
    AllOutputs(part, false) == Entries(us, k, w, n)
  }

  /** The entries of the part being filled. */
  function Filling(p: Progress, current: Allocation): seq<Output> {
    AllOutputs(p.node, false) + OutputsFor(current.ethAddr, current.avaxAddr, current.unlockSchedule, false)
  }

  /** The locked amounts `us` have been handed out as they should be. */
  ghost predicate Exact(p: Progress, current: Allocation, us: seq<Output>, w: nat, n: nat) {
    var k, at := |p.parts|, StartOf(|p.parts|, w);
    && at + p.amount as int == AmountSum(us)
    && (k == 0 || at < AmountSum(us)) && (k + 1 == n || AmountSum(us) <= at + w)
    && AreEntries(p.parts, us, w, n) && Filling(p, current) == Entries(us, k, w, n)
  }

  /** So have `us` and, but for `rest`, the amount `o` that follows. */
  ghost predicate Underway(p: Progress, current: Allocation, us: seq<Output>, o: Output, rest: Uint64, w: nat,
                           n: nat) {
    var k, at, lo := |p.parts|, StartOf(|p.parts|, w), AmountSum(us);
    && 0 < rest && at + p.amount as int + rest as int == lo + o.amount as int
    && lo <= at + p.amount as int && (p.amount == 0 || at + p.amount as int == lo) && (k + 1 == n || lo <= at + w)
    && AreEntries(p.parts, us + [o], w, n) && Filling(p, current) == Entries(us, k, w, n)
  }

  lemma EntriesAppend(us: seq<Output>, o: Output, k: nat, w: nat, n: nat)
    ensures AmountSum(us + [o]) == AmountSum(us) + o.amount as int
    ensures Entries(us + [o], k, w, n) ==
            Entries(us, k, w, n) + Overlap(o, AmountSum(us), k == 0, StartOf(k, w), k + 1 == n, StartOf(k + 1, w))
  {
    assert (us + [o])[..|us|] == us;
  }

  /** A part that begins behind what is handed out has no entries. */
  lemma {:induction false} EntriesBeyond(us: seq<Output>, k: nat, w: nat, n: nat)
    requires k > 0 && AmountSum(us) <= StartOf(k, w)
    ensures Entries(us, k, w, n) == []
  {
    if us != [] { EntriesBeyond(us[..|us| - 1], k, w, n); }
  }

  lemma Begun(p: Progress, current: Allocation, us: seq<Output>, o: Output, w: nat, n: nat)
    requires Exact(p, current, us, w, n) && |p.parts| < n && o.amount > 0
    ensures Underway(p, current, us, o, o.amount, w, n)
  {
    forall k | 0 <= k < |p.parts| ensures HasEntries(p.parts[k], us + [o], k, w, n) {
      assert HasEntries(p.parts[k], us, k, w, n);
      StartMonotone(k + 1, |p.parts|, w);
      EntriesAppend(us, o, k, w, n);
    }
  }

  lemma FillingAppend(p: Progress, current: Allocation, add: Uint64, locktime: Uint64)
    ensures Filling(p, Append(current, add, locktime)) ==
            Filling(p, current) + [Output(locktime, add, current.avaxAddr, current.ethAddr)]
    ensures AllOutputs(p.node + [Append(current, add, locktime)], false) == Filling(p, Append(current, add, locktime))
  {
    var a := Append(current, add, locktime);
    assert a.unlockSchedule[..|a.unlockSchedule| - 1] == current.unlockSchedule;
    OutputsAppend(p.node, a, false);
  }

  lemma PartCut(p: Progress, current: Allocation, us: seq<Output>, o: Output, rest: Uint64, w: nat, n: nat, add: Uint64)
    requires Underway(p, current, us, o, rest, w, n) && |p.parts| + 1 < n
    requires p.amount as int + rest as int > w && add as int == w - p.amount as int && add <= o.amount
    ensures Entries(us + [o], |p.parts|, w, n) == Filling(p, current) + [o.(amount := add)]
  {
    EntriesAppend(us, o, |p.parts|, w, n);
  }

  lemma MoreEntries(parts: seq<seq<Allocation>>, part: seq<Allocation>, us: seq<Output>, w: nat, n: nat)
    requires AreEntries(parts, us, w, n) && HasEntries(part, us, |parts|, w, n)
    ensures AreEntries(parts + [part], us, w, n)
  {
    var all := parts + [part];
    forall k | 0 <= k < |all| ensures HasEntries(all[k], us, k, w, n) {
      assert k < |parts| ==> all[k] == parts[k] && HasEntries(parts[k], us, k, w, n);
    }
  }

  lemma PartDone(p: Progress, current: Allocation, template: Allocation, us: seq<Output>, o: Output, rest: Uint64,
                 w: nat, n: nat, add: Uint64, next: Progress)
    requires Underway(p, current, us, o, rest, w, n) && |p.parts| + 1 < n && SameOwner(current, template)
    requires o.address == template.avaxAddr && o.message == template.ethAddr
    requires p.amount as int + rest as int > w && add as int == w - p.amount as int && add <= rest && add <= o.amount
    requires next == Progress(p.parts + [p.node + [Append(current, add, o.locktime)]], [], 0)
    ensures Underway(next, Emptied(template), us, o, rest - add, w, n)
  {
    var k := |p.parts|;
    PartCut(p, current, us, o, rest, w, n, add);
    FillingAppend(p, current, add, o.locktime);
    MoreEntries(p.parts, p.node + [Append(current, add, o.locktime)], us + [o], w, n);
    EntriesBeyond(us, k + 1, w, n);
    assert Filling(next, Emptied(template)) == [];
  }

  lemma AmountDone(p: Progress, current: Allocation, us: seq<Output>, o: Output, rest: Uint64, w: nat, n: nat,
                   next: Progress)
    requires Underway(p, current, us, o, rest, w, n) && rest <= o.amount
    requires o.address == current.avaxAddr && o.message == current.ethAddr
    requires |p.parts| + 1 == n || p.amount as int + rest as int <= w
    requires next.parts == p.parts && next.node == p.node && next.amount as int == p.amount as int + rest as int
    ensures Exact(next, Append(current, rest, o.locktime), us + [o], w, n)
  {
    EntriesAppend(us, o, |p.parts|, w, n);
    FillingAppend(p, current, rest, o.locktime);
  }

  /** A part is completed with `add` more coins. */
  lemma Completed(p: Progress, current: Allocation, template: Allocation, add: Uint64, locktime: Uint64,
                  weight: Uint64, n: nat, next: Progress)
    requires Fair(p, current, weight, n) && |p.parts| < n - 1 && SameOwner(current, template)
             && p.amount as int + add as int == weight as int
    requires next == Progress(p.parts + [p.node + [Append(current, add, locktime)]], [], 0)
    ensures Fair(next, Emptied(template), weight, n)
    ensures Placed(next, Emptied(template))
              == Placed(p, current) + Copies(Coin(template.ethAddr, template.avaxAddr, locktime), add as int)
  {
    var filled := Append(current, add, locktime);
    ScheduleAppend(current.ethAddr, current.avaxAddr, current.unlockSchedule, LockedAmount(add, locktime));
    AllAppend(p.node, filled);
    FlattenAppend(p.parts, p.node + [filled]);
    assert CoinsOf(Emptied(template)) == [] && AllCoins([]) == [];
    Regroup(Flatten(p.parts), AllCoins(p.node), CoinsOf(current),
            Copies(Coin(template.ethAddr, template.avaxAddr, locktime), add as int));
  }

  lemma Regroup(a: seq<Coin>, b: seq<Coin>, c: seq<Coin>, d: seq<Coin>)
    ensures (a + (b + (c + d))) + [] + [] == (a + b) + c + d
    ensures (a + b) + (c + d) == (a + b) + c + d
  {
  }

  /** `rest` coins go to the part being filled. */
  lemma Extended(p: Progress, current: Allocation, rest: Uint64, locktime: Uint64, weight: Uint64, n: nat)
    requires Fair(p, current, weight, n) && p.amount as int + rest as int < 0x1_0000_0000_0000_0000
    requires |p.parts| < n - 1 ==> p.amount as int + rest as int <= weight as int
    ensures Fair(p.(amount := p.amount + rest), Append(current, rest, locktime), weight, n)
    ensures Placed(p.(amount := p.amount + rest), Append(current, rest, locktime))
            == Placed(p, current) + Copies(Coin(current.ethAddr, current.avaxAddr, locktime), rest as int)
  {
    ScheduleAppend(current.ethAddr, current.avaxAddr, current.unlockSchedule, LockedAmount(rest, locktime));
    Regroup(Flatten(p.parts), AllCoins(p.node), CoinsOf(current),
            Copies(Coin(current.ethAddr, current.avaxAddr, locktime), rest as int));
  }

  function OutputOf(a: Allocation, u: LockedAmount): Output { Output(u.locktime, u.amount, a.avaxAddr, a.ethAddr) }

  /** The coins and locked amounts so far have been handed out. */
  ghost predicate Stands(p: Progress, current: Allocation, owner: Allocation, coins: seq<Coin>, us: seq<Output>,
                         weight: Uint64, n: nat) {
    && Fair(p, current, weight, n) && SameOwner(current, owner)
    && Placed(p, current) == coins && Exact(p, current, us, weight as int, n)
  }

  ghost function CoinOf(owner: Allocation, unlock: LockedAmount): Coin {
    Coin(owner.ethAddr, owner.avaxAddr, unlock.locktime)
  }

  /** And but for `rest` so has this locked amount. */
  ghost predicate GoesOn(p: Progress, current: Allocation, owner: Allocation, coins: seq<Coin>, us: seq<Output>,
                         unlock: LockedAmount, rest: Uint64, weight: Uint64, n: nat) {
    && Fair(p, current, weight, n) && SameOwner(current, owner) && rest <= unlock.amount
    && p.amount as int + rest as int < 0x1_0000_0000_0000_0000
    && Placed(p, current) == coins + Copies(CoinOf(owner, unlock), (unlock.amount - rest) as int)
    && (unlock.amount > 0 ==> Underway(p, current, us, OutputOf(owner, unlock), rest, weight as int, n))
  }

  lemma Starts(p: Progress, current: Allocation, owner: Allocation, coins: seq<Coin>, us: seq<Output>,
               unlock: LockedAmount, weight: Uint64, n: nat)
    requires n >= 1 && Stands(p, current, owner, coins, us, weight, n)
    requires |coins| + unlock.amount as int < 0x1_0000_0000_0000_0000
    ensures GoesOn(p, current, owner, coins, us, unlock, unlock.amount, weight, n)
  {
    if unlock.amount > 0 { Begun(p, current, us, OutputOf(owner, unlock), weight as int, n); }
    assert coins + Copies(CoinOf(owner, unlock), 0) == coins;
  }

  lemma CoinsGoOn(p: Progress, current: Allocation, owner: Allocation, coins: seq<Coin>, unlock: LockedAmount,
                  rest: Uint64, weight: Uint64, n: nat, add: Uint64, next: Progress)
    requires Fair(p, current, weight, n) && |p.parts| < n - 1 && SameOwner(current, owner) && rest <= unlock.amount
    requires Placed(p, current) == coins + Copies(CoinOf(owner, unlock), (unlock.amount - rest) as int)
    requires p.amount as int + add as int == weight as int && add <= rest
    requires next == Progress(p.parts + [p.node + [Append(current, add, unlock.locktime)]], [], 0)
    ensures Fair(next, Emptied(owner), weight, n)
    ensures Placed(next, Emptied(owner)) ==
            coins + Copies(CoinOf(owner, unlock), (unlock.amount - (rest - add)) as int)
  {
    Completed(p, current, owner, add, unlock.locktime, weight, n, next);
    MoreCopies(coins, Placed(p, current), Placed(next, Emptied(owner)), CoinOf(owner, unlock),
               (unlock.amount - rest) as int, add as int);
  }

  /** One more part is complete. */
  lemma StillGoesOn(p: Progress, current: Allocation, owner: Allocation, coins: seq<Coin>, us: seq<Output>,
                    unlock: LockedAmount, rest: Uint64, weight: Uint64, n: nat, add: Uint64, next: Progress)
    requires GoesOn(p, current, owner, coins, us, unlock, rest, weight, n) && |p.parts| < n - 1
    requires p.amount + rest > weight && p.amount as int + add as int == weight as int
    requires next == Progress(p.parts + [p.node + [Append(current, add, unlock.locktime)]], [], 0)
    ensures add <= rest && GoesOn(next, Emptied(owner), owner, coins, us, unlock, rest - add, weight, n)
  {
    CoinsGoOn(p, current, owner, coins, unlock, rest, weight, n, add, next);
    if unlock.amount > 0 {
      PartDone(p, current, owner, us, OutputOf(owner, unlock), rest, weight as int, n, add, next);
    }
  }

  /** What is left of the amount goes to the part being filled. */
  lemma Ends(p: Progress, current: Allocation, owner: Allocation, coins: seq<Coin>, us: seq<Output>,
             unlock: LockedAmount, rest: Uint64, weight: Uint64, n: nat, next: Progress, last: Allocation)
    requires GoesOn(p, current, owner, coins, us, unlock, rest, weight, n) && rest > 0
    requires |p.parts| < n - 1 ==> p.amount + rest <= weight
    requires next == p.(amount := p.amount + rest) && last == Append(current, rest, unlock.locktime)
    ensures Stands(next, last, owner, coins + Copies(CoinOf(owner, unlock), unlock.amount as int),
                   us + [OutputOf(owner, unlock)], weight, n)
  {
    Extended(p, current, rest, unlock.locktime, weight, n);
    MoreCopies(coins, Placed(p, current), Placed(next, last), CoinOf(owner, unlock), (unlock.amount - rest) as int,
               rest as int);
    AmountDone(p, current, us, OutputOf(owner, unlock), rest, weight as int, n, next);
  }

  /** Completes as many parts as a locked amount fills; `rest` of it is left for the next. */
  method CompleteParts(p0: Progress, template: Allocation, current0: Allocation, unlock: LockedAmount, weight: Uint64,
                       n: nat, ghost coins: seq<Coin>, ghost us: seq<Output>)
    returns (p: Progress, current: Allocation, rest: Uint64)
    requires n >= 1 && GoesOn(p0, current0, template, coins, us, unlock, unlock.amount, weight, n)
    ensures GoesOn(p, current, template, coins, us, unlock, rest, weight, n)
    ensures |p.parts| < n - 1 ==> p.amount + rest <= weight
    ensures unlock.amount == 0 ==> p == p0 && current == current0
  {
    rest := unlock.amount;
    p, current := p0, current0;
    while p.amount + rest > weight && |p.parts| < n - 1
      invariant GoesOn(p, current, template, coins, us, unlock, rest, weight, n)
      invariant unlock.amount == 0 ==> p == p0 && current == current0
      decreases n - |p.parts|
    {
      var add := weight - p.amount;
      var next := Progress(p.parts + [p.node + [Append(current, add, unlock.locktime)]], [], 0);
      StillGoesOn(p, current, template, coins, us, unlock, rest, weight, n, add, next);
      rest := rest - add;
      p, current := next, Emptied(template);
    }
  }

  /** Hands out one locked amount. */
  method PlaceUnlock(p0: Progress, template: Allocation, current0: Allocation, unlock: LockedAmount, weight: Uint64,
                     n: nat, ghost coins: seq<Coin>, ghost us: seq<Output>)
    returns (p: Progress, current: Allocation)
    requires n >= 1 && Stands(p0, current0, template, coins, us, weight, n)
    requires |coins| + unlock.amount as int < 0x1_0000_0000_0000_0000
    ensures unlock.amount == 0 ==> p == p0 && current == current0
    ensures unlock.amount > 0 ==>
              Stands(p, current, template, coins + Copies(CoinOf(template, unlock), unlock.amount as int),
                     us + [OutputOf(template, unlock)], weight, n)
  {
    Starts(p0, current0, template, coins, us, unlock, weight, n);
    var rest;
    p, current, rest := CompleteParts(p0, template, current0, unlock, weight, n, coins, us);
    if rest == 0 { return; }
    var next, last := p.(amount := p.amount + rest), Append(current, rest, unlock.locktime);
    Ends(p, current, template, coins, us, unlock, rest, weight, n, next, last);
    p, current := next, last;
  }

  /** The first `j` locked amounts, without those of nothing. */
  function UnlockOutputs(a: Allocation, j: nat): seq<Output>
    requires j <= |a.unlockSchedule|
  {
    OutputsFor(a.ethAddr, a.avaxAddr, a.unlockSchedule[..j], true)
  }

  /** The coins and locked amounts with one more unlock. */
  lemma NextHanded(a: Allocation, j: nat, coins: seq<Coin>, us: seq<Output>)
    requires j < |a.unlockSchedule|
    ensures var u, c, o := a.unlockSchedule[j], coins + ScheduleCoins(a.ethAddr, a.avaxAddr, a.unlockSchedule[..j]),
                           us + UnlockOutputs(a, j);
            && coins + ScheduleCoins(a.ethAddr, a.avaxAddr, a.unlockSchedule[..j + 1])
              == (if u.amount == 0 then c else c + Copies(CoinOf(a, u), u.amount as int))
            && us + UnlockOutputs(a, j + 1) == (if u.amount == 0 then o else o + [OutputOf(a, u)])
            && |c| + u.amount as int <= |coins| + |CoinsOf(a)|
  {
    NextUnlock(a, j, coins);
    assert a.unlockSchedule[..j + 1][..j] == a.unlockSchedule[..j];
  }

  /** Hands out the locked amounts of one allocation. */
  method PlaceUnlocks(p0: Progress, allocation: Allocation, weight: Uint64, n: nat, ghost coins: seq<Coin>,
                      ghost us: seq<Output>)
    returns (p: Progress, current: Allocation)
    requires n >= 1 && Stands(p0, Emptied(allocation), allocation, coins, us, weight, n)
    requires |coins| + |CoinsOf(allocation)| < 0x1_0000_0000_0000_0000
    ensures Stands(p, current, allocation, coins + CoinsOf(allocation),
                   us + UnlockOutputs(allocation, |allocation.unlockSchedule|), weight, n)
    ensures CoinsOf(allocation) == [] ==> p.parts == p0.parts
  {
    p, current := p0, Emptied(allocation);
    var unlocks := allocation.unlockSchedule;
    assert us + UnlockOutputs(allocation, 0) == us;
    assert coins + ScheduleCoins(allocation.ethAddr, allocation.avaxAddr, unlocks[..0]) == coins;
    for j := 0 to |unlocks|
      invariant Stands(p, current, allocation,
                       coins + ScheduleCoins(allocation.ethAddr, allocation.avaxAddr, unlocks[..j]),
                       us + UnlockOutputs(allocation, j), weight, n)
      invariant CoinsOf(allocation) == [] ==> p.parts == p0.parts
    {
      NextHanded(allocation, j, coins, us);
      ghost var handed := coins + ScheduleCoins(allocation.ethAddr, allocation.avaxAddr, unlocks[..j]);
      p, current := PlaceUnlock(p, allocation, current, unlocks[j], weight, n, handed,
                                us + UnlockOutputs(allocation, j));
    }
    assert unlocks[..|unlocks|] == unlocks;
  }

  lemma NextUnlock(a: Allocation, j: nat, before: seq<Coin>)
    requires j < |a.unlockSchedule|
    ensures var u, coins := a.unlockSchedule[j], before + ScheduleCoins(a.ethAddr, a.avaxAddr, a.unlockSchedule[..j]);
            && before + ScheduleCoins(a.ethAddr, a.avaxAddr, a.unlockSchedule[..j + 1])
              == coins + Copies(Coin(a.ethAddr, a.avaxAddr, u.locktime), u.amount as int)
            && |coins| + u.amount as int <= |before| + |CoinsOf(a)|
  {
    assert a.unlockSchedule[..j + 1] == a.unlockSchedule[..j] + [a.unlockSchedule[j]];
    ScheduleAppend(a.ethAddr, a.avaxAddr, a.unlockSchedule[..j], a.unlockSchedule[j]);
    SchedulePrefix(a, j + 1);
  }

  /** Hands out one allocation. */
  method PlaceAllocation(p0: Progress, allocation: Allocation, weight: Uint64, n: nat, ghost coins: seq<Coin>,
                         ghost us: seq<Output>)
    returns (p: Progress)
    requires n >= 1 && Stands(p0, Nothing, Nothing, coins, us, weight, n)
    requires |coins| + |CoinsOf(allocation)| < 0x1_0000_0000_0000_0000
    ensures Stands(p, Nothing, Nothing, coins + CoinsOf(allocation),
                   us + UnlockOutputs(allocation, |allocation.unlockSchedule|), weight, n)
    ensures CoinsOf(allocation) == [] ==> p.parts == p0.parts
  {
    NothingStands(p0, allocation, coins, us, weight, n);
    var current;
    p, current := PlaceUnlocks(p0, allocation, weight, n, coins, us);
    AllocationStands(p, current, allocation, coins + CoinsOf(allocation),
                     us + UnlockOutputs(allocation, |allocation.unlockSchedule|), weight, n);
    if |current.unlockSchedule| > 0 {
      p := p.(node := p.node + [current]);
    }
  }

  lemma NothingStands(p: Progress, a: Allocation, coins: seq<Coin>, us: seq<Output>, weight: Uint64, n: nat)
    requires Stands(p, Nothing, Nothing, coins, us, weight, n)
    ensures Stands(p, Emptied(a), a, coins, us, weight, n)
  {
    NothingPlaced(p, a, weight, n);
    NothingFilled(p, a);
  }

  lemma AllocationStands(p: Progress, current: Allocation, a: Allocation, coins: seq<Coin>, us: seq<Output>,
                         weight: Uint64, n: nat)
    requires Stands(p, current, a, coins, us, weight, n)
    ensures Stands(p.(node := p.node + [current]), Nothing, Nothing, coins, us, weight, n)
    ensures current.unlockSchedule == [] ==> Stands(p, Nothing, Nothing, coins, us, weight, n)
  {
    AllocationDone(p, current, weight, n);
    AllocationFilled(p, current);
    NothingPlaced(p, current, weight, n);
    NothingPlaced(p.(node := p.node + [current]), current, weight, n);
  }

  lemma NothingFilled(p: Progress, a: Allocation)
    ensures Filling(p, Emptied(a)) == Filling(p, Nothing) == AllOutputs(p.node, false)
  {
  }

  lemma AllocationFilled(p: Progress, current: Allocation)
    ensures Filling(p.(node := p.node + [current]), Nothing) == Filling(p, current)
    ensures current.unlockSchedule == [] ==> Filling(p, Nothing) == Filling(p, current)
  {
    OutputsAppend(p.node, current, false);
    NothingFilled(p.(node := p.node + [current]), current);
  }

  lemma AllocationDone(p: Progress, current: Allocation, weight: Uint64, n: nat)
    requires Fair(p, current, weight, n)
    ensures var next := p.(node := p.node + [current]);
            Fair(next, Nothing, weight, n) && Handed(next) == Placed(p, current)
    ensures current.unlockSchedule == [] ==> Fair(p, Nothing, weight, n) && Handed(p) == Placed(p, current)
  {
    AllAppend(p.node, current);
    Associative(Flatten(p.parts), AllCoins(p.node), CoinsOf(current));
    assert CoinsOf(Nothing) == [];
  }

  lemma Associative(a: seq<Coin>, b: seq<Coin>, c: seq<Coin>)
    ensures a + (b + c) == (a + b) + c
  {
  }

  lemma {:induction false} SchedulePrefix(a: Allocation, j: nat)
    requires j <= |a.unlockSchedule|
    ensures |ScheduleCoins(a.ethAddr, a.avaxAddr, a.unlockSchedule[..j])| <= |CoinsOf(a)|
    decreases |a.unlockSchedule| - j
  {
    if j < |a.unlockSchedule| {
      SchedulePrefix(a, j + 1);
      assert a.unlockSchedule[..j + 1][..j] == a.unlockSchedule[..j];
    } else {
      assert a.unlockSchedule[..j] == a.unlockSchedule;
    }
  }

  lemma {:induction false} AllPrefix(allocations: seq<Allocation>, i: nat)
    requires i <= |allocations|
    ensures |AllCoins(allocations[..i])| <= |AllCoins(allocations)|
    decreases |allocations| - i
  {
    if i < |allocations| {
      AllPrefix(allocations, i + 1);
      assert allocations[..i + 1][..i] == allocations[..i];
    } else {
      assert allocations[..i] == allocations;
    }
  }

  /** Addition of uint64, which wraps around. */
  function AddWrapping(a: Uint64, b: Uint64): Uint64 { ((a as int + b as int) % 0x1_0000_0000_0000_0000) as Uint64 }

  lemma AddedModulo(x: nat, b: Uint64, a: Uint64)
    requires a as int == x % 0x1_0000_0000_0000_0000
    ensures AddWrapping(a, b) as int == (x + b as int) % 0x1_0000_0000_0000_0000
  {
  }

  /** The total is the number of coins, modulo 2^64. */
  method TotalAmount(allocations: seq<Allocation>) returns (total: Uint64)
    ensures total as int == |AllCoins(allocations)| % 0x1_0000_0000_0000_0000
  {
    total := 0;
    for i := 0 to |allocations|
      invariant total as int == |AllCoins(allocations[..i])| % 0x1_0000_0000_0000_0000
    {
      var a := allocations[i];
      assert allocations[..i + 1] == allocations[..i] + [a];
      AllAppend(allocations[..i], a);
      for j := 0 to |a.unlockSchedule|
        invariant total as int ==
                  (|AllCoins(allocations[..i])|
                   + |ScheduleCoins(a.ethAddr, a.avaxAddr, a.unlockSchedule[..j])|) % 0x1_0000_0000_0000_0000
      {
        assert a.unlockSchedule[..j + 1] == a.unlockSchedule[..j] + [a.unlockSchedule[j]];
        ScheduleAppend(a.ethAddr, a.avaxAddr, a.unlockSchedule[..j], a.unlockSchedule[j]);
        AddedModulo(|AllCoins(allocations[..i])| + |ScheduleCoins(a.ethAddr, a.avaxAddr, a.unlockSchedule[..j])|,
                    a.unlockSchedule[j].amount, total);
        total := AddWrapping(total, a.unlockSchedule[j].amount);
      }
      assert a.unlockSchedule[..|a.unlockSchedule|] == a.unlockSchedule;
    }
    assert allocations[..|allocations|] == allocations;
  }

  /** The parts cut the coins into consecutive pieces: all but the last of the given weight. */
  ghost predicate IsSplit(parts: seq<seq<Allocation>>, coins: seq<Coin>, weight: nat) {
    && parts != [] && (|parts| - 1) * weight <= |coins|
    && (forall i :: 0 <= i < |parts| - 1 ==> IsPiece(parts[i], coins, i, weight))
    && AllCoins(parts[|parts| - 1]) == coins[(|parts| - 1) * weight..]
  }

  ghost predicate IsPiece(part: seq<Allocation>, coins: seq<Coin>, i: nat, weight: nat) {
    i * weight + weight <= |coins| && AllCoins(part) == coins[i * weight..i * weight + weight]
  }

  method NodeWeight(total: Uint64, numSplits: nat, ghost coins: nat) returns (weight: Uint64)
    requires 0 < numSplits < 0x1_0000_0000_0000_0000 && total as int == coins % 0x1_0000_0000_0000_0000
    requires coins < 0x1_0000_0000_0000_0000
    ensures weight as int == coins / numSplits
  {
    weight := total / (numSplits as Uint64);
  }

  /** The number of parts is the one asked for if there is anything to split; to split into no parts is a
      division by zero. */
  method SplitAllocations(allocations: seq<Allocation>, numSplits: nat)
    returns (r: Option<seq<seq<Allocation>>>, ghost share: nat)
    requires numSplits < 0x1_0000_0000_0000_0000 && |AllCoins(allocations)| < 0x1_0000_0000_0000_0000
    ensures r.None? <==> numSplits == 0
    ensures r.Some? ==> share == |AllCoins(allocations)| / numSplits && IsSplit(r.value, AllCoins(allocations), share)
    ensures r.Some? ==> |r.value| == if AllCoins(allocations) == [] then 1 else numSplits
    ensures r.Some? ==> Flatten(r.value) == AllCoins(allocations)
    ensures r.Some? ==> forall i :: 0 <= i < |r.value| ==> NoInitial(r.value[i])
    ensures r.Some? ==> AreEntries(r.value, AllOutputs(allocations, true), share, numSplits)
  {
    var total := TotalAmount(allocations);
    if numSplits == 0 { return None, 0; }
    var weight := NodeWeight(total, numSplits, |AllCoins(allocations)|);
    var p := PlaceAll(allocations, weight, numSplits);
    share := weight as int;
    NothingPlaced(p, Nothing, weight, numSplits);
    SplitDone(p, AllCoins(allocations), weight, numSplits);
    NothingFilled(p, Nothing);
    r := Some(p.parts + [p.node]);
  }

  lemma SplitDone(p: Progress, coins: seq<Coin>, weight: Uint64, n: nat)
    requires n >= 1 && Fair(p, Nothing, weight, n) && Handed(p) == coins && weight as int == |coins| / n
    requires coins == [] ==> p.parts == []
    ensures var parts := p.parts + [p.node];
            && IsSplit(parts, coins, weight as int) && Flatten(parts) == coins
            && |parts| == (if coins == [] then 1 else n)
            && forall i :: 0 <= i < |parts| ==> NoInitial(parts[i])
  {
    FlattenAppend(p.parts, p.node);
    CutsConsecutively(p.parts, p.node, coins, weight as int);
    assert CoinsOf(Nothing) == [];
    EnoughParts(|coins|, n, weight as int, |p.parts|, p.amount as int);
  }

  method PlaceAll(allocations: seq<Allocation>, weight: Uint64, n: nat) returns (p: Progress)
    requires n >= 1 && |AllCoins(allocations)| < 0x1_0000_0000_0000_0000
    ensures Stands(p, Nothing, Nothing, AllCoins(allocations), AllOutputs(allocations, true), weight, n)
    ensures AllCoins(allocations) == [] ==> p.parts == []
  {
    p := Progress([], [], 0);
    for i := 0 to |allocations|
      invariant Stands(p, Nothing, Nothing, AllCoins(allocations[..i]), AllOutputs(allocations[..i], true), weight, n)
      invariant AllCoins(allocations) == [] ==> p.parts == []
    {
      NextAllocation(allocations, i);
      NextOutputs(allocations, i);
      p := PlaceAllocation(p, allocations[i], weight, n, AllCoins(allocations[..i]),
                           AllOutputs(allocations[..i], true));
    }
    assert allocations[..|allocations|] == allocations;
  }

  lemma NextOutputs(allocations: seq<Allocation>, i: nat)
    requires i < |allocations|
    ensures AllOutputs(allocations[..i + 1], true) ==
            AllOutputs(allocations[..i], true) + UnlockOutputs(allocations[i], |allocations[i].unlockSchedule|)
  {
    var a := allocations[i];
    assert a.unlockSchedule[..|a.unlockSchedule|] == a.unlockSchedule;
    assert allocations[..i + 1] == allocations[..i] + [a];
    OutputsAppend(allocations[..i], a, true);
  }

  lemma NextAllocation(allocations: seq<Allocation>, i: nat)
    requires i < |allocations|
    ensures AllCoins(allocations[..i + 1]) == AllCoins(allocations[..i]) + CoinsOf(allocations[i])
    ensures |AllCoins(allocations[..i])| + |CoinsOf(allocations[i])| <= |AllCoins(allocations)|
  {
    assert allocations[..i + 1] == allocations[..i] + [allocations[i]];
    AllAppend(allocations[..i], allocations[i]);
    AllPrefix(allocations, i + 1);
  }

  lemma CutsConsecutively(parts: seq<seq<Allocation>>, last: seq<Allocation>, coins: seq<Coin>, weight: nat)
    requires forall i :: 0 <= i < |parts| ==> |AllCoins(parts[i])| == weight
    requires Flatten(parts) + AllCoins(last) == coins
    ensures IsSplit(parts + [last], coins, weight) && |coins| == |parts| * weight + |AllCoins(last)|
  {
    FlattenLength(parts, weight);
    forall i | 0 <= i < |parts|
      ensures IsPiece(parts[i], coins, i, weight) { FlattenPiece(parts, AllCoins(last), i, weight); }
  }

  lemma {:induction false} FlattenLength(parts: seq<seq<Allocation>>, weight: nat)
    requires forall i :: 0 <= i < |parts| ==> |AllCoins(parts[i])| == weight
    ensures |Flatten(parts)| == |parts| * weight
  {
    if parts != [] {
      FlattenLength(parts[..|parts| - 1], weight);
      MulStep(|parts| - 1, weight);
    }
  }

  lemma {:induction false} FlattenPiece(parts: seq<seq<Allocation>>, tail: seq<Coin>, i: nat, weight: nat)
    requires i < |parts| && forall i :: 0 <= i < |parts| ==> |AllCoins(parts[i])| == weight
    ensures IsPiece(parts[i], Flatten(parts) + tail, i, weight)
  {
    var n := |parts| - 1;
    var coins := AllCoins(parts[n]);
    FlattenLength(parts[..n], weight);
    assert Flatten(parts) + tail == Flatten(parts[..n]) + (coins + tail);
    if i < n { FlattenPiece(parts[..n], coins + tail, i, weight); }
  }

  lemma MulStep(n: nat, w: nat)
    ensures (n + 1) * w == n * w + w
  {
  }

  lemma MulMonotone(a: nat, b: nat, w: nat)
    requires a <= b
    ensures a * w <= b * w
  {
  }

  lemma Quotient(total: nat, n: nat)
    requires n >= 1
    ensures n * (total / n) <= total
  {
  }

  lemma EnoughParts(total: nat, n: nat, weight: nat, finished: nat, amount: nat)
    requires n >= 1 && weight == total / n && finished <= n - 1
    requires total == finished * weight + amount && (finished < n - 1 ==> amount <= weight)
    ensures total > 0 ==> finished == n - 1
  {
    if finished < n - 1 {
      MulStep(finished, weight);
      MulMonotone(finished + 1, n - 1, weight);
      MulStep(n - 1, weight);
      Quotient(total, n);
    }
  }

  // ---------- InitialSupply ----------

  function InitialSum(allocations: seq<Allocation>): nat {
    if allocations == [] then 0
    else InitialSum(allocations[..|allocations| - 1]) + allocations[|allocations| - 1].initialAmount as int
  }

  function Supply(allocations: seq<Allocation>): nat { InitialSum(allocations) + |AllCoins(allocations)| }

  function Add64(a: Uint64, b: Uint64): Option<Uint64> {
    if a > 0xFFFF_FFFF_FFFF_FFFF - b then None else Some(a + b)
  }

  /** The supply is known exactly if it fits. */
  method InitialSupply(allocations: seq<Allocation>) returns (r: Option<Uint64>)
    ensures r.Some? <==> Supply(allocations) < 0x1_0000_0000_0000_0000
    ensures r.Some? ==> r.value as int == Supply(allocations)
  {
    var supply: Uint64 := 0;
    for i := 0 to |allocations|
      invariant supply as int == Supply(allocations[..i])
    {
      NextSupply(allocations, i);
      var next := AddAllocation(supply, allocations[i]);
      if next.None? { return None; }
      supply := next.value;
    }
    assert allocations[..|allocations|] == allocations;
    return Some(supply);
  }

  method AddAllocation(supply: Uint64, a: Allocation) returns (r: Option<Uint64>)
    ensures r.Some? <==> supply as int + a.initialAmount as int + |CoinsOf(a)| < 0x1_0000_0000_0000_0000
    ensures r.Some? ==> r.value as int == supply as int + a.initialAmount as int + |CoinsOf(a)|
  {
    r := Add64(supply, a.initialAmount);
    if r.None? { return; }
    var base := r.value;
    for j := 0 to |a.unlockSchedule|
      invariant r.Some? && r.value as int == base as int + |ScheduleCoins(a.ethAddr, a.avaxAddr, a.unlockSchedule[..j])|
    {
      NextUnlock(a, j, []);
      r := Add64(r.value, a.unlockSchedule[j].amount);
      if r.None? { return; }
    }
    assert a.unlockSchedule[..|a.unlockSchedule|] == a.unlockSchedule;
  }

  lemma NextSupply(allocations: seq<Allocation>, i: nat)
    requires i < |allocations|
    ensures Supply(allocations[..i + 1])
              == Supply(allocations[..i]) + allocations[i].initialAmount as int + |CoinsOf(allocations[i])|
    ensures Supply(allocations[..i + 1]) <= Supply(allocations)
  {
    NextAllocation(allocations, i);
    assert allocations[..i + 1][..i] == allocations[..i];
    InitialPrefix(allocations, i + 1);
    AllPrefix(allocations, i + 1);
  }

  lemma {:induction false} InitialPrefix(allocations: seq<Allocation>, i: nat)
    requires i <= |allocations|
    ensures InitialSum(allocations[..i]) <= InitialSum(allocations)
    decreases |allocations| - i
  {
    if i < |allocations| {
      InitialPrefix(allocations, i + 1);
      assert allocations[..i + 1][..i] == allocations[..i];
    } else {
      assert allocations[..i] == allocations;
    }
  }

  // ---------- FromConfig ----------

  datatype Config = Config(allocations: seq<Allocation>, initialStakedFunds: seq<Address>, stakers: nat)

  datatype Holder = Holder(amount: Uint64, address: Address)

  /** A UTXO of the platform chain; its message is the Ethereum address. */
  datatype Output = Output(locktime: Uint64, amount: Uint64, address: Address, message: Address)

  /** What is handed out: on the X-chain, unlocked on the P-chain, and staked for each staker. */
  datatype Tokens = Tokens(holders: seq<Holder>, outputs: seq<Output>, stakes: seq<seq<Output>>)

  /** What becomes of a configuration; NoWeight is the error for a validator without stake. */
  datatype Outcome = Built(tokens: Tokens) | SupplyOverflow | NoWeight | Panic

  function OutputCoins(outputs: seq<Output>): seq<Coin> {
    if outputs == [] then []
    else
      var last := outputs[|outputs| - 1];
      OutputCoins(outputs[..|outputs| - 1])
        + Copies(Coin(last.message, last.address, last.locktime), last.amount as int)
  }

  lemma OutputAppend(outputs: seq<Output>, o: Output)
    ensures OutputCoins(outputs + [o])
              == OutputCoins(outputs) + Copies(Coin(o.message, o.address, o.locktime), o.amount as int)
  {
    assert (outputs + [o])[..|outputs|] == outputs;
  }

  function HolderSum(holders: seq<Holder>): nat {
    if holders == [] then 0 else HolderSum(holders[..|holders| - 1]) + holders[|holders| - 1].amount as int
  }

  function StakeCoins(stakes: seq<seq<Output>>): seq<Coin> {
    if stakes == [] then [] else StakeCoins(stakes[..|stakes| - 1]) + OutputCoins(stakes[|stakes| - 1])
  }

  /** The allocations whose address is, or is not, staked. */
  function Select(allocations: seq<Allocation>, staked: set<Address>, which: bool): seq<Allocation> {
    if allocations == [] then []
    else
      var last, before := allocations[|allocations| - 1], Select(allocations[..|allocations| - 1], staked, which);
      if (last.avaxAddr in staked) == which then before + [last] else before
  }

  /** Every locked coin is among the staked or among the others. */
  lemma {:induction false} SelectCoins(allocations: seq<Allocation>, staked: set<Address>)
    ensures multiset(AllCoins(allocations)) ==
            multiset(AllCoins(Select(allocations, staked, true)))
              + multiset(AllCoins(Select(allocations, staked, false)))
  {
    if allocations != [] {
      var n := |allocations| - 1;
      SelectCoins(allocations[..n], staked);
      AllAppend(Select(allocations[..n], staked, true), allocations[n]);
      AllAppend(Select(allocations[..n], staked, false), allocations[n]);
    }
  }

  /** One output for each of these locked amounts, without those of nothing if so wanted. */
  function OutputsFor(eth: Address, avax: Address, unlocks: seq<LockedAmount>, skipZero: bool): seq<Output> {
    if unlocks == [] then []
    else
      var u, before := unlocks[|unlocks| - 1], OutputsFor(eth, avax, unlocks[..|unlocks| - 1], skipZero);
      if skipZero && u.amount == 0 then before else before + [Output(u.locktime, u.amount, avax, eth)]
  }

  function AllOutputs(allocations: seq<Allocation>, skipZero: bool): seq<Output> {
    if allocations == [] then []
    else
      var a := allocations[|allocations| - 1];
      AllOutputs(allocations[..|allocations| - 1], skipZero)
        + OutputsFor(a.ethAddr, a.avaxAddr, a.unlockSchedule, skipZero)
  }

  /** The outputs for one allocation. */
  method AllocationOutputs(a: Allocation, skipZero: bool) returns (outputs: seq<Output>)
    ensures outputs == OutputsFor(a.ethAddr, a.avaxAddr, a.unlockSchedule, skipZero)
    ensures OutputCoins(outputs) == CoinsOf(a)
    ensures skipZero ==> forall i :: 0 <= i < |outputs| ==> outputs[i].amount > 0
  {
    outputs := [];
    for j := 0 to |a.unlockSchedule|
      invariant outputs == OutputsFor(a.ethAddr, a.avaxAddr, a.unlockSchedule[..j], skipZero)
      invariant OutputCoins(outputs) == ScheduleCoins(a.ethAddr, a.avaxAddr, a.unlockSchedule[..j])
      invariant skipZero ==> forall i :: 0 <= i < |outputs| ==> outputs[i].amount > 0
    {
      var u := a.unlockSchedule[j];
      assert a.unlockSchedule[..j + 1] == a.unlockSchedule[..j] + [u];
      assert a.unlockSchedule[..j + 1][..j] == a.unlockSchedule[..j];
      ScheduleAppend(a.ethAddr, a.avaxAddr, a.unlockSchedule[..j], u);
      if u.amount > 0 || !skipZero {
        OutputAppend(outputs, Output(u.locktime, u.amount, a.avaxAddr, a.ethAddr));
        outputs := outputs + [Output(u.locktime, u.amount, a.avaxAddr, a.ethAddr)];
      }
    }
    assert a.unlockSchedule[..|a.unlockSchedule|] == a.unlockSchedule;
  }

  lemma {:induction false} OutputConcat(a: seq<Output>, b: seq<Output>)
    ensures OutputCoins(a + b) == OutputCoins(a) + OutputCoins(b)
  {
    if b == [] {
      assert a + b == a;
    } else {
      var n := |b| - 1;
      OutputConcat(a, b[..n]);
      assert (a + b)[..|a + b| - 1] == a + b[..n] && (a + b)[|a + b| - 1] == b[n];
      Associative(OutputCoins(a), OutputCoins(b[..n]),
                  Copies(Coin(b[n].message, b[n].address, b[n].locktime), b[n].amount as int));
    }
  }

  /** The outputs of the allocations that are not staked; the others are put aside. */
  method UnstakedOutputs(allocations: seq<Allocation>, staked: set<Address>)
    returns (outputs: seq<Output>, skipped: seq<Allocation>)
    ensures outputs == AllOutputs(Select(allocations, staked, false), true)
            && skipped == Select(allocations, staked, true)
    ensures OutputCoins(outputs) == AllCoins(Select(allocations, staked, false))
    ensures forall i :: 0 <= i < |outputs| ==> outputs[i].amount > 0
  {
    outputs, skipped := [], [];
    for i := 0 to |allocations|
      invariant outputs == AllOutputs(Select(allocations[..i], staked, false), true)
                && skipped == Select(allocations[..i], staked, true)
      invariant OutputCoins(outputs) == AllCoins(Select(allocations[..i], staked, false))
      invariant forall i :: 0 <= i < |outputs| ==> outputs[i].amount > 0
    {
      var a := allocations[i];
      assert allocations[..i + 1][..i] == allocations[..i];
      if a.avaxAddr in staked {
        skipped := skipped + [a];
        continue;
      }
      AllAppend(Select(allocations[..i], staked, false), a);
      OutputsAppend(Select(allocations[..i], staked, false), a, true);
      var more := AllocationOutputs(a, true);
      OutputConcat(outputs, more);
      outputs := outputs + more;
    }
    assert allocations[..|allocations|] == allocations;
  }

  lemma OutputsAppend(allocations: seq<Allocation>, a: Allocation, skipZero: bool)
    ensures AllOutputs(allocations + [a], skipZero)
              == AllOutputs(allocations, skipZero) + OutputsFor(a.ethAddr, a.avaxAddr, a.unlockSchedule, skipZero)
  {
    assert (allocations + [a])[..|allocations|] == allocations;
  }

  method StakeOutputs(part: seq<Allocation>) returns (outputs: seq<Output>)
    ensures outputs == AllOutputs(part, false) && OutputCoins(outputs) == AllCoins(part)
  {
    outputs := [];
    for i := 0 to |part|
      invariant outputs == AllOutputs(part[..i], false) && OutputCoins(outputs) == AllCoins(part[..i])
    {
      NextAllocation(part, i);
      assert part[..i + 1] == part[..i] + [part[i]];
      OutputsAppend(part[..i], part[i], false);
      var more := AllocationOutputs(part[i], false);
      OutputConcat(outputs, more);
      outputs := outputs + more;
    }
    assert part[..|part|] == part;
  }

  /** By initial amount, then by address. */
  predicate NotAfter(a: Allocation, b: Allocation) {
    a.initialAmount < b.initialAmount || (a.initialAmount == b.initialAmount && a.avaxAddr <= b.avaxAddr)
  }

  ghost predicate IsSorted(s: seq<Allocation>) { forall i, j :: 0 <= i < j < |s| ==> NotAfter(s[i], s[j]) }

  function Positive(allocations: seq<Allocation>): seq<Allocation> {
    if allocations == [] then []
    else
      var last, before := allocations[|allocations| - 1], Positive(allocations[..|allocations| - 1]);
      if last.initialAmount > 0 then before + [last] else before
  }

  lemma InitialAppend(allocations: seq<Allocation>, a: Allocation)
    ensures InitialSum(allocations + [a]) == InitialSum(allocations) + a.initialAmount as int
  {
    assert (allocations + [a])[..|allocations|] == allocations;
  }

  lemma {:induction false} InitialConcat(a: seq<Allocation>, b: seq<Allocation>)
    ensures InitialSum(a + b) == InitialSum(a) + InitialSum(b)
  {
    if b == [] {
      assert a + b == a;
    } else {
      var n := |b| - 1;
      InitialConcat(a, b[..n]);
      assert b == b[..n] + [b[n]];
      assert a + b == (a + b[..n]) + [b[n]];
      InitialAppend(a + b[..n], b[n]);
    }
  }

  method PositiveAllocations(allocations: seq<Allocation>) returns (r: seq<Allocation>)
    ensures r == Positive(allocations) && InitialSum(r) == InitialSum(allocations)
  {
    r := [];
    for i := 0 to |allocations|
      invariant r == Positive(allocations[..i]) && InitialSum(r) == InitialSum(allocations[..i])
    {
      assert allocations[..i + 1][..i] == allocations[..i];
      if allocations[i].initialAmount > 0 {
        InitialAppend(r, allocations[i]);
        r := r + [allocations[i]];
      }
    }
    assert allocations[..|allocations|] == allocations;
  }

  method SortAllocations(allocations: seq<Allocation>) returns (sorted: seq<Allocation>)
    ensures IsSorted(sorted) && multiset(sorted) == multiset(allocations)
            && InitialSum(sorted) == InitialSum(allocations)
  {
    sorted := [];
    for i := 0 to |allocations|
      invariant IsSorted(sorted) && multiset(sorted) == multiset(allocations[..i])
                && InitialSum(sorted) == InitialSum(allocations[..i])
    {
      var a := allocations[i];
      assert allocations[..i + 1] == allocations[..i] + [a];
      InitialAppend(allocations[..i], a);
      sorted := InsertAllocation(sorted, a);
    }
    assert allocations[..|allocations|] == allocations;
  }

  method InsertAllocation(sorted: seq<Allocation>, a: Allocation) returns (next: seq<Allocation>)
    requires IsSorted(sorted)
    ensures IsSorted(next) && multiset(next) == multiset(sorted) + multiset{a}
            && InitialSum(next) == InitialSum(sorted) + a.initialAmount as int
  {
    var k := |sorted|;
    while k > 0 && !NotAfter(sorted[k - 1], a)
      invariant 0 <= k <= |sorted|
      invariant forall j :: k <= j < |sorted| ==> NotAfter(a, sorted[j])
    {
      k := k - 1;
    }
    var left, right := sorted[..k], sorted[k..];
    next := left + [a] + right;
    assert sorted == left + right;
    InsertedSum(left, a, right);
    InsertedSorted(left, a, right);
  }

  lemma InsertedSum(left: seq<Allocation>, a: Allocation, right: seq<Allocation>)
    ensures InitialSum(left + [a] + right) == InitialSum(left + right) + a.initialAmount as int
    ensures multiset(left + [a] + right) == multiset(left + right) + multiset{a}
  {
    InitialConcat(left, right);
    InitialAppend(left, a);
    InitialConcat(left + [a], right);
  }

  lemma InsertedSorted(left: seq<Allocation>, a: Allocation, right: seq<Allocation>)
    requires IsSorted(left + right) && (left != [] ==> NotAfter(left[|left| - 1], a))
    requires forall j :: 0 <= j < |right| ==> NotAfter(a, right[j])
    ensures IsSorted(left + [a] + right)
  {
    var s, next := left + right, left + [a] + right;
    forall i, j | 0 <= i < j < |next| ensures NotAfter(next[i], next[j]) {
      assert i < |left| ==> next[i] == s[i];
      assert i > |left| ==> next[i] == s[i - 1];
      assert j < |left| ==> next[j] == s[j];
      assert j > |left| ==> next[j] == s[j - 1];
      if j == |left| && i < |left| - 1 { assert NotAfter(s[i], s[|left| - 1]); }
    }
  }

  /** The holders stand in the order of their amounts, those of the same amount in the order of their
      addresses. */
  ghost predicate Ascending(holders: seq<Holder>) {
    forall i, j :: 0 <= i < j < |holders| ==>
      && holders[i].amount <= holders[j].amount
      && (holders[i].amount == holders[j].amount ==> holders[i].address <= holders[j].address)
  }

  /** The holders of the X-chain: one for each positive initial amount. */
  method HoldersOf(allocations: seq<Allocation>) returns (holders: seq<Holder>, ghost sorted: seq<Allocation>)
    ensures IsSorted(sorted) && multiset(sorted) == multiset(Positive(allocations)) && |holders| == |sorted|
    ensures forall i :: 0 <= i < |holders| ==> holders[i] == Holder(sorted[i].initialAmount, sorted[i].avaxAddr)
    ensures Ascending(holders) && HolderSum(holders) == InitialSum(allocations)
  {
    var positive := PositiveAllocations(allocations);
    var xs := SortAllocations(positive);
    sorted := xs;
    holders := [];
    for i := 0 to |xs|
      invariant |holders| == i && HolderSum(holders) == InitialSum(xs[..i])
      invariant forall j :: 0 <= j < i ==> holders[j] == Holder(xs[j].initialAmount, xs[j].avaxAddr)
    {
      assert xs[..i + 1][..i] == xs[..i];
      var h := Holder(xs[i].initialAmount, xs[i].avaxAddr);
      assert (holders + [h])[..|holders|] == holders;
      holders := holders + [h];
    }
    assert xs[..|xs|] == xs;
    SortedAscends(holders, xs);
  }

  lemma SortedAscends(holders: seq<Holder>, sorted: seq<Allocation>)
    requires IsSorted(sorted) && |holders| == |sorted|
    requires forall i :: 0 <= i < |holders| ==> holders[i] == Holder(sorted[i].initialAmount, sorted[i].avaxAddr)
    ensures Ascending(holders)
  {
    forall i, j | 0 <= i < j < |holders|
      ensures && holders[i].amount <= holders[j].amount
              && (holders[i].amount == holders[j].amount ==> holders[i].address <= holders[j].address)
    {
      assert NotAfter(sorted[i], sorted[j]);
    }
  }

  /** Each staker gets a piece of the staked coins. */
  ghost predicate AreStakes(stakes: seq<seq<Output>>, coins: seq<Coin>, weight: nat) {
    forall i :: 0 <= i < |stakes| ==> IsStake(stakes[i], coins, i, weight, i == |stakes| - 1)
  }

  ghost predicate IsStake(stake: seq<Output>, coins: seq<Coin>, i: nat, weight: nat, last: bool) {
    if last then i * weight <= |coins| && OutputCoins(stake) == coins[i * weight..]
    else i * weight + weight <= |coins| && OutputCoins(stake) == coins[i * weight..i * weight + weight]
  }

  /** Output by output, what staker `k` gets of the staked amounts. */
  ghost predicate HaveEntries(stakes: seq<seq<Output>>, us: seq<Output>, weight: nat) {
    forall k :: 0 <= k < |stakes| ==> stakes[k] == Entries(us, k, weight, |stakes|)
  }

  /** The weight of a validator, if it fits. */
  method Weight(stake: seq<Output>) returns (w: Option<Uint64>)
    ensures w.Some? <==> |OutputCoins(stake)| < 0x1_0000_0000_0000_0000
    ensures w.Some? ==> w.value as int == |OutputCoins(stake)|
  {
    var weight: Uint64 := 0;
    for i := 0 to |stake|
      invariant weight as int == |OutputCoins(stake[..i])|
    {
      assert stake[..i + 1] == stake[..i] + [stake[i]];
      OutputAppend(stake[..i], stake[i]);
      OutputPrefix(stake, i + 1);
      var next := Add64(weight, stake[i].amount);
      if next.None? { return None; }
      weight := next.value;
    }
    assert stake[..|stake|] == stake;
    return Some(weight);
  }

  lemma {:induction false} OutputPrefix(outputs: seq<Output>, i: nat)
    requires i <= |outputs|
    ensures |OutputCoins(outputs[..i])| <= |OutputCoins(outputs)|
    decreases |outputs| - i
  {
    if i < |outputs| {
      OutputPrefix(outputs, i + 1);
      assert outputs[..i + 1][..i] == outputs[..i];
    } else {
      assert outputs[..i] == outputs;
    }
  }

  /** Whether every validator has a weight, as it does exactly if there are as many coins as validators. */
  method HaveWeight(stakes: seq<seq<Output>>, ghost coins: seq<Coin>, ghost share: nat) returns (ok: bool)
    requires stakes != [] && AreStakes(stakes, coins, share) && share == |coins| / |stakes|
             && |coins| < 0x1_0000_0000_0000_0000
    ensures ok <==> |coins| >= |stakes|
  {
    StakesFit(stakes, coins, share);
    EnoughStake(stakes, coins, share);
    for i := 0 to |stakes|
      invariant forall j :: 0 <= j < i ==> OutputCoins(stakes[j]) != []
    {
      var w := Weight(stakes[i]);
      if w.value == 0 { return false; }
    }
    return true;
  }

  /** Some validator goes without exactly if there are fewer coins than validators. */
  lemma EnoughStake(stakes: seq<seq<Output>>, coins: seq<Coin>, weight: nat)
    requires stakes != [] && AreStakes(stakes, coins, weight) && weight == |coins| / |stakes|
    ensures (forall i :: 0 <= i < |stakes| ==> OutputCoins(stakes[i]) != []) <==> |coins| >= |stakes|
  {
    var n := |stakes|;
    Shares(|coins|, n, weight);
    assert IsStake(stakes[0], coins, 0, weight, n == 1);
    if |coins| >= n {
      forall i | 0 <= i < n ensures OutputCoins(stakes[i]) != [] {
        assert IsStake(stakes[i], coins, i, weight, i == n - 1);
      }
    }
  }

  lemma Shares(total: nat, n: nat, weight: nat)
    requires n >= 1 && weight == total / n
    ensures weight > 0 <==> total >= n
    ensures total >= n ==> (n - 1) * weight < total
  {
    Quotient(total, n);
    MulStep(n - 1, weight);
  }

  /** The genesis hands out the whole supply, each locked coin in one place: on the P-chain if its
      address is not staked, else in the stake that its position falls into. It cannot be built if the
      supply overflows, or if there are fewer coins to stake than stakers; it panics without stakers, or if
      several stakers have nothing to share. */
  method FromConfig(c: Config) returns (r: Outcome, ghost sorted: seq<Allocation>)
    requires c.stakers < 0x1_0000_0000_0000_0000
    ensures r.SupplyOverflow? <==> Supply(c.allocations) >= 0x1_0000_0000_0000_0000
    ensures r.Panic? <==> !r.SupplyOverflow? && (c.stakers == 0 || (c.stakers > 1 && StakedCoins(c) == []))
    ensures r.NoWeight? <==> !r.SupplyOverflow? && !r.Panic? && |StakedCoins(c)| < c.stakers
    ensures r.Built? ==>
              HolderSum(r.tokens.holders) + |OutputCoins(r.tokens.outputs)| + |StakeCoins(r.tokens.stakes)| ==
              Supply(c.allocations)
    ensures r.Built? ==>
              multiset(AllCoins(c.allocations)) ==
              multiset(OutputCoins(r.tokens.outputs)) + multiset(StakeCoins(r.tokens.stakes))
    ensures r.Built? ==> OutputCoins(r.tokens.outputs) == AllCoins(Select(c.allocations, StakedSet(c), false))
    ensures r.Built? ==> r.tokens.outputs == AllOutputs(Select(c.allocations, StakedSet(c), false), true)
    ensures r.Built? ==> forall i :: 0 <= i < |r.tokens.outputs| ==> r.tokens.outputs[i].amount > 0
    ensures r.Built? ==>
              && |r.tokens.stakes| == c.stakers > 0
              && AreStakes(r.tokens.stakes, StakedCoins(c), |StakedCoins(c)| / c.stakers)
              && HaveEntries(r.tokens.stakes, StakedOutputs(c), |StakedCoins(c)| / c.stakers)
    ensures r.Built? ==>
              && IsSorted(sorted) && multiset(sorted) == multiset(Positive(c.allocations))
              && |r.tokens.holders| == |sorted|
    ensures r.Built? ==>
              forall i :: 0 <= i < |sorted| ==>
                r.tokens.holders[i] == Holder(sorted[i].initialAmount, sorted[i].avaxAddr)
    ensures r.Built? ==> Ascending(r.tokens.holders)
  {
    var holders;
    holders, sorted := HoldersOf(c.allocations);
    var supply := InitialSupply(c.allocations);
    if supply.None? { return SupplyOverflow, sorted; }
    SelectCoins(c.allocations, StakedSet(c));
    SelectCounts(AllCoins(c.allocations), StakedCoins(c), AllCoins(Select(c.allocations, StakedSet(c), false)));
    var outputs, skipped := UnstakedOutputs(c.allocations, StakedSet(c));
    var stakes, share := StakeParts(skipped, c.stakers);
    if stakes.None? { return Panic, sorted; }
    var ok := HaveWeight(stakes.value, StakedCoins(c), share);
    r := if ok then Built(Tokens(holders, outputs, stakes.value)) else NoWeight;
  }

  /** The stakes of all stakers; without stakers, or with several and nothing to share, there is no part
      for some of them. */
  method StakeParts(skipped: seq<Allocation>, stakers: nat) returns (r: Option<seq<seq<Output>>>, ghost share: nat)
    requires stakers < 0x1_0000_0000_0000_0000 && |AllCoins(skipped)| < 0x1_0000_0000_0000_0000
    ensures r.None? <==> stakers == 0 || (stakers > 1 && AllCoins(skipped) == [])
    ensures r.Some? ==> share == |AllCoins(skipped)| / stakers && |r.value| == stakers
    ensures r.Some? ==> AreStakes(r.value, AllCoins(skipped), share) && StakeCoins(r.value) == AllCoins(skipped)
    ensures r.Some? ==> HaveEntries(r.value, AllOutputs(skipped, true), share)
  {
    var parts;
    parts, share := SplitAllocations(skipped, stakers);
    if parts.None? || |parts.value| < stakers { return None, share; }
    var stakes := Stakes(parts.value);
    PartsAreStakes(parts.value, stakes, AllCoins(skipped), share);
    r := Some(stakes);
  }

  lemma PartsAreStakes(parts: seq<seq<Allocation>>, stakes: seq<seq<Output>>, coins: seq<Coin>, weight: nat)
    requires |stakes| == |parts| && IsSplit(parts, coins, weight)
    requires forall i :: 0 <= i < |parts| ==> OutputCoins(stakes[i]) == AllCoins(parts[i])
    ensures AreStakes(stakes, coins, weight)
  {
    forall i | 0 <= i < |stakes| ensures IsStake(stakes[i], coins, i, weight, i == |stakes| - 1) {
      assert i < |parts| - 1 ==> IsPiece(parts[i], coins, i, weight);
    }
  }

  lemma SelectCounts(all: seq<Coin>, staked: seq<Coin>, others: seq<Coin>)
    requires multiset(all) == multiset(staked) + multiset(others)
    ensures |all| == |staked| + |others|
  {
    assert |multiset(all)| == |all| && |multiset(staked)| == |staked| && |multiset(others)| == |others|;
  }

  lemma StakesFit(stakes: seq<seq<Output>>, coins: seq<Coin>, weight: nat)
    requires AreStakes(stakes, coins, weight)
    ensures forall i :: 0 <= i < |stakes| ==> |OutputCoins(stakes[i])| <= |coins|
  {
    forall i | 0 <= i < |stakes| ensures |OutputCoins(stakes[i])| <= |coins| {
      assert IsStake(stakes[i], coins, i, weight, i == |stakes| - 1);
    }
  }

  function StakedSet(c: Config): set<Address> { set a | a in c.initialStakedFunds }

  function StakedOutputs(c: Config): seq<Output> { AllOutputs(Select(c.allocations, StakedSet(c), true), true) }

  function StakedCoins(c: Config): seq<Coin> { AllCoins(Select(c.allocations, StakedSet(c), true)) }

  lemma NextPart(parts: seq<seq<Allocation>>, i: nat)
    requires i < |parts|
    ensures Flatten(parts[..i + 1]) == Flatten(parts[..i]) + AllCoins(parts[i])
  {
    assert parts[..i + 1] == parts[..i] + [parts[i]];
    FlattenAppend(parts[..i], parts[i]);
  }

  lemma StakeAppend(stakes: seq<seq<Output>>, stake: seq<Output>)
    ensures StakeCoins(stakes + [stake]) == StakeCoins(stakes) + OutputCoins(stake)
  {
    assert (stakes + [stake])[..|stakes|] == stakes;
  }

  method Stakes(parts: seq<seq<Allocation>>) returns (stakes: seq<seq<Output>>)
    ensures |stakes| == |parts| && StakeCoins(stakes) == Flatten(parts)
    ensures forall i :: 0 <= i < |parts| ==> OutputCoins(stakes[i]) == AllCoins(parts[i])
    ensures forall i :: 0 <= i < |parts| ==> stakes[i] == AllOutputs(parts[i], false)
  {
    stakes := [];
    for i := 0 to |parts|
      invariant |stakes| == i && StakeCoins(stakes) == Flatten(parts[..i])
      invariant StakesOf(stakes, parts, i)
    {
      var stake := StakeOutputs(parts[i]);
      NextPart(parts, i);
      StakeAppend(stakes, stake);
      NextStake(stakes, parts, stake);
      stakes := stakes + [stake];
    }
    assert parts[..|parts|] == parts;
  }

  ghost predicate StakesOf(stakes: seq<seq<Output>>, parts: seq<seq<Allocation>>, n: nat) {
    && n <= |stakes| && n <= |parts|
    && forall i :: 0 <= i < n ==>
         OutputCoins(stakes[i]) == AllCoins(parts[i]) && stakes[i] == AllOutputs(parts[i], false)
  }

  lemma NextStake(stakes: seq<seq<Output>>, parts: seq<seq<Allocation>>, stake: seq<Output>)
    requires StakesOf(stakes, parts, |stakes|) && |stakes| < |parts| && OutputCoins(stake) == AllCoins(parts[|stakes|])
             && stake == AllOutputs(parts[|stakes|], false)
    ensures StakesOf(stakes + [stake], parts, |stakes| + 1)
  {
  }

  // ---------- in amounts ----------

  /** What an owner has locked until a time. */
  function LockedUntil(unlocks: seq<LockedAmount>, locktime: Uint64): nat {
    if unlocks == [] then 0
    else
      var last := unlocks[|unlocks| - 1];
      LockedUntil(unlocks[..|unlocks| - 1], locktime) + if last.locktime == locktime then last.amount as int else 0
  }

  function LockedFor(allocations: seq<Allocation>, c: Coin): nat {
    if allocations == [] then 0
    else
      var last := allocations[|allocations| - 1];
      LockedFor(allocations[..|allocations| - 1], c)
        + if last.ethAddr == c.ethAddr && last.avaxAddr == c.avaxAddr then LockedUntil(last.unlockSchedule, c.locktime)
          else 0
  }

  /** What a list of outputs pays to an owner at a time. */
  function PaidFor(outputs: seq<Output>, c: Coin): nat {
    if outputs == [] then 0
    else
      var last := outputs[|outputs| - 1];
      PaidFor(outputs[..|outputs| - 1], c)
        + if Coin(last.message, last.address, last.locktime) == c then last.amount as int else 0
  }

  function StakedFor(stakes: seq<seq<Output>>, c: Coin): nat {
    if stakes == [] then 0 else StakedFor(stakes[..|stakes| - 1], c) + PaidFor(stakes[|stakes| - 1], c)
  }

  lemma {:induction false} CopiesCount(c: Coin, n: nat, d: Coin)
    ensures multiset(Copies(c, n))[d] == if c == d then n else 0
  {
    if n > 0 { CopiesCount(c, n - 1, d); }
  }

  lemma {:induction false} ScheduleCount(eth: Address, avax: Address, unlocks: seq<LockedAmount>, c: Coin)
    ensures multiset(ScheduleCoins(eth, avax, unlocks))[c] ==
            if eth == c.ethAddr && avax == c.avaxAddr then LockedUntil(unlocks, c.locktime) else 0
  {
    if unlocks != [] {
      var last := unlocks[|unlocks| - 1];
      ScheduleCount(eth, avax, unlocks[..|unlocks| - 1], c);
      CopiesCount(Coin(eth, avax, last.locktime), last.amount as int, c);
    }
  }

  lemma {:induction false} AllCount(allocations: seq<Allocation>, c: Coin)
    ensures multiset(AllCoins(allocations))[c] == LockedFor(allocations, c)
  {
    if allocations != [] {
      var last := allocations[|allocations| - 1];
      AllCount(allocations[..|allocations| - 1], c);
      ScheduleCount(last.ethAddr, last.avaxAddr, last.unlockSchedule, c);
    }
  }

  lemma {:induction false} OutputCount(outputs: seq<Output>, c: Coin)
    ensures multiset(OutputCoins(outputs))[c] == PaidFor(outputs, c)
  {
    if outputs != [] {
      var last := outputs[|outputs| - 1];
      OutputCount(outputs[..|outputs| - 1], c);
      CopiesCount(Coin(last.message, last.address, last.locktime), last.amount as int, c);
    }
  }

  lemma {:induction false} StakeCount(stakes: seq<seq<Output>>, c: Coin)
    ensures multiset(StakeCoins(stakes))[c] == StakedFor(stakes, c)
  {
    if stakes != [] {
      StakeCount(stakes[..|stakes| - 1], c);
      OutputCount(stakes[|stakes| - 1], c);
    }
  }

  lemma PaidCount(allocations: seq<Allocation>, outputs: seq<Output>, stakes: seq<seq<Output>>, c: Coin)
    ensures multiset(AllCoins(allocations))[c] == LockedFor(allocations, c)
    ensures (multiset(OutputCoins(outputs)) + multiset(StakeCoins(stakes)))[c] ==
            PaidFor(outputs, c) + StakedFor(stakes, c)
  {
    AllCount(allocations, c);
    OutputCount(outputs, c);
    StakeCount(stakes, c);
  }

  ghost predicate IsPaid(allocations: seq<Allocation>, outputs: seq<Output>, stakes: seq<seq<Output>>, c: Coin) {
    LockedFor(allocations, c) == PaidFor(outputs, c) + StakedFor(stakes, c)
  }

  /** Tokens hand out the coins of the allocations exactly when every owner is paid, at every time, what is
      locked for it until then. */
  lemma PaidInFull(allocations: seq<Allocation>, outputs: seq<Output>, stakes: seq<seq<Output>>)
    ensures multiset(AllCoins(allocations)) == multiset(OutputCoins(outputs)) + multiset(StakeCoins(stakes)) <==>
            forall c :: IsPaid(allocations, outputs, stakes, c)
  {
    var all, paid := multiset(AllCoins(allocations)), multiset(OutputCoins(outputs)) + multiset(StakeCoins(stakes));
    forall c ensures all[c] == paid[c] <==> IsPaid(allocations, outputs, stakes, c) {
      PaidCount(allocations, outputs, stakes, c);
    }
    SameMultiset(all, paid);
  }

  lemma SameMultiset(a: multiset<Coin>, b: multiset<Coin>)
    ensures a == b <==> forall c :: a[c] == b[c]
  {
  }
}
