/** The two registries of concrete types, codec/linearcodec/codec.go and
    codec/hierarchycodec/codec.go, over the bidirectional map of utils/bimap/bimap.go. */
module Registries {
  import opened Basics
  import opened ByteStrings
  import opened Codec
  import opened Packing
  import Laws = CodecLaws

  // ---------- utils/bimap ----------

  class BiMap<K(==), V(==)> {
    var keyToValue: map<K, V>
    var valueToKey: map<V, K>

    /** The two maps are inverse to each other. */
    ghost predicate Valid()
      reads this
    {
      && (forall k :: k in keyToValue ==> keyToValue[k] in valueToKey && valueToKey[keyToValue[k]] == k)
      && (forall v :: v in valueToKey ==> valueToKey[v] in keyToValue && keyToValue[valueToKey[v]] == v)
    }

    constructor ()
      ensures Valid() && keyToValue == map[] && valueToKey == map[]
    {
      keyToValue, valueToKey := map[], map[];
    }

    method DeleteKey(key: K) returns (deleted: Option<V>)
      requires Valid()
      modifies this
      ensures deleted == if key in old(keyToValue) then Some(old(keyToValue)[key]) else None
      ensures Valid() && keyToValue == old(keyToValue) - {key}
      ensures valueToKey == map v | v in old(valueToKey) && old(valueToKey)[v] != key :: old(valueToKey)[v]
    {
      if key in keyToValue {
        var val := keyToValue[key];
        keyToValue := keyToValue - {key};
        valueToKey := valueToKey - {val};
        return Some(val);
      }
      deleted := None;
    }

    method DeleteValue(val: V) returns (deleted: Option<K>)
      requires Valid()
      modifies this
      ensures deleted == if val in old(valueToKey) then Some(old(valueToKey)[val]) else None
      ensures Valid() && valueToKey == old(valueToKey) - {val}
      ensures keyToValue == map k | k in old(keyToValue) && old(keyToValue)[k] != val :: old(keyToValue)[k]
    {
      if val in valueToKey {
        var key := valueToKey[val];
        keyToValue := keyToValue - {key};
        valueToKey := valueToKey - {val};
        return Some(key);
      }
      deleted := None;
    }

    /** Whatever was paired with the key or with the value before is dropped, and returned. */
    method Put(key: K, val: V) returns (removed: seq<(K, V)>)
      requires Valid()
      modifies this
      ensures Valid()
      ensures keyToValue == Without(old(keyToValue), key, val)[key := val]
      ensures valueToKey == Without(old(valueToKey), val, key)[val := key]
      ensures forall k, v :: (k, v) in removed
                <==> k in old(keyToValue) && old(keyToValue)[k] == v && (k == key || v == val)
      ensures |removed| <= 2 && (|removed| == 2 ==> removed[0] != removed[1])
    {
      removed := [];
      var oldVal := DeleteKey(key);
      if oldVal.Some? {
        removed := removed + [(key, oldVal.value)];
      }
      var oldKey := DeleteValue(val);
      if oldKey.Some? {
        removed := removed + [(oldKey.value, val)];
      }
      keyToValue := keyToValue[key := val];
      valueToKey := valueToKey[val := key];
    }
  }

  /** The entries of `m` that have neither this key nor this value. */
  function Without<K, V(==)>(m: map<K, V>, key: K, val: V): map<K, V> {
    map k | k in m && k != key && m[k] != val :: m[k]
  }

  // ---------- registries as values ----------

  /** A registry of concrete types under IDs of type `I`. */
  datatype Registry<I(==)> = Registry(ids: map<Type, I>, types: map<I, Type>) {
    ghost predicate Bijective() {
      && (forall t :: t in ids ==> ids[t] in types && types[ids[t]] == t)
      && (forall id :: id in types ==> types[id] in ids && ids[types[id]] == id)
    }

    /** Pairs `t` with `id`; whoever had that ID loses it. */
    function Put(id: I, t: Type): Registry<I> {
      Registry(Without(ids, t, id)[t := id], Without(types, id, t)[id := t])
    }

    /** Every type that `this` knows has the same ID in `other`. */
    ghost predicate KeptBy(other: Registry<I>) {
      forall t :: t in ids ==> t in other.ids && other.ids[t] == ids[t]
    }
  }

  lemma PutKeepsBijective<I>(r: Registry<I>, id: I, t: Type)
    requires r.Bijective()
    ensures r.Put(id, t).Bijective()
  {
  }

  /** Registering a new type leaves the IDs of all others alone exactly when its ID is free. */
  lemma PutEvictsIffTaken<I>(r: Registry<I>, id: I, t: Type)
    requires r.Bijective() && t !in r.ids
    ensures r.KeptBy(r.Put(id, t)) <==> id !in r.types
  {
    var s := r.Put(id, t);
    if id in r.types {
      var u := r.types[id];
      assert u in r.ids && r.ids[u] == id && u != t;
      assert u !in s.ids;
    }
  }


  // ---------- codec/linearcodec ----------

  datatype Linear = Linear(next: nat, reg: Registry<nat>) {
    ghost predicate Valid() { next < 0x1_0000_0000 && reg.Bijective()
                             && forall id :: id in reg.types ==> id < 0x1_0000_0000 }

    function RegisterType(t: Type): Linear {
      if t in reg.ids then this else Linear((next + 1) % 0x1_0000_0000, reg.Put(next, t))
    }

    function SkipRegistrations(num: int): Linear { this.(next := (next + num) % 0x1_0000_0000) }
  }

  datatype LinearOp = Register(t: Type) | Skip(num: int)

  function LinearRun(c: Linear, ops: seq<LinearOp>): Linear
    decreases |ops|
  {
    if ops == [] then c
    else
      var d := match ops[0] case Register(t) => c.RegisterType(t) case Skip(num) => c.SkipRegistrations(num);
      LinearRun(d, ops[1..])
  }

  /** Whatever is registered and skipped, even past the end of the 32-bit IDs, IDs and types stay
      in one-to-one correspondence. */
  lemma {:induction false} LinearStaysValid(c: Linear, ops: seq<LinearOp>)
    requires c.Valid()
    ensures LinearRun(c, ops).Valid()
    decreases |ops|
  {
    if ops != [] {
      match ops[0]
      case Register(t) =>
        PutKeepsBijective(c.reg, c.next, t);
        LinearStaysValid(c.RegisterType(t), ops[1..]);
      case Skip(num) =>
        LinearStaysValid(c.SkipRegistrations(num), ops[1..]);
    }
  }

  /** Starting at `n`, the operations use only IDs below 2^32 and never move backwards. */
  ghost predicate WithinRange(n: nat, ops: seq<LinearOp>)
    decreases |ops|
  {
    ops != [] ==>
      match ops[0]
      case Register(_) => n < 0x1_0000_0000 && WithinRange(n + 1, ops[1..])
      case Skip(num) => num >= 0 && WithinRange(n + num, ops[1..])
  }

  /** While the IDs have not run out, a type keeps the ID it was given. */
  lemma {:induction false} LinearKeepsIDs(c: Linear, n: nat, ops: seq<LinearOp>)
    requires c.Valid() && c.next == n % 0x1_0000_0000 && (forall id :: id in c.reg.types ==> id < n)
             && WithinRange(n, ops)
    ensures c.reg.KeptBy(LinearRun(c, ops).reg)
    decreases |ops|
  {
    if ops != [] {
      match ops[0]
      case Register(t) =>
        PutKeepsBijective(c.reg, c.next, t);
        if t in c.reg.ids {
          WithinMore(n + 1, n, ops[1..]);
          LinearKeepsIDs(c, n, ops[1..]);
        } else {
          PutEvictsIffTaken(c.reg, c.next, t);
          LinearKeepsIDs(c.RegisterType(t), n + 1, ops[1..]);
        }
      case Skip(num) =>
        LinearKeepsIDs(c.SkipRegistrations(num), n + num, ops[1..]);
    }
  }

  lemma {:induction false} WithinMore(n: nat, m: nat, ops: seq<LinearOp>)
    requires m <= n && WithinRange(n, ops)
    ensures WithinRange(m, ops)
    decreases |ops|
  {
    if ops != [] {
      match ops[0]
      case Register(_) => WithinMore(n + 1, m + 1, ops[1..]);
      case Skip(num) => WithinMore(n + num, m + num, ops[1..]);
    }
  }

  const NoLinear := Linear(0, Registry(map[], map[]))

  function LinearStep(c: Linear, op: LinearOp): Linear {
    match op
    case Register(t) => c.RegisterType(t)
    case Skip(num) => c.SkipRegistrations(num)
  }

  lemma {:induction false} LinearRunOn(c: Linear, ops: seq<LinearOp>, op: LinearOp)
    ensures LinearRun(c, ops + [op]) == LinearStep(LinearRun(c, ops), op)
    decreases |ops|
  {
    if ops == [] {
      assert ([] + [op])[1..] == [];
    } else {
      assert (ops + [op])[1..] == ops[1..] + [op];
      LinearRunOn(LinearStep(c, ops[0]), ops[1..], op);
    }
  }

  /** Operation `i` registers its type for the first time. */
  predicate IsFirst(ops: seq<LinearOp>, i: nat)
    requires i < |ops|
  {
    ops[i].Register? && forall j :: 0 <= j < i ==> ops[j] != ops[i]
  }

  /** The number of types registered by the first `i` operations, and of IDs skipped. */
  function Used(ops: seq<LinearOp>, i: nat): int
    requires i <= |ops|
  {
    if i == 0 then 0
    else Used(ops, i - 1) + if ops[i - 1].Skip? then ops[i - 1].num else if IsFirst(ops, i - 1) then 1 else 0
  }

  /** IDs do not run out: none is given away beyond 32 bits. */
  ghost predicate Enough(ops: seq<LinearOp>) {
    forall i :: 0 <= i < |ops| ==> EnoughAt(ops, i)
  }

  ghost predicate EnoughAt(ops: seq<LinearOp>, i: nat)
    requires i < |ops|
  {
    (ops[i].Skip? ==> ops[i].num >= 0) && (IsFirst(ops, i) ==> Used(ops, i) < 0x1_0000_0000)
  }

  /** The type that operation `j` registers for the first time has this ID. */
  ghost predicate HasID(ops: seq<LinearOp>, j: nat, ids: map<Type, nat>)
    requires j < |ops|
  {
    IsFirst(ops, j) ==> ops[j].t in ids && ids[ops[j].t] == Used(ops, j)
  }

  /** The type is registered by one of the first `k` operations. */
  ghost predicate Asked(ops: seq<LinearOp>, k: nat, t: Type)
    requires k <= |ops|
  {
    exists j :: 0 <= j < k && ops[j] == Register(t)
  }

  /** The registry after the first `k` operations. */
  ghost predicate HasIDs(ops: seq<LinearOp>, k: nat, ids: map<Type, nat>)
    requires k <= |ops|
  {
    && (forall t :: t in ids ==> ids[t] < Used(ops, k))
    && (forall t :: t in ids <==> Asked(ops, k, t))
    && (forall j :: 0 <= j < k ==> HasID(ops, j, ids))
  }

  /** While IDs have not run out, a type has as its ID the number of types registered and of IDs skipped before it. */
  lemma LinearIDs(ops: seq<LinearOp>)
    requires Enough(ops)
    ensures HasIDs(ops, |ops|, LinearRun(NoLinear, ops).reg.ids)
  {
    IDsSoFar(ops, |ops|);
    assert ops[..|ops|] == ops;
  }

  lemma {:induction false} IDsSoFar(ops: seq<LinearOp>, k: nat)
    requires Enough(ops) && k <= |ops|
    ensures Used(ops, k) >= 0 && LinearRun(NoLinear, ops[..k]).next == Wrap32(Used(ops, k))
    ensures HasIDs(ops, k, LinearRun(NoLinear, ops[..k]).reg.ids) && LinearRun(NoLinear, ops[..k]).reg.Bijective()
  {
    if k > 0 {
      IDsSoFar(ops, k - 1);
      assert ops[..k] == ops[..k - 1] + [ops[k - 1]];
      LinearRunOn(NoLinear, ops[..k - 1], ops[k - 1]);
      IDsAfter(ops, k - 1, LinearRun(NoLinear, ops[..k - 1]));
    }
  }

  lemma IDsAfter(ops: seq<LinearOp>, k: nat, c: Linear)
    requires Enough(ops) && k < |ops| && Used(ops, k) >= 0 && c.next == Wrap32(Used(ops, k))
    requires HasIDs(ops, k, c.reg.ids) && c.reg.Bijective()
    ensures var d := LinearStep(c, ops[k]);
            && Used(ops, k + 1) >= 0 && d.next == Wrap32(Used(ops, k + 1))
            && HasIDs(ops, k + 1, d.reg.ids) && d.reg.Bijective()
  {
    MoreOps(ops, k);
    assert EnoughAt(ops, k);
    if ops[k].Skip? {
      Wrap32Add(Used(ops, k), ops[k].num);
    } else if IsFirst(ops, k) {
      NewType(ops, k, c.reg);
      Wrap32Add(Used(ops, k), 1);
      Wrap32Small(Used(ops, k));
    } else {
      var j :| 0 <= j < k && ops[j] == ops[k];
      assert ops[j] == Register(ops[k].t);
    }
  }

  lemma NewType(ops: seq<LinearOp>, k: nat, reg: Registry<nat>)
    requires k < |ops| && HasIDs(ops, k, reg.ids) && IsFirst(ops, k) && Used(ops, k) >= 0 && reg.Bijective()
    ensures ops[k].t !in reg.ids
    ensures var put := reg.Put(Used(ops, k), ops[k].t); HasIDs(ops, k + 1, put.ids) && put.Bijective()
  {
    var t, n := ops[k].t, Used(ops, k);
    assert ops[k] == Register(t);
    PutKeepsBijective(reg, n, t);
    PutFresh(reg, n, t);
    IDGiven(ops, k, reg.ids, reg.Put(n, t).ids, t, n);
  }

  lemma IDGiven(ops: seq<LinearOp>, k: nat, ids: map<Type, nat>, ids': map<Type, nat>, t: Type, n: nat)
    requires k < |ops| && HasIDs(ops, k, ids) && IsFirst(ops, k) && ops[k].t == t && Used(ops, k) == n && t !in ids
    requires ids' == ids[t := n]
    ensures HasIDs(ops, k + 1, ids')
  {
    MoreOps(ops, k);
    assert Used(ops, k + 1) == n + 1;
    forall j | 0 <= j < k + 1 ensures HasID(ops, j, ids') { StillHasID(ops, j, k, ids, ids', t, n); }
  }

  lemma StillHasID(ops: seq<LinearOp>, j: nat, k: nat, ids: map<Type, nat>, ids': map<Type, nat>, t: Type, n: nat)
    requires j <= k < |ops| && (j < k ==> HasID(ops, j, ids)) && t !in ids && ids' == ids[t := n]
    requires ops[k] == Register(t) && Used(ops, k) == n
    ensures HasID(ops, j, ids')
  {
  }

  lemma MoreOps(ops: seq<LinearOp>, k: nat)
    requires k < |ops|
    ensures forall t :: Asked(ops, k + 1, t) <==> Asked(ops, k, t) || ops[k] == Register(t)
  {
    forall t | Asked(ops, k, t) ensures Asked(ops, k + 1, t) {
      var j :| 0 <= j < k && ops[j] == Register(t);
      assert 0 <= j < k + 1;
    }
  }

  /** What remains of a number in 32 and in 16 bits. */
  function Wrap32(n: int): nat { n % 0x1_0000_0000 }

  function Wrap16(n: int): nat { n % 0x1_0000 }

  lemma Wrap32Small(n: nat)
    ensures n < 0x1_0000_0000 ==> Wrap32(n) == n
  {
  }

  lemma Wrap32Add(a: int, b: int)
    ensures (Wrap32(a) + b) % 0x1_0000_0000 == Wrap32(a + b)
  {
    var q, d, r := a / 0x1_0000_0000, (Wrap32(a) + b) / 0x1_0000_0000, (Wrap32(a) + b) % 0x1_0000_0000;
    assert a + b == (q + d) * 0x1_0000_0000 + r;
  }

  lemma Wrap16Add(a: int, b: int)
    ensures (Wrap16(a) + b) % 0x1_0000 == Wrap16(a + b)
  {
    var q, d, r := a / 0x1_0000, (Wrap16(a) + b) / 0x1_0000, (Wrap16(a) + b) % 0x1_0000;
    assert a + b == (q + d) * 0x1_0000 + r;
  }

  /** A free ID is given to a new type, and all others keep theirs. */
  lemma PutFresh<I>(r: Registry<I>, id: I, t: Type)
    requires r.Bijective() && t !in r.ids && forall u :: u in r.ids ==> r.ids[u] != id
    ensures r.Put(id, t).ids == r.ids[t := id]
  {
    assert forall u :: u in r.ids ==> r.ids[u] != id;
  }

  class LinearCodec {
    var nextTypeID: nat
    const registeredTypes: BiMap<nat, Type>

    ghost function View(): Linear
      reads this, registeredTypes
    {
      Linear(nextTypeID, Registry(registeredTypes.valueToKey, registeredTypes.keyToValue))
    }

    ghost predicate Valid()
      reads this, registeredTypes
    {
      registeredTypes.Valid() && View().Valid()
    }

    constructor ()
      ensures Valid() && View() == Linear(0, Registry(map[], map[])) && fresh(registeredTypes)
    {
      nextTypeID := 0;
      registeredTypes := new BiMap<nat, Type>();
    }

    method SkipRegistrations(num: int)
      requires Valid()
      modifies this
      ensures Valid() && View() == old(View()).SkipRegistrations(num)
    {
      nextTypeID := (nextTypeID + num % 0x1_0000_0000) % 0x1_0000_0000;
      assert (old(nextTypeID) + num) % 0x1_0000_0000 == nextTypeID;
    }

    method RegisterType(t: Type) returns (duplicate: bool)
      requires Valid()
      modifies this, registeredTypes
      ensures Valid() && View() == old(View()).RegisterType(t) && duplicate == (t in old(View()).reg.ids)
    {
      if t in registeredTypes.valueToKey {
        return true;
      }
      var _ := registeredTypes.Put(nextTypeID, t);
      nextTypeID := (nextTypeID + 1) % 0x1_0000_0000;
      duplicate := false;
    }
  }

  // ---------- codec/hierarchycodec ----------

  datatype TypeID = TypeID(groupID: nat, typeID: nat)

  datatype Hierarchy = Hierarchy(group: nat, next: nat, reg: Registry<TypeID>) {
    ghost predicate Valid() {
      && group < 0x1_0000 && next < 0x1_0000 && reg.Bijective()
      && forall id :: id in reg.types ==> id.groupID < 0x1_0000 && id.typeID < 0x1_0000
    }

    function RegisterType(t: Type): Hierarchy {
      if t in reg.ids then this else Hierarchy(group, (next + 1) % 0x1_0000, reg.Put(TypeID(group, next), t))
    }

    function SkipRegistrations(num: int): Hierarchy { this.(next := (next + num) % 0x1_0000) }

    function NextGroup(): Hierarchy { this.(group := (group + 1) % 0x1_0000, next := 0) }
  }

  datatype HierarchyOp = RegisterIn(t: Type) | SkipIn(num: int) | NewGroup

  function HierarchyStep(c: Hierarchy, op: HierarchyOp): Hierarchy {
    match op
    case RegisterIn(t) => c.RegisterType(t)
    case SkipIn(num) => c.SkipRegistrations(num)
    case NewGroup => c.NextGroup()
  }

  function HierarchyRun(c: Hierarchy, ops: seq<HierarchyOp>): Hierarchy
    decreases |ops|
  {
    if ops == [] then c else HierarchyRun(HierarchyStep(c, ops[0]), ops[1..])
  }

  lemma {:induction false} HierarchyStaysValid(c: Hierarchy, ops: seq<HierarchyOp>)
    requires c.Valid()
    ensures HierarchyRun(c, ops).Valid()
    decreases |ops|
  {
    if ops != [] {
      if ops[0].RegisterIn? { PutKeepsBijective(c.reg, TypeID(c.group, c.next), ops[0].t); }
      HierarchyStaysValid(HierarchyStep(c, ops[0]), ops[1..]);
    }
  }

  /** Starting at `n` in group `g`, neither the groups nor the IDs of a group run out. */
  ghost predicate WithinGroups(g: nat, n: nat, ops: seq<HierarchyOp>)
    decreases |ops|
  {
    ops != [] ==>
      match ops[0]
      case RegisterIn(_) => n < 0x1_0000 && WithinGroups(g, n + 1, ops[1..])
      case SkipIn(num) => num >= 0 && WithinGroups(g, n + num, ops[1..])
      case NewGroup => g + 1 < 0x1_0000 && WithinGroups(g + 1, 0, ops[1..])
  }

  lemma {:induction false} WithinFewer(g: nat, n: nat, m: nat, ops: seq<HierarchyOp>)
    requires m <= n && WithinGroups(g, n, ops)
    ensures WithinGroups(g, m, ops)
    decreases |ops|
  {
    if ops != [] {
      match ops[0]
      case RegisterIn(_) => WithinFewer(g, n + 1, m + 1, ops[1..]);
      case SkipIn(num) => WithinFewer(g, n + num, m + num, ops[1..]);
      case NewGroup =>
    }
  }

  lemma NewKeepsIDs(c: Hierarchy, n: nat, t: Type, d: Hierarchy)
    requires c.Valid() && c.next == n < 0x1_0000 && t !in c.reg.ids && d == c.RegisterType(t)
    requires forall id :: id in c.reg.types ==> id.groupID < c.group || (id.groupID == c.group && id.typeID < n)
    ensures c.reg.KeptBy(d.reg) && d.Valid() && d.group == c.group && d.next == (n + 1) % 0x1_0000
    ensures forall id :: id in d.reg.types ==> id.groupID < d.group || (id.groupID == d.group && id.typeID < n + 1)
  {
    PutKeepsBijective(c.reg, TypeID(c.group, c.next), t);
    PutEvictsIffTaken(c.reg, TypeID(c.group, c.next), t);
  }

  lemma KeptOn<I>(a: Registry<I>, b: Registry<I>, c: Registry<I>)
    requires a.KeptBy(b) && b.KeptBy(c)
    ensures a.KeptBy(c)
  {
  }

  lemma {:induction false} HierarchyKeepsIDs(c: Hierarchy, n: nat, ops: seq<HierarchyOp>)
    requires c.Valid() && c.next == n % 0x1_0000 && WithinGroups(c.group, n, ops)
    requires forall id :: id in c.reg.types ==> id.groupID < c.group || (id.groupID == c.group && id.typeID < n)
    ensures c.reg.KeptBy(HierarchyRun(c, ops).reg)
    decreases |ops|
  {
    if ops != [] {
      match ops[0]
      case RegisterIn(t) =>
        if t in c.reg.ids {
          WithinFewer(c.group, n + 1, n, ops[1..]);
          HierarchyKeepsIDs(c, n, ops[1..]);
        } else {
          var d := c.RegisterType(t);
          NewKeepsIDs(c, n, t, d);
          HierarchyKeepsIDs(d, n + 1, ops[1..]);
          KeptOn(c.reg, d.reg, HierarchyRun(d, ops[1..]).reg);
        }
      case SkipIn(num) => HierarchyKeepsIDs(c.SkipRegistrations(num), n + num, ops[1..]);
      case NewGroup => HierarchyKeepsIDs(c.NextGroup(), 0, ops[1..]);
    }
  }

  const NoHierarchy := Hierarchy(0, 0, Registry(map[], map[]))

  lemma {:induction false} HierarchyRunOn(c: Hierarchy, ops: seq<HierarchyOp>, op: HierarchyOp)
    ensures HierarchyRun(c, ops + [op]) == HierarchyStep(HierarchyRun(c, ops), op)
    decreases |ops|
  {
    if ops == [] {
      assert ([] + [op])[1..] == [];
    } else {
      assert (ops + [op])[1..] == ops[1..] + [op];
      HierarchyRunOn(HierarchyStep(c, ops[0]), ops[1..], op);
    }
  }

  predicate IsFirstIn(ops: seq<HierarchyOp>, i: nat)
    requires i < |ops|
  {
    ops[i].RegisterIn? && forall j :: 0 <= j < i ==> ops[j] != ops[i]
  }

  /** The number of groups that the first `i` operations have begun. */
  function Groups(ops: seq<HierarchyOp>, i: nat): nat
    requires i <= |ops|
  {
    if i == 0 then 0 else Groups(ops, i - 1) + if ops[i - 1].NewGroup? then 1 else 0
  }

  /** The number of types registered and of IDs skipped since the last of them. */
  function UsedIn(ops: seq<HierarchyOp>, i: nat): int
    requires i <= |ops|
  {
    if i == 0 || ops[i - 1].NewGroup? then 0
    else UsedIn(ops, i - 1) + if ops[i - 1].SkipIn? then ops[i - 1].num else if IsFirstIn(ops, i - 1) then 1 else 0
  }

  /** Neither the groups nor the IDs of a group run out. */
  ghost predicate EnoughIn(ops: seq<HierarchyOp>) {
    forall i :: 0 <= i < |ops| ==> EnoughInAt(ops, i)
  }

  ghost predicate EnoughInAt(ops: seq<HierarchyOp>, i: nat)
    requires i < |ops|
  {
    && (ops[i].SkipIn? ==> ops[i].num >= 0)
    && (IsFirstIn(ops, i) ==> Groups(ops, i) < 0x1_0000 && UsedIn(ops, i) < 0x1_0000)
  }

  ghost predicate HasIDIn(ops: seq<HierarchyOp>, j: nat, ids: map<Type, TypeID>)
    requires j < |ops|
  {
    IsFirstIn(ops, j) ==>
      && ops[j].t in ids
      && ids[ops[j].t].groupID == Groups(ops, j) && ids[ops[j].t].typeID == UsedIn(ops, j)
  }

  ghost predicate AskedIn(ops: seq<HierarchyOp>, k: nat, t: Type)
    requires k <= |ops|
  {
    exists j :: 0 <= j < k && ops[j] == RegisterIn(t)
  }

  ghost predicate HasIDsIn(ops: seq<HierarchyOp>, k: nat, ids: map<Type, TypeID>)
    requires k <= |ops|
  {
    && (forall t :: t in ids ==> IsBefore(ids[t], Groups(ops, k), UsedIn(ops, k)))
    && (forall t :: t in ids <==> AskedIn(ops, k, t))
    && (forall j :: 0 <= j < k ==> HasIDIn(ops, j, ids))
  }

  /** The ID is of an earlier group, or earlier in this one. */
  predicate IsBefore(id: TypeID, group: nat, used: int) {
    id.groupID < group || (id.groupID == group && id.typeID < used)
  }

  /** Where the codec stands after the first `k` operations. */
  ghost predicate StandsAt(ops: seq<HierarchyOp>, k: nat, c: Hierarchy)
    requires k <= |ops|
  {
    UsedIn(ops, k) >= 0 && c.next == Wrap16(UsedIn(ops, k)) && c.group == Wrap16(Groups(ops, k))
  }

  /** While neither groups nor IDs have run out, a type has as its ID the number of groups begun before it, and of types
      registered and IDs skipped since. */
  lemma HierarchyIDs(ops: seq<HierarchyOp>)
    requires EnoughIn(ops)
    ensures HasIDsIn(ops, |ops|, HierarchyRun(NoHierarchy, ops).reg.ids)
  {
    IDsInSoFar(ops, |ops|);
    assert ops[..|ops|] == ops;
  }

  lemma {:induction false} IDsInSoFar(ops: seq<HierarchyOp>, k: nat)
    requires EnoughIn(ops) && k <= |ops|
    ensures StandsAt(ops, k, HierarchyRun(NoHierarchy, ops[..k]))
    ensures HasIDsIn(ops, k, HierarchyRun(NoHierarchy, ops[..k]).reg.ids)
    ensures HierarchyRun(NoHierarchy, ops[..k]).reg.Bijective()
  {
    if k > 0 {
      IDsInSoFar(ops, k - 1);
      assert ops[..k] == ops[..k - 1] + [ops[k - 1]];
      HierarchyRunOn(NoHierarchy, ops[..k - 1], ops[k - 1]);
      IDsInAfter(ops, k - 1, HierarchyRun(NoHierarchy, ops[..k - 1]));
    }
  }

  lemma IDsInAfter(ops: seq<HierarchyOp>, k: nat, c: Hierarchy)
    requires EnoughIn(ops) && k < |ops| && StandsAt(ops, k, c) && HasIDsIn(ops, k, c.reg.ids) && c.reg.Bijective()
    ensures StandsAt(ops, k + 1, HierarchyStep(c, ops[k])) && HasIDsIn(ops, k + 1, HierarchyStep(c, ops[k]).reg.ids)
    ensures HierarchyStep(c, ops[k]).reg.Bijective()
  {
    assert EnoughInAt(ops, k);
    if ops[k].RegisterIn? && IsFirstIn(ops, k) {
      NewTypeIn(ops, k, c.reg, TypeID(c.group, c.next));
      Wrap16Add(UsedIn(ops, k), 1);
    } else {
      NoNewType(ops, k, c);
    }
  }

  lemma NoNewType(ops: seq<HierarchyOp>, k: nat, c: Hierarchy)
    requires EnoughIn(ops) && k < |ops| && StandsAt(ops, k, c) && HasIDsIn(ops, k, c.reg.ids) && !IsFirstIn(ops, k)
    ensures StandsAt(ops, k + 1, HierarchyStep(c, ops[k])) && HasIDsIn(ops, k + 1, HierarchyStep(c, ops[k]).reg.ids)
  {
    MoreOpsIn(ops, k);
    Wrap16Add(Groups(ops, k), 1);
    assert EnoughInAt(ops, k);
    if ops[k].SkipIn? {
      Wrap16Add(UsedIn(ops, k), ops[k].num);
    } else if ops[k].RegisterIn? {
      var j :| 0 <= j < k && ops[j] == ops[k];
      assert ops[j] == RegisterIn(ops[k].t);
    }
  }

  lemma NewTypeIn(ops: seq<HierarchyOp>, k: nat, reg: Registry<TypeID>, id: TypeID)
    requires k < |ops| && HasIDsIn(ops, k, reg.ids) && IsFirstIn(ops, k) && reg.Bijective()
    requires id.groupID == Groups(ops, k) && id.typeID == UsedIn(ops, k)
    ensures ops[k].t !in reg.ids && HasIDsIn(ops, k + 1, reg.Put(id, ops[k].t).ids) && reg.Put(id, ops[k].t).Bijective()
  {
    var t := ops[k].t;
    assert ops[k] == RegisterIn(t);
    PutKeepsBijective(reg, id, t);
    PutFresh(reg, id, t);
    IDInGiven(ops, k, reg.ids, reg.Put(id, t).ids, t, id);
  }

  lemma IDInGiven(ops: seq<HierarchyOp>, k: nat, ids: map<Type, TypeID>, ids': map<Type, TypeID>, t: Type, id: TypeID)
    requires k < |ops| && HasIDsIn(ops, k, ids) && IsFirstIn(ops, k) && ops[k].t == t && t !in ids
    requires id.groupID == Groups(ops, k) && id.typeID == UsedIn(ops, k) && ids' == ids[t := id]
    ensures HasIDsIn(ops, k + 1, ids')
  {
    MoreOpsIn(ops, k);
    assert UsedIn(ops, k + 1) == UsedIn(ops, k) + 1 && Groups(ops, k + 1) == Groups(ops, k);
    forall j | 0 <= j < k + 1 ensures HasIDIn(ops, j, ids') { StillHasIDIn(ops, j, k, ids, ids', t, id); }
  }

  lemma StillHasIDIn(ops: seq<HierarchyOp>, j: nat, k: nat, ids: map<Type, TypeID>, ids': map<Type, TypeID>, t: Type,
                     id: TypeID)
    requires j <= k < |ops| && (j < k ==> HasIDIn(ops, j, ids)) && t !in ids && ids' == ids[t := id]
    requires ops[k] == RegisterIn(t) && id.groupID == Groups(ops, k) && id.typeID == UsedIn(ops, k)
    ensures HasIDIn(ops, j, ids')
  {
  }

  lemma MoreOpsIn(ops: seq<HierarchyOp>, k: nat)
    requires k < |ops|
    ensures forall t :: AskedIn(ops, k + 1, t) <==> AskedIn(ops, k, t) || ops[k] == RegisterIn(t)
  {
    forall t | AskedIn(ops, k, t) ensures AskedIn(ops, k + 1, t) {
      var j :| 0 <= j < k && ops[j] == RegisterIn(t);
      assert 0 <= j < k + 1;
    }
  }

  class HierarchyCodec {
    var currentGroupID: nat
    var nextTypeID: nat
    const registeredTypes: BiMap<TypeID, Type>

    ghost function View(): Hierarchy
      reads this, registeredTypes
    {
      Hierarchy(currentGroupID, nextTypeID, Registry(registeredTypes.valueToKey, registeredTypes.keyToValue))
    }

    ghost predicate Valid()
      reads this, registeredTypes
    {
      registeredTypes.Valid() && View().Valid()
    }

    constructor ()
      ensures Valid() && View() == Hierarchy(0, 0, Registry(map[], map[])) && fresh(registeredTypes)
    {
      currentGroupID, nextTypeID := 0, 0;
      registeredTypes := new BiMap<TypeID, Type>();
    }

    method SkipRegistrations(num: int)
      requires Valid()
      modifies this
      ensures Valid() && View() == old(View()).SkipRegistrations(num)
    {
      nextTypeID := (nextTypeID + num % 0x1_0000) % 0x1_0000;
      assert (old(nextTypeID) + num) % 0x1_0000 == nextTypeID;
    }

    method NextGroup()
      requires Valid()
      modifies this
      ensures Valid() && View() == old(View()).NextGroup()
    {
      currentGroupID := (currentGroupID + 1) % 0x1_0000;
      nextTypeID := 0;
    }

    method RegisterType(t: Type) returns (duplicate: bool)
      requires Valid()
      modifies this, registeredTypes
      ensures Valid() && View() == old(View()).RegisterType(t) && duplicate == (t in old(View()).reg.ids)
    {
      if t in registeredTypes.valueToKey {
        return true;
      }
      var id := TypeID(currentGroupID, nextTypeID);
      nextTypeID := (nextTypeID + 1) % 0x1_0000;
      var _ := registeredTypes.Put(id, t);
      duplicate := false;
    }

    /** The prefix is the 32-bit type ID that `Code` makes of the two parts. */
    method PackPrefix(p: Packer, t: Type) returns (err: Option<Error>)
      requires Valid() && p.Ready()
      modifies p
      ensures err.None? <==> t in View().reg.ids && old(p.Fits(4))
      ensures err.None? ==>
                && p.Ready() && p.offset == old(p.offset) + 4
                && p.bytes == Overwrite(old(p.bytes), old(p.offset), BigEndian(4, Code(View().reg.ids[t])))
    {
      if t !in registeredTypes.valueToKey {
        return Some(UnregisteredType);
      }
      var id := registeredTypes.valueToKey[t];
      p.PackUint(2, id.groupID);
      p.PackUint(2, id.typeID);
      PairWritten(old(p.bytes), old(p.offset), id);
      err := p.err;
    }

    /** The concrete type whose 32-bit type ID stands at the offset. */
    method UnpackPrefix(p: Packer, implements: set<(Type, string)>, name: string) returns (err: Option<Error>, ct: Type)
      requires Valid() && p.Ready()
      modifies p`offset, p`err
      ensures var o, types := old(p.offset), TypesByCode(View());
              && (err.None? <==> && o + 4 <= |p.bytes| && IntAt(p.bytes, o, 4) in types
                                 && (types[IntAt(p.bytes, o, 4)], name) in implements)
              && (err.None? ==> p.Ready() && p.offset == o + 4 && ct == types[IntAt(p.bytes, o, 4)])
    {
      ghost var o := p.offset;
      var groupID := p.UnpackUint(2);
      var typeID := p.UnpackUint(2);
      if p.err.Some? { return p.err, Unsupported; }
      PairAt(p.bytes, o);
      var id := TypeID(groupID, typeID);
      SplitCode(id);
      if id !in registeredTypes.keyToValue { return Some(UnknownTypeID), Unsupported; }
      ct := registeredTypes.keyToValue[id];
      if (ct, name) !in implements { return Some(DoesNotImplementInterface), ct; }
      err := None;
    }
  }

  lemma PairWritten(s: Bytes, off: nat, id: TypeID)
    requires off <= |s| && id.groupID < 0x1_0000 && id.typeID < 0x1_0000
    ensures off + 2 <= |Overwrite(s, off, BigEndian(2, id.groupID))|
    ensures Overwrite(Overwrite(s, off, BigEndian(2, id.groupID)), off + 2, BigEndian(2, id.typeID)) ==
            Overwrite(s, off, BigEndian(4, Code(id)))
  {
    OverwriteTwice(s, off, BigEndian(2, id.groupID), BigEndian(2, id.typeID));
    BigEndianPair(id.groupID, id.typeID);
  }

  lemma PairAt(buf: Bytes, o: nat)
    requires o + 4 <= |buf|
    ensures IntAt(buf, o, 2) < 0x1_0000 && IntAt(buf, o + 2, 2) < 0x1_0000
    ensures IntAt(buf, o, 4) == Code(TypeID(IntAt(buf, o, 2), IntAt(buf, o + 2, 2)))
  {
    var hi, lo := buf[o..o + 2], buf[o + 2..o + 4];
    BigEndianInverts(hi);
    BigEndianInverts(lo);
    assert Pow256(2) == 0x1_0000;
    BigEndianPair(FromBigEndian(hi), FromBigEndian(lo));
    assert buf[o..o + 4] == hi + lo;
    Laws.Pow256Values();
    FromBigEndianInverts(4, FromBigEndian(hi) * 65536 + FromBigEndian(lo));
  }

  /** A two-part type ID as one 32-bit number, and back. */
  function Code(id: TypeID): nat { id.groupID * 0x1_0000 + id.typeID }

  function Split(n: nat): TypeID { TypeID(n / 0x1_0000, n % 0x1_0000) }

  lemma SplitCode(id: TypeID)
    requires id.groupID < 0x1_0000 && id.typeID < 0x1_0000
    ensures Split(Code(id)) == id && Code(id) < 0x1_0000_0000
  {
  }

  // ---------- what the reflection codec sees ----------

  function LinearEnv(c: Linear, structs: map<string, StructType>, implements: set<(Type, string)>): Env {
    Env(structs, c.reg.ids, c.reg.types, implements)
  }

  ghost function HierarchyEnv(c: Hierarchy, structs: map<string, StructType>, implements: set<(Type, string)>): Env
  {
    Env(structs, map t | t in c.reg.ids :: Code(c.reg.ids[t]), TypesByCode(c), implements)
  }

  ghost function TypesByCode(c: Hierarchy): map<nat, Type> {
    map n: nat | n < 0x1_0000_0000 && Split(n) in c.reg.types :: c.reg.types[Split(n)]
  }

  /** Every registry that can be reached makes the codec's type IDs a bijection. */
  lemma LinearEnvBijective(ops: seq<LinearOp>, structs: map<string, StructType>, implements: set<(Type, string)>)
    ensures LinearEnv(LinearRun(Linear(0, Registry(map[], map[])), ops), structs, implements).Bijective()
  {
    LinearStaysValid(Linear(0, Registry(map[], map[])), ops);
    Laws.Pow256Values();
  }

  lemma HierarchyEnvBijective(ops: seq<HierarchyOp>, structs: map<string, StructType>, implements: set<(Type, string)>)
    ensures var c := HierarchyRun(Hierarchy(0, 0, Registry(map[], map[])), ops);
            c.Valid() && HierarchyEnv(c, structs, implements).Bijective()
  {
    HierarchyStaysValid(Hierarchy(0, 0, Registry(map[], map[])), ops);
    var c := HierarchyRun(Hierarchy(0, 0, Registry(map[], map[])), ops);
    var env := HierarchyEnv(c, structs, implements);
    Laws.Pow256Values();
    forall t | t in env.ids ensures env.ids[t] < Pow256(4) && env.ids[t] in env.types && env.types[env.ids[t]] == t {
      SplitCode(c.reg.ids[t]);
    }
    forall n | n in env.types ensures env.types[n] in env.ids && env.ids[env.types[n]] == n {
      assert Code(Split(n)) == n;
    }
  }
}
