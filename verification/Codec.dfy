/** The wire format of the reflection codec (codec/reflectcodec/type_codec.go): Go types, Go
    values, the bytes a value is written as and the value a byte string is read as. */
module Codec {
  import opened Basics
  import opened ByteStrings

  const MaxStringLen: nat := 65535
  const MaxInt32: nat := 0x7FFF_FFFF

  type Width = w: nat | w == 1 || w == 2 || w == 4 || w == 8 witness 1

  /** The kinds of reflect.Type that the codec distinguishes. A struct is named, so that a type may
      contain itself; `Unsupported` stands for every kind the codec has no case for. */
  datatype Type =
    | Bool
    | Uint(width: Width)
    | Int(width: Width)
    | String
    | Slice(elem: Type)
    | Array(len: nat, elem: Type)
    | Struct(name: string)
    | Ptr(elem: Type)
    | Map(key: Type, elem: Type)
    | Interface(name: string)
    | Unsupported

  /** A nil slice and a nil map are written like an empty one, so they are not told apart. A map
      compares its keys by content. */
  datatype Value =
    | BoolV(b: bool)
    | UintV(n: nat)
    | IntV(i: int)
    | StringV(s: Bytes)
    | SliceV(elts: seq<Value>)
    | ArrayV(elts: seq<Value>)
    | StructV(fields: seq<Value>)
    | NilPtr
    | PtrV(target: Value)
    | NilInterface
    | InterfaceV(dynamic: Type, value: Value)
    | MapV(m: map<Value, Value>)
    | OtherV

  /** The serialized fields of a struct, in order; how deep they nest other types before a byte has to be
      read; and whether one of them always takes a byte. */
  datatype StructType = StructType(fields: seq<Type>, rank: nat, eats: bool)

  /** What a codec knows: the struct types of the program, its registry of concrete types and
      which concrete type implements which interface. */
  datatype Env = Env(structs: map<string, StructType>,
                     ids: map<Type, nat>,
                     types: map<nat, Type>,
                     implements: set<(Type, string)>)
  {
    function Fields(name: string): seq<Type> {
      if name in structs then structs[name].fields else []
    }

    function Rank(name: string): nat {
      if name in structs then structs[name].rank else 0
    }

    /** How far reading a value of type `t` can recurse before it must consume a byte. */
    function Weight(t: Type): nat {
      match t
      case Array(n, e) => if n == 0 then 0 else 1 + Weight(e)
      case Ptr(e) => 1 + Weight(e)
      case Struct(name) => 1 + Rank(name)
      case _ => 0
    }

    /** Every value of type `t` takes at least one byte. */
    predicate Eats(t: Type) {
      match t
      case Array(n, e) => n > 0 && Eats(e)
      case Ptr(e) => Eats(e)
      case Struct(name) => name in structs && structs[name].eats
      case _ => true
    }

    /** Those of the types that can be read before a byte has been taken weigh at most `w`. */
    ghost predicate Light(ts: seq<Type>, w: nat) {
      forall i :: 0 <= i < |ts| && (forall j :: 0 <= j < i ==> !Eats(ts[j])) ==> Weight(ts[i]) <= w
    }

    /** No type contains itself through pointers, arrays and struct fields without a byte in between, so
        that reading a value ends. */
    ghost predicate Ranked() {
      forall name {:trigger Fields(name)} :: name in structs ==>
        && Light(Fields(name), Rank(name))
        && (structs[name].eats ==> exists i :: 0 <= i < |Fields(name)| && Eats(Fields(name)[i]))
    }

    /** The registry is a bijection between 32-bit type IDs and concrete types. */
    ghost predicate Bijective() {
      && (forall t :: t in ids ==> ids[t] < Pow256(4) && ids[t] in types && types[ids[t]] == t)
      && (forall id :: id in types ==> types[id] in ids && ids[types[id]] == id)
    }

    ghost predicate WellFormed() { Ranked() && Bijective() }
  }

  function Repeat<T>(x: T, n: nat): (s: seq<T>)
    ensures |s| == n && forall i :: 0 <= i < n ==> s[i] == x
  {
    seq(n, _ => x)
  }

  // ---------- two's complement ----------

  predicate InRange(w: Width, i: int) { -(Pow256(w) / 2) <= i < Pow256(w) / 2 }

  function ToUnsigned(w: Width, i: int): nat
    requires InRange(w, i)
  {
    if i >= 0 then i else i + Pow256(w)
  }

  function ToSigned(w: Width, n: nat): int {
    if n < Pow256(w) / 2 then n else n - Pow256(w)
  }

  // ---------- writing ----------

  /** The bytes a value is written as when it is taken to have the given type, or None. */
  type Writer = (Type, Value) -> Option<Bytes>

  function Prepend(p: Bytes, rest: Option<Bytes>): Option<Bytes> {
    if rest.None? then None else Some(p + rest.value)
  }

  /** The values `vs`, of the types `ts`, one after the other; `nonEmpty` demands that each of them
      takes at least one byte. */
  ghost function EncAll(write: Writer, ts: seq<Type>, vs: seq<Value>, nonEmpty: bool): Option<Bytes>
    requires |ts| == |vs|
  {
    if vs == [] then Some([])
    else
      var b := write(ts[0], vs[0]);
      if b.None? || (nonEmpty && b.value == []) then None
      else Prepend(b.value, EncAll(write, ts[1..], vs[1..], nonEmpty))
  }

  /** Every key and every value can be written, and no entry is empty. */
  ghost predicate Encodable(write: Writer, kt: Type, vt: Type, m: map<Value, Value>) {
    forall k :: k in m ==>
      && write(kt, k).Some?
      && write(vt, m[k]).Some?
      && |write(kt, k).value| + |write(vt, m[k]).value| > 0
  }

  /** The bytes of each key of a map, and of the value at each key. */
  ghost function KeyBytes(write: Writer, kt: Type, m: map<Value, Value>): (kb: map<Value, Bytes>)
    requires forall k :: k in m ==> write(kt, k).Some?
    ensures kb.Keys == m.Keys && |kb| == |m|
  {
    var kb := map k | k in m :: write(kt, k).value;
    assert kb.Keys == m.Keys;
    kb
  }

  ghost function ValueBytes(write: Writer, vt: Type, m: map<Value, Value>): (vb: map<Value, Bytes>)
    requires forall k :: k in m ==> write(vt, m[k]).Some?
    ensures vb.Keys == m.Keys
  {
    map k | k in m :: write(vt, m[k]).value
  }

  /** Key and value of every listed key, in turn. */
  ghost function Layout<K>(ks: seq<K>, kb: map<K, Bytes>, vb: map<K, Bytes>): Bytes
    requires forall k :: k in ks ==> k in kb && k in vb
  {
    if ks == [] then [] else kb[ks[0]] + vb[ks[0]] + Layout(ks[1..], kb, vb)
  }

  /** The entries of a map in the order of the bytes of their keys. */
  ghost function EncMap(write: Writer, kt: Type, vt: Type, m: map<Value, Value>): Option<Bytes> {
    if !Encodable(write, kt, vt, m) then None
    else
      var kb := KeyBytes(write, kt, m);
      SortedKeysAre(kb);
      Some(Layout(SortedKeys(kb), kb, ValueBytes(write, vt, m)))
  }

  /** The bytes of a value that is not made of other values. */
  function EncScalar(t: Type, v: Value): Option<Bytes> {
    match t
    case Bool => if v.BoolV? then Some([if v.b then 1 else 0]) else None
    case Uint(w) => if v.UintV? && v.n < Pow256(w) then Some(BigEndian(w, v.n)) else None
    case Int(w) => if v.IntV? && InRange(w, v.i) then Some(BigEndian(w, ToUnsigned(w, v.i))) else None
    case String => if v.StringV? && |v.s| <= MaxStringLen then Some(BigEndian(2, |v.s|) + v.s) else None
    case _ => None
  }

  /** The bytes a value of type `t` is written as inside interfaces whose concrete types are
      `stack`; None where marshalling reports an error. A pair of a type and a value that the Go
      type checker would not let meet is an error as well. */
  ghost function Enc(env: Env, stack: set<Type>, t: Type, v: Value): Option<Bytes>
    decreases v, 1
  {
    match t
    case Ptr(e) => if v.PtrV? then Enc(env, stack, e, v.target) else None
    case Interface(name) =>
      if v.InterfaceV? && v.dynamic in env.ids && (v.dynamic, name) in env.implements && v.dynamic !in stack then
        Prepend(BigEndian(4, env.ids[v.dynamic]), Enc(env, stack + {v.dynamic}, v.dynamic, v.value))
      else None
    case Slice(e) =>
      if v.SliceV? && |v.elts| <= MaxInt32 then
        Prepend(BigEndian(4, |v.elts|), EncAll(PartsOf(env, stack, v), Repeat(e, |v.elts|), v.elts, true))
      else None
    case Array(n, e) =>
      if v.ArrayV? && |v.elts| == n then EncAll(PartsOf(env, stack, v), Repeat(e, n), v.elts, false) else None
    case Struct(name) =>
      if v.StructV? && |v.fields| == |env.Fields(name)| then
        EncAll(PartsOf(env, stack, v), env.Fields(name), v.fields, false)
      else None
    case Map(kt, vt) =>
      if v.MapV? && |v.m| <= MaxInt32 then
        Prepend(BigEndian(4, |v.m|), EncMap(PartsOf(env, stack, v), kt, vt, v.m))
      else None
    case _ => EncScalar(t, v)
  }

  /** Writes the values that `v` is made of. */
  ghost function PartsOf(env: Env, stack: set<Type>, v: Value): Writer
    decreases v, 0
  {
    (t: Type, x: Value) => if x < v then Enc(env, stack, t, x) else None
  }

  // ---------- reading ----------

  /** A value together with the offset at which it ends, or an error. */
  datatype Parse<+T> = Done(value: T, end: nat) | Fail

  /** What a value of the given type at the given offset reads as. */
  type Reader = (Type, nat) -> Parse<Value>

  /** The reader moves forward and stops before `n`. */
  ghost predicate Bounded(read: Reader, n: nat) {
    forall t, o: nat :: read(t, o).Done? ==> o <= read(t, o).end <= n
  }

  /** Reads one value of each of the types `ts`; `nonEmpty` demands that each takes a byte. */
  ghost function DecAll(read: Reader, ts: seq<Type>, off: nat, nonEmpty: bool): (r: Parse<seq<Value>>)
    ensures r.Done? ==> |r.value| == |ts|
  {
    if ts == [] then Done([], off)
    else
      var v := read(ts[0], off);
      if v.Fail? || (nonEmpty && v.end == off) then Fail
      else
        var rest := DecAll(read, ts[1..], v.end, nonEmpty);
        if rest.Fail? then Fail else Done([v.value] + rest.value, rest.end)
  }

  /** Reads `n` map entries whose keys follow `prev` and each other in strictly increasing order of
      the bytes they are read from. */
  ghost function DecEntries(read: Reader, kt: Type, vt: Type, n: nat, prev: Option<Bytes>, buf: Bytes, off: nat)
      : (r: Parse<seq<(Value, Value)>>)
    requires Bounded(read, |buf|)
    ensures r.Done? ==> |r.value| == n
  {
    if n == 0 then Done([], off)
    else
      var k := read(kt, off);
      if k.Fail? || (prev.Some? && !Less(prev.value, buf[off..k.end])) then Fail
      else
        var x := read(vt, k.end);
        if x.Fail? || x.end == off then Fail
        else
          var rest := DecEntries(read, kt, vt, n - 1, Some(buf[off..k.end]), buf, x.end);
          if rest.Fail? then Fail else Done([(k.value, x.value)] + rest.value, rest.end)
  }

  lemma {:induction false} DecAllBounded(read: Reader, ts: seq<Type>, off: nat, nonEmpty: bool, n: nat)
    requires Bounded(read, n) && off <= n
    ensures var r := DecAll(read, ts, off, nonEmpty); r.Done? ==> off <= r.end <= n
  {
    if ts != [] && read(ts[0], off).Done? { DecAllBounded(read, ts[1..], read(ts[0], off).end, nonEmpty, n); }
  }

  lemma {:induction false} DecEntriesBounded(read: Reader, kt: Type, vt: Type, n: nat, prev: Option<Bytes>, buf: Bytes,
                                             off: nat)
    requires Bounded(read, |buf|) && off <= |buf|
    ensures var r := DecEntries(read, kt, vt, n, prev, buf, off); r.Done? ==> off <= r.end <= |buf|
  {
    if n > 0 {
      var k := read(kt, off);
      if k.Done? && read(vt, k.end).Done? {
        DecEntriesBounded(read, kt, vt, n - 1, Some(buf[off..k.end]), buf, read(vt, k.end).end);
      }
    }
  }

  /** The big-endian integer in the `w` bytes at `off`. */
  function IntAt(buf: Bytes, off: nat, w: nat): nat
    requires off + w <= |buf|
  {
    FromBigEndian(buf[off..off + w])
  }

  function DecScalar(t: Type, buf: Bytes, off: nat): (r: Parse<Value>)
    requires off <= |buf|
    ensures r.Done? ==> off <= r.end <= |buf|
  {
    match t
    case Bool => if off < |buf| && buf[off] <= 1 then Done(BoolV(buf[off] == 1), off + 1) else Fail
    case Uint(w) => if off + w <= |buf| then Done(UintV(IntAt(buf, off, w)), off + w) else Fail
    case Int(w) => if off + w <= |buf| then Done(IntV(ToSigned(w, IntAt(buf, off, w))), off + w) else Fail
    case String =>
      if |buf| < off + 2 || |buf| < off + 2 + IntAt(buf, off, 2) then Fail
      else
        var end := off + 2 + IntAt(buf, off, 2);
        Done(StringV(buf[off + 2..end]), end)
    case _ => Fail
  }

  /** Reads a value of type `t` that starts at `off`. */
  ghost function Dec(env: Env, stack: set<Type>, t: Type, buf: Bytes, off: nat): (r: Parse<Value>)
    requires off <= |buf|
    ensures r.Done? ==> off <= r.end <= |buf|
    decreases |buf| - off, env.Weight(t), 0
  {
    match t
    case Ptr(e) =>
      var r := Dec(env, stack, e, buf, off);
      if r.Fail? then Fail else Done(PtrV(r.value), r.end)
    case Interface(name) =>
      if |buf| < off + 4 then Fail
      else
        var id := IntAt(buf, off, 4);
        if id !in env.types || (env.types[id], name) !in env.implements || env.types[id] in stack then Fail
        else
          var r := Dec(env, stack + {env.types[id]}, env.types[id], buf, off + 4);
          if r.Fail? then Fail else Done(InterfaceV(env.types[id], r.value), r.end)
    case Slice(e) =>
      if |buf| < off + 4 || IntAt(buf, off, 4) > MaxInt32 then Fail
      else
        var read, ts := From(env, stack, buf, off + 4, env.Weight(e)), Repeat(e, IntAt(buf, off, 4));
        DecAllBounded(read, ts, off + 4, true, |buf|);
        var r := DecAll(read, ts, off + 4, true);
        if r.Fail? then Fail else Done(SliceV(r.value), r.end)
    case Array(n, e) =>
      if n == 0 then Done(ArrayV([]), off)
      else
        var read := From(env, stack, buf, off, env.Weight(e));
        DecAllBounded(read, Repeat(e, n), off, false, |buf|);
        var r := DecAll(read, Repeat(e, n), off, false);
        if r.Fail? then Fail else Done(ArrayV(r.value), r.end)
    case Struct(name) =>
      var read := From(env, stack, buf, off, env.Rank(name));
      DecAllBounded(read, env.Fields(name), off, false, |buf|);
      var r := DecAll(read, env.Fields(name), off, false);
      if r.Fail? then Fail else Done(StructV(r.value), r.end)
    case Map(kt, vt) =>
      if |buf| < off + 4 || IntAt(buf, off, 4) > MaxInt32 then Fail
      else
        var read, n := From(env, stack, buf, off + 4, Max(env.Weight(kt), env.Weight(vt))), IntAt(buf, off, 4);
        DecEntriesBounded(read, kt, vt, n, None, buf, off + 4);
        AsMap(DecEntries(read, kt, vt, n, None, buf, off + 4))
    case _ => DecScalar(t, buf, off)
  }

  /** Reads the values of weight at most `w` at `lo`, and all values after `lo`. */
  ghost function From(env: Env, stack: set<Type>, buf: Bytes, lo: nat, w: nat): (read: Reader)
    requires lo <= |buf|
    ensures Bounded(read, |buf|)
    decreases |buf| - lo, w, 1
  {
    (t: Type, o: nat) =>
      if lo <= o <= |buf| && (lo < o || env.Weight(t) <= w) then Dec(env, stack, t, buf, o) else Fail
  }

  /** The map that is made of entries. */
  function AsMap(es: Parse<seq<(Value, Value)>>): Parse<Value> {
    if es.Fail? then Fail else Done(MapV(ToMap(es.value)), es.end)
  }

  /** Assigns the entries to an empty map, first to last. */
  function ToMap<K, V>(es: seq<(K, V)>): map<K, V> {
    if es == [] then map[] else ToMap(es[..|es| - 1])[es[|es| - 1].0 := es[|es| - 1].1]
  }

  /** genericCodec.Unmarshal: the value read, provided that it takes all of `s`. */
  ghost function Unmarshal(env: Env, t: Type, s: Bytes): Option<Value> {
    var r := Dec(env, {}, t, s, 0);
    if r.Done? && r.end == |s| then Some(r.value) else None
  }

  /** genericCodec.MarshalInto on an empty packer without a size limit. */
  ghost function Marshal(env: Env, t: Type, v: Value): Option<Bytes> {
    Enc(env, {}, t, v)
  }
}
