/** genericCodec.size (codec/reflectcodec/type_codec.go): how many bytes a value will take,
    computed from its type alone where that suffices. */
module Sizes {
  import opened Basics
  import opened ByteStrings
  import opened Codec
  import opened Packing
  import M = Marshalling

  /** No type contains itself through pointers, arrays and struct fields alone. */
  ghost predicate Layered(env: Env) {
    forall name, i :: name in env.structs && 0 <= i < |env.structs[name].fields| ==>
      env.Weight(env.structs[name].fields[i]) <= env.structs[name].rank
  }

  /** Whether all values of type `t` take the same number of bytes can then be told from the type. */
  ghost predicate ConstSize(env: Env, t: Type)
    requires Layered(env)
    decreases env.Weight(t)
  {
    match t
    case Bool => true
    case Uint(_) => true
    case Int(_) => true
    case Ptr(e) => ConstSize(env, e)
    case Array(n, e) => n == 0 || ConstSize(env, e)
    case Struct(name) => forall i :: 0 <= i < |env.Fields(name)| ==> ConstSize(env, env.Fields(name)[i])
    case _ => false
  }

  /** The number of bytes of a value of a type of constant size. */
  ghost function FixedLen(env: Env, t: Type): nat
    requires Layered(env)
    decreases env.Weight(t), 0
  {
    match t
    case Bool => 1
    case Uint(w) => w
    case Int(w) => w
    case Ptr(e) => FixedLen(env, e)
    case Array(n, e) => if n == 0 then 0 else n * FixedLen(env, e)
    case Struct(name) => FixedLens(env, env.Fields(name), env.Rank(name))
    case _ => 0
  }

  ghost function FixedLens(env: Env, ts: seq<Type>, w: nat): nat
    requires Layered(env) && forall i :: 0 <= i < |ts| ==> env.Weight(ts[i]) <= w
    decreases w, 1, |ts|
  {
    if ts == [] then 0 else FixedLen(env, ts[0]) + FixedLens(env, ts[1..], w)
  }

  // ---------- constant sizes ----------

  lemma {:induction false} EncAllUniform(write: Writer, t: Type, vs: seq<Value>, nonEmpty: bool, len: nat)
    requires EncAll(write, Repeat(t, |vs|), vs, nonEmpty).Some?
    requires forall i :: 0 <= i < |vs| && write(t, vs[i]).Some? ==> |write(t, vs[i]).value| == len
    ensures |EncAll(write, Repeat(t, |vs|), vs, nonEmpty).value| == |vs| * len
  {
    if vs != [] {
      assert Repeat(t, |vs|)[1..] == Repeat(t, |vs[1..]|);
      EncAllUniform(write, t, vs[1..], nonEmpty, len);
    }
  }

  lemma {:induction false} EncAllFixed(env: Env, write: Writer, ts: seq<Type>, vs: seq<Value>, w: nat)
    requires Layered(env) && |ts| == |vs| && forall i :: 0 <= i < |ts| ==> env.Weight(ts[i]) <= w
    requires EncAll(write, ts, vs, false).Some?
    requires forall i :: 0 <= i < |vs| && write(ts[i], vs[i]).Some?
               ==> |write(ts[i], vs[i]).value| == FixedLen(env, ts[i])
    ensures |EncAll(write, ts, vs, false).value| == FixedLens(env, ts, w)
  {
    if vs != [] { EncAllFixed(env, write, ts[1..], vs[1..], w); }
  }

  /** A value of a type of constant size takes as many bytes as its type says. */
  lemma {:induction false} ConstSizeIsFixed(env: Env, stack: set<Type>, t: Type, v: Value)
    requires Layered(env) && ConstSize(env, t) && Enc(env, stack, t, v).Some?
    ensures |Enc(env, stack, t, v).value| == FixedLen(env, t)
    decreases v
  {
    match t {
      case Ptr(e) => ConstSizeIsFixed(env, stack, e, v.target);
      case Array(n, e) =>
        var write := PartsOf(env, stack, v);
        forall i | 0 <= i < |v.elts| && write(e, v.elts[i]).Some?
          ensures |write(e, v.elts[i]).value| == FixedLen(env, e) {
          ConstSizeIsFixed(env, stack, e, v.elts[i]);
        }
        EncAllUniform(write, e, v.elts, false, FixedLen(env, e));
      case Struct(name) =>
        var write, ts := PartsOf(env, stack, v), env.Fields(name);
        forall i | 0 <= i < |ts| && write(ts[i], v.fields[i]).Some?
          ensures |write(ts[i], v.fields[i]).value| == FixedLen(env, ts[i])
        {
          ConstSizeIsFixed(env, stack, ts[i], v.fields[i]);
        }
        EncAllFixed(env, write, ts, v.fields, env.Rank(name));
      case _ =>
    }
  }

  /** Every value of type `t` takes `len` bytes. */
  ghost predicate IsConst(env: Env, t: Type, len: nat) {
    forall stack, v :: Enc(env, stack, t, v).Some? ==> |Enc(env, stack, t, v).value| == len
  }

  lemma PtrConst(env: Env, e: Type, len: nat)
    requires IsConst(env, e, len)
    ensures IsConst(env, Ptr(e), len)
  {
    forall stack, v | Enc(env, stack, Ptr(e), v).Some? ensures |Enc(env, stack, Ptr(e), v).value| == len {
      assert Enc(env, stack, e, v.target).Some?;
    }
  }

  lemma ArrayConst(env: Env, n: nat, e: Type, len: nat)
    requires IsConst(env, e, len)
    ensures IsConst(env, Array(n, e), n * len)
  {
    forall stack, v | Enc(env, stack, Array(n, e), v).Some? ensures |Enc(env, stack, Array(n, e), v).value| == n * len {
      var write := PartsOf(env, stack, v);
      forall i | 0 <= i < |v.elts| && write(e, v.elts[i]).Some? ensures |write(e, v.elts[i]).value| == len {
        assert Enc(env, stack, e, v.elts[i]).Some?;
      }
      EncAllUniform(write, e, v.elts, false, len);
    }
  }

  function Sum(lens: seq<nat>): nat { if lens == [] then 0 else lens[0] + Sum(lens[1..]) }

  lemma {:induction false} SumAppend(lens: seq<nat>, len: nat)
    ensures Sum(lens + [len]) == Sum(lens) + len
  {
    if lens == [] {
      assert lens + [len] == [len] && [len][1..] == [];
    } else {
      assert (lens + [len])[1..] == lens[1..] + [len];
      SumAppend(lens[1..], len);
    }
  }

  lemma {:induction false} EncAllSum(write: Writer, ts: seq<Type>, vs: seq<Value>, lens: seq<nat>)
    requires |ts| == |vs| == |lens| && EncAll(write, ts, vs, false).Some?
    requires forall i :: 0 <= i < |vs| && write(ts[i], vs[i]).Some? ==> |write(ts[i], vs[i]).value| == lens[i]
    ensures |EncAll(write, ts, vs, false).value| == Sum(lens)
  {
    if vs != [] { EncAllSum(write, ts[1..], vs[1..], lens[1..]); }
  }

  /** The first fields have these constant sizes. */
  ghost predicate FieldsConst(env: Env, ts: seq<Type>, lens: seq<nat>) {
    |lens| <= |ts| && forall i :: 0 <= i < |lens| ==> IsConst(env, ts[i], lens[i])
  }

  lemma NextConst(env: Env, ts: seq<Type>, lens: seq<nat>, len: nat)
    requires FieldsConst(env, ts, lens) && |lens| < |ts| && IsConst(env, ts[|lens|], len)
    ensures FieldsConst(env, ts, lens + [len])
  {
  }

  lemma StructConst(env: Env, name: string, lens: seq<nat>)
    requires |lens| == |env.Fields(name)| && FieldsConst(env, env.Fields(name), lens)
    ensures IsConst(env, Struct(name), Sum(lens))
  {
    var ts := env.Fields(name);
    forall stack, v | Enc(env, stack, Struct(name), v).Some?
      ensures |Enc(env, stack, Struct(name), v).value| == Sum(lens) {
      var write := PartsOf(env, stack, v);
      forall i | 0 <= i < |ts| && write(ts[i], v.fields[i]).Some? ensures |write(ts[i], v.fields[i]).value| == lens[i] {
        assert IsConst(env, ts[i], lens[i]) && Enc(env, stack, ts[i], v.fields[i]).Some?;
      }
      EncAllSum(write, ts, v.fields, lens);
    }
  }

  // ---------- the size of a value ----------

  /** Whenever the value can be written, its size is the number of bytes written; and a size that
      is reported constant is that of every value of the type. */
  ghost predicate Sized(env: Env, t: Type, e: Option<Bytes>, size: nat, constSize: bool, err: Option<Error>) {
    && (e.Some? ==> err.None? && size == |e.value|)
    && (err.None? && constSize ==> IsConst(env, t, size))
    && (err.None? && Layered(env) ==> constSize == ConstSize(env, t) && (constSize ==> size == FixedLen(env, t)))
  }

  method SizeValue(env: Env, stack: set<Type>, t: Type, v: Value)
    returns (size: nat, constSize: bool, err: Option<Error>)
    ensures Sized(env, t, Enc(env, stack, t, v), size, constSize, err)
    decreases v, 2
  {
    match t {
      case Bool => return 1, true, None;
      case Uint(w) => return w, true, None;
      case Int(w) => return w, true, None;
      case String =>
        if !v.StringV? { return 0, false, Some(UnsupportedType); }
        return 2 + |v.s|, false, None;
      case Ptr(e) =>
        if !v.PtrV? { return 0, false, Some(MarshalNil); }
        size, constSize, err := SizeValue(env, stack, e, v.target);
        if err.None? && constSize { PtrConst(env, e, size); }
      case Interface(name) =>
        if !v.InterfaceV? { return 0, false, Some(MarshalNil); }
        if v.dynamic in stack { return 0, false, Some(RecursiveInterfaceTypes); }
        var valueSize, _, e := SizeValue(env, stack + {v.dynamic}, v.dynamic, v.value);
        return 4 + valueSize, false, e;
      case Slice(e) => size, constSize, err := SizeSlice(env, stack, e, v);
      case Array(n, e) => size, constSize, err := SizeArray(env, stack, n, e, v);
      case Struct(name) => size, constSize, err := SizeStruct(env, stack, name, v);
      case Map(kt, vt) => size, constSize, err := SizeMap(env, stack, kt, vt, v);
      case Unsupported => return 0, false, Some(UnsupportedType);
    }
  }

  /** The values of one type that a value is made of, as the codec adds them up: the first one is
      measured, and the others only if their sizes may differ. */
  method SizeParts(env: Env, stack: set<Type>, t: Type, v: Value, vs: seq<Value>)
      returns (first: nat, size: nat, constSize: bool, err: Option<Error>)
    requires vs != [] && forall i :: 0 <= i < |vs| ==> vs[i] < v
    ensures var write := PartsOf(env, stack, v);
            && (M.EncKeys(write, t, vs).Some? ==>
                err.None? && size == |M.EncKeys(write, t, vs).value| && first == |write(t, vs[0]).value|)
            && (err.None? && Layered(env)
                ==> constSize == ConstSize(env, t) && (constSize ==> first == FixedLen(env, t)))
            && (err.None? && constSize ==> IsConst(env, t, first) && size == |vs| * first)
    decreases v, 0
  {
    ghost var write := PartsOf(env, stack, v);
    M.EncKeysSome(write, t, vs);
    assert vs[0] in vs;
    first, constSize, err := SizeValue(env, stack, t, vs[0]);
    size := first;
    if err.Some? { return; }
    if constSize {
      size := |vs| * first;
      if M.EncKeys(write, t, vs).Some? {
        forall i | 0 <= i < |vs| && write(t, vs[i]).Some? ensures |write(t, vs[i]).value| == first {
          assert Enc(env, stack, t, vs[i]).Some?;
        }
        EncAllUniform(write, t, vs, false, first);
      }
      return;
    }
    M.EncKeysCons(write, t, vs);
    for i := 1 to |vs|
      invariant M.EncKeys(write, t, vs).Some? ==>
                  && M.EncKeys(write, t, vs[i..]).Some?
                  && |M.EncKeys(write, t, vs).value| == size + |M.EncKeys(write, t, vs[i..]).value|
    {
      M.EncKeysCons(write, t, vs[i..]);
      assert vs[i..][1..] == vs[i + 1..] && vs[i] in vs;
      var innerSize, _, e := SizeValue(env, stack, t, vs[i]);
      if e.Some? { return first, 0, false, e; }
      size := size + innerSize;
    }
    assert vs[|vs|..] == [];
  }

  lemma {:induction false} NonEmptyParts(write: Writer, t: Type, vs: seq<Value>)
    requires EncAll(write, Repeat(t, |vs|), vs, true).Some?
    ensures EncAll(write, Repeat(t, |vs|), vs, true) == M.EncKeys(write, t, vs)
    ensures vs != [] ==> write(t, vs[0]).Some? && write(t, vs[0]).value != []
  {
    if vs != [] {
      assert Repeat(t, |vs|)[1..] == Repeat(t, |vs[1..]|);
      NonEmptyParts(write, t, vs[1..]);
      M.EncKeysCons(write, t, vs);
    }
  }

  method SizeSlice(env: Env, stack: set<Type>, e: Type, v: Value)
    returns (size: nat, constSize: bool, err: Option<Error>)
    ensures Sized(env, Slice(e), Enc(env, stack, Slice(e), v), size, constSize, err)
    decreases v, 1
  {
    if !v.SliceV? { return 0, false, Some(UnsupportedType); }
    if |v.elts| == 0 { return 4, false, None; }
    ghost var write := PartsOf(env, stack, v);
    if EncAll(write, Repeat(e, |v.elts|), v.elts, true).Some? { NonEmptyParts(write, e, v.elts); }
    var first, total, const_, inner := SizeParts(env, stack, e, v, v.elts);
    if inner.Some? { return 0, false, inner; }
    if first == 0 { return 0, false, Some(ZeroLength); }
    return 4 + total, false, None;
  }

  method SizeArray(env: Env, stack: set<Type>, n: nat, e: Type, v: Value)
    returns (size: nat, constSize: bool, err: Option<Error>)
    ensures Sized(env, Array(n, e), Enc(env, stack, Array(n, e), v), size, constSize, err)
    decreases v, 1
  {
    if !v.ArrayV? || |v.elts| != n { return 0, false, Some(UnsupportedType); }
    if n == 0 { return 0, true, None; }
    var first;
    first, size, constSize, err := SizeParts(env, stack, e, v, v.elts);
    if err.None? && constSize { ArrayConst(env, n, e, first); }
  }

  method SizeStruct(env: Env, stack: set<Type>, name: string, v: Value)
    returns (size: nat, constSize: bool, err: Option<Error>)
    ensures Sized(env, Struct(name), Enc(env, stack, Struct(name), v), size, constSize, err)
    decreases v, 1
  {
    if !v.StructV? || |v.fields| != |env.Fields(name)| { return 0, false, Some(UnsupportedType); }
    var ts := env.Fields(name);
    ghost var write, lens := PartsOf(env, stack, v), [];
    ghost var all := EncAll(write, ts, v.fields, false);
    size, constSize := 0, true;
    assert ts[0..] == ts && v.fields[0..] == v.fields;
    for i := 0 to |ts|
      invariant all.Some? ==>
                  && EncAll(write, ts[i..], v.fields[i..], false).Some?
                  && |all.value| == size + |EncAll(write, ts[i..], v.fields[i..], false).value|
      invariant Layered(env) ==> (constSize <==> forall j :: 0 <= j < i ==> ConstSize(env, ts[j]))
      invariant Layered(env) && constSize ==>
                  FixedLens(env, ts, env.Rank(name)) == size + FixedLens(env, ts[i..], env.Rank(name))
      invariant |lens| == i && Sum(lens) == size && (constSize ==> FieldsConst(env, ts, lens))
    {
      assert ts[i..][1..] == ts[i + 1..] && v.fields[i..][1..] == v.fields[i + 1..];
      var innerSize, innerConst, e := SizeValue(env, stack, ts[i], v.fields[i]);
      if e.Some? { return 0, false, e; }
      SumAppend(lens, innerSize);
      if constSize && innerConst { NextConst(env, ts, lens, innerSize); }
      lens := lens + [innerSize];
      size := size + innerSize;
      constSize := constSize && innerConst;
    }
    if constSize { StructConst(env, name, lens); }
    err := None;
  }

  method SizeMap(env: Env, stack: set<Type>, kt: Type, vt: Type, v: Value)
    returns (size: nat, constSize: bool, err: Option<Error>)
    ensures Sized(env, Map(kt, vt), Enc(env, stack, Map(kt, vt), v), size, constSize, err)
    decreases v, 1
  {
    if !v.MapV? { return 0, false, Some(UnsupportedType); }
    var keys := M.MapKeys(v.m);
    if |keys| == 0 {
      EmptyMap(PartsOf(env, stack, v), kt, vt, v.m);
      return 4, false, None;
    }
    EntriesBelow(v, keys);
    var total, e := SizeEntries(env, stack, kt, vt, v, keys, Values(keys, v.m));
    return 4 + total, false, e;
  }

  method SizeEntries(env: Env, stack: set<Type>, kt: Type, vt: Type, v: Value, keys: seq<Value>, values: seq<Value>)
      returns (size: nat, err: Option<Error>)
    requires v.MapV? && keys != [] && Lists(keys, v.m.Keys)
    requires (forall k :: k in keys ==> k in v.m) && values == Values(keys, v.m)
    requires forall i :: 0 <= i < |keys| ==> keys[i] < v && values[i] < v
    ensures var e := EncMap(PartsOf(env, stack, v), kt, vt, v.m); e.Some? ==> err.None? && size == |e.value|
    decreases v, 1, 0
  {
    ghost var write := PartsOf(env, stack, v);
    var firstKey, totalKeys, _, e := SizeParts(env, stack, kt, v, keys);
    var firstValue, totalValues, _, e' := SizeParts(env, stack, vt, v, values);
    if EncMap(write, kt, vt, v.m).Some? { EntriesLength(write, kt, vt, keys, v.m); }
    if e.Some? { return 0, e; }
    if e'.Some? { return 0, e'; }
    if firstKey == 0 && firstValue == 0 { return 0, Some(ZeroLength); }
    return totalKeys + totalValues, None;
  }

  lemma EntriesBelow(v: Value, keys: seq<Value>)
    requires v.MapV? && Lists(keys, v.m.Keys)
    ensures forall i :: 0 <= i < |keys| ==> keys[i] in v.m && keys[i] < v && Values(keys, v.m)[i] < v
  {
    forall i | 0 <= i < |keys| ensures keys[i] in v.m { assert keys[i] in keys; }
  }

  function Values(keys: seq<Value>, m: map<Value, Value>): (vs: seq<Value>)
    requires forall k :: k in keys ==> k in m
    ensures |vs| == |keys| && forall i :: 0 <= i < |keys| ==> vs[i] == m[keys[i]]
  {
    seq(|keys|, i requires 0 <= i < |keys| => m[keys[i]])
  }

  lemma EmptyMap(write: Writer, kt: Type, vt: Type, m: map<Value, Value>)
    requires |m| == 0
    ensures EncMap(write, kt, vt, m) == Some([])
  {
    assert m == map[];
  }

  /** The room a map takes, added up over its keys in any order. */
  lemma EntriesLength(write: Writer, kt: Type, vt: Type, keys: seq<Value>, m: map<Value, Value>)
    requires Lists(keys, m.Keys) && keys != [] && EncMap(write, kt, vt, m).Some?
    ensures var a, b := M.EncKeys(write, kt, keys), M.EncKeys(write, vt, Values(keys, m));
            && a.Some? && b.Some? && |EncMap(write, kt, vt, m).value| == |a.value| + |b.value|
            && |write(kt, keys[0]).value| + |write(vt, m[keys[0]]).value| > 0
  {
    var kb, vb := KeyBytes(write, kt, m), ValueBytes(write, vt, m);
    var ks := SortedKeys(kb);
    SortedKeysAre(kb);
    assert keys[0] in keys;
    TotalPermutation(keys, ks, m.Keys, kb);
    TotalPermutation(keys, ks, m.Keys, vb);
    LayoutLength(ks, kb, vb);
    M.EncKeysTotal(write, kt, keys, kb);
    ValuesTotal(write, vt, keys, m, vb);
  }

  lemma {:induction false} LayoutLength<K>(ks: seq<K>, kb: map<K, Bytes>, vb: map<K, Bytes>)
    requires forall k :: k in ks ==> k in kb && k in vb
    ensures |Layout(ks, kb, vb)| == Total(ks, kb) + Total(ks, vb)
  {
    if ks != [] { LayoutLength(ks[1..], kb, vb); }
  }

  lemma {:induction false} ValuesTotal(write: Writer, vt: Type, ks: seq<Value>, m: map<Value, Value>,
                                       vb: map<Value, Bytes>)
    requires forall k :: k in ks ==> k in m && k in vb && write(vt, m[k]) == Some(vb[k])
    ensures M.EncKeys(write, vt, Values(ks, m)).Some? && |M.EncKeys(write, vt, Values(ks, m)).value| == Total(ks, vb)
  {
    if ks != [] {
      M.EncKeysCons(write, vt, Values(ks, m));
      assert Values(ks, m)[1..] == Values(ks[1..], m);
      ValuesTotal(write, vt, ks[1..], m, vb);
    }
  }
}
