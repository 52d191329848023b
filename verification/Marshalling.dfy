/** genericCodec.marshal (codec/reflectcodec/type_codec.go): writes a value into a packer. Maps are
    written in place in two passes: all keys, then, from the start of the keys again, each key in
    sorted order followed by its value. */
module Marshalling {
  import opened Basics
  import opened ByteStrings
  import opened Codec
  import opened Packing
  import Laws = CodecLaws

  /** What a successful call has done to a packer that held `s` at offset `off`: `b` stands at
      that offset, nothing else has changed, and the offset is behind it. */
  ghost predicate Wrote(p: Packer, s: Bytes, off: nat, limit: int, b: Bytes)
    requires off <= |s|
    reads p
  {
    p.Ready() && p.bytes == Overwrite(s, off, b) && p.offset == off + |b| && p.Limit() == limit
  }

  /** The call succeeds exactly when the value can be written and fits. */
  ghost predicate Marshalled(p: Packer, s: Bytes, off: nat, limit: int, e: Option<Bytes>, err: Option<Error>)
    requires off <= |s|
    reads p
  {
    && (err.None? <==> e.Some? && off + |e.value| <= limit)
    && (err.None? ==> Wrote(p, s, off, limit, e.value))
  }

  lemma WroteBoth(p: Packer, s: Bytes, off: nat, limit: int, a: Bytes, mid: Bytes, at: nat, b: Bytes)
    requires off <= |s| && mid == Overwrite(s, off, a) && at == off + |a| && Wrote(p, mid, at, limit, b)
    ensures Wrote(p, s, off, limit, a + b)
  {
    OverwriteTwice(s, off, a, b);
  }

  method MarshalValue(env: Env, p: Packer, stack: set<Type>, t: Type, v: Value) returns (err: Option<Error>)
    requires env.WellFormed() && p.Ready()
    modifies p
    ensures Marshalled(p, old(p.bytes), old(p.offset), old(p.Limit()), Enc(env, stack, t, v), err)
    decreases v, 2
  {
    match t {
      case Bool =>
        if !v.BoolV? { return Some(UnsupportedType); }
        p.PackFixedBytes([if v.b then 1 else 0]);
        return p.err;
      case Uint(w) =>
        if !v.UintV? || v.n >= Pow256(w) { return Some(UnsupportedType); }
        p.PackUint(w, v.n);
        return p.err;
      case Int(w) =>
        if !v.IntV? || !InRange(w, v.i) { return Some(UnsupportedType); }
        p.PackUint(w, ToUnsigned(w, v.i));
        return p.err;
      case String =>
        if !v.StringV? { return Some(UnsupportedType); }
        p.PackStr(v.s);
        return p.err;
      case Ptr(e) =>
        if !v.PtrV? { return Some(MarshalNil); }
        err := MarshalValue(env, p, stack, e, v.target);
      case Interface(name) => err := MarshalInterface(env, p, stack, name, v);
      case Slice(e) => err := MarshalSlice(env, p, stack, e, v);
      case Array(n, e) =>
        if !v.ArrayV? || |v.elts| != n { return Some(UnsupportedType); }
        err := MarshalAll(env, p, stack, Repeat(e, n), v, v.elts, false);
      case Struct(name) =>
        if !v.StructV? || |v.fields| != |env.Fields(name)| { return Some(UnsupportedType); }
        err := MarshalAll(env, p, stack, env.Fields(name), v, v.fields, false);
      case Map(kt, vt) => err := MarshalMap(env, p, stack, kt, vt, v);
      case Unsupported => return Some(UnsupportedType);
    }
  }

  method MarshalInterface(env: Env, p: Packer, stack: set<Type>, name: string, v: Value) returns (err: Option<Error>)
    requires env.WellFormed() && p.Ready()
    modifies p
    ensures Marshalled(p, old(p.bytes), old(p.offset), old(p.Limit()), Enc(env, stack, Interface(name), v), err)
    decreases v, 1
  {
    if !v.InterfaceV? || (v.dynamic, name) !in env.implements { return Some(MarshalNil); }
    if v.dynamic in stack { return Some(RecursiveInterfaceTypes); }
    if v.dynamic !in env.ids { return Some(UnregisteredType); }
    var prefix := BigEndian(4, env.ids[v.dynamic]);
    p.PackUint(4, env.ids[v.dynamic]);
    if p.err.Some? { return p.err; }
    ghost var mid, at := p.bytes, p.offset;
    err := MarshalValue(env, p, stack + {v.dynamic}, v.dynamic, v.value);
    if err.None? {
      WroteBoth(p, old(p.bytes), old(p.offset), old(p.Limit()), prefix, mid, at,
                Enc(env, stack + {v.dynamic}, v.dynamic, v.value).value);
    }
  }

  method MarshalSlice(env: Env, p: Packer, stack: set<Type>, e: Type, v: Value) returns (err: Option<Error>)
    requires env.WellFormed() && p.Ready()
    modifies p
    ensures Marshalled(p, old(p.bytes), old(p.offset), old(p.Limit()), Enc(env, stack, Slice(e), v), err)
    decreases v, 1
  {
    if !v.SliceV? { return Some(UnsupportedType); }
    var n := |v.elts|;
    if n > MaxInt32 { return Some(MaxSliceLenExceeded); }
    p.PackUint(4, n);
    if p.err.Some? { return p.err; }
    ghost var mid, at, parts := p.bytes, p.offset, EncAll(PartsOf(env, stack, v), Repeat(e, n), v.elts, true);
    if n == 0 {
      assert BigEndian(4, n) + parts.value == BigEndian(4, n);
      return None;
    }
    if e == Uint(1) {
      var ok, raw := RawBytes(v.elts);
      RawBytesAreParts(env, stack, v, v.elts);
      if !ok { return Some(UnsupportedType); }
      assert raw == parts.value;
      p.PackFixedBytes(raw);
      err := p.err;
    } else {
      err := MarshalAll(env, p, stack, Repeat(e, n), v, v.elts, true);
    }
    if err.None? {
      WroteBoth(p, old(p.bytes), old(p.offset), old(p.Limit()), BigEndian(4, n), mid, at, parts.value);
    }
  }

  ghost predicate AllBytes(vs: seq<Value>) {
    forall i :: 0 <= i < |vs| ==> vs[i].UintV? && vs[i].n < 256
  }

  /** reflect.Value.Bytes of a byte slice. */
  method RawBytes(vs: seq<Value>) returns (ok: bool, raw: Bytes)
    ensures ok <==> AllBytes(vs)
    ensures ok ==> |raw| == |vs| && forall i :: 0 <= i < |vs| ==> raw[i] == vs[i].n
  {
    raw := [];
    for i := 0 to |vs|
      invariant |raw| == i && forall j :: 0 <= j < i ==> vs[j].UintV? && vs[j].n < 256 && raw[j] == vs[j].n
    {
      if !vs[i].UintV? || vs[i].n >= 256 { return false, []; }
      raw := raw + [vs[i].n];
    }
    ok := true;
  }

  /** A byte slice is written as its bytes, whether at once or one by one. */
  lemma {:induction false} RawBytesAreParts(env: Env, stack: set<Type>, v: Value, vs: seq<Value>)
    requires forall i :: 0 <= i < |vs| ==> vs[i] < v
    ensures var e := EncAll(PartsOf(env, stack, v), Repeat(Uint(1), |vs|), vs, true);
            && (e.Some? <==> AllBytes(vs))
            && (e.Some? ==> |e.value| == |vs| && forall i :: 0 <= i < |vs| ==> e.value[i] == vs[i].n)
  {
    if vs != [] {
      RawBytesAreParts(env, stack, v, vs[1..]);
      assert Repeat(Uint(1), |vs|)[1..] == Repeat(Uint(1), |vs[1..]|);
      Laws.Pow256Values();
      assert AllBytes(vs) <==> AllBytes([vs[0]]) && AllBytes(vs[1..]) by {
        assert vs == [vs[0]] + vs[1..];
      }
      if vs[0].UintV? && vs[0].n < 256 {
        assert BigEndian(1, vs[0].n) == BigEndian(0, vs[0].n / 256) + [vs[0].n];
      }
    }
  }

  /** The elements of a slice or an array, or the fields of a struct, one after the other. */
  method MarshalAll(env: Env, p: Packer, stack: set<Type>, ts: seq<Type>, v: Value, vs: seq<Value>, nonEmpty: bool)
      returns (err: Option<Error>)
    requires env.WellFormed() && p.Ready() && |ts| == |vs| && forall i :: 0 <= i < |vs| ==> vs[i] < v
    modifies p
    ensures Marshalled(p, old(p.bytes), old(p.offset), old(p.Limit()),
                       EncAll(PartsOf(env, stack, v), ts, vs, nonEmpty), err)
    decreases v, 0
  {
    ghost var write := PartsOf(env, stack, v);
    ghost var done: Bytes := [];
    assert Overwrite(p.bytes, p.offset, done) == p.bytes;
    PrependNothing(EncAll(write, ts, vs, nonEmpty));
    assert ts[0..] == ts && vs[0..] == vs && ts[|ts|..] == [] && vs[|vs|..] == [];
    for i := 0 to |vs|
      invariant Wrote(p, old(p.bytes), old(p.offset), old(p.Limit()), done)
      invariant EncAll(write, ts, vs, nonEmpty) == Prepend(done, EncAll(write, ts[i..], vs[i..], nonEmpty))
    {
      var start := p.offset;
      ghost var b := write(ts[i], vs[i]);
      StepAll(write, ts, vs, nonEmpty, i, done);
      ghost var mid, at := p.bytes, p.offset;
      err := MarshalValue(env, p, stack, ts[i], vs[i]);
      if err.Some? { return; }
      if nonEmpty && start == p.offset { return Some(ZeroLength); }
      WroteBoth(p, old(p.bytes), old(p.offset), old(p.Limit()), done, mid, at, b.value);
      done := done + b.value;
    }
    assert done + [] == done;
    err := None;
  }

  lemma PrependNothing(e: Option<Bytes>)
    ensures Prepend([], e) == e
  {
    assert e.Some? ==> [] + e.value == e.value;
  }

  lemma StepAll(write: Writer, ts: seq<Type>, vs: seq<Value>, nonEmpty: bool, i: nat, done: Bytes)
    requires |ts| == |vs| && i < |vs|
    requires EncAll(write, ts, vs, nonEmpty) == Prepend(done, EncAll(write, ts[i..], vs[i..], nonEmpty))
    ensures var b := write(ts[i], vs[i]);
            if b.None? || (nonEmpty && b.value == []) then EncAll(write, ts, vs, nonEmpty).None?
            else EncAll(write, ts, vs, nonEmpty)
                   == Prepend(done + b.value, EncAll(write, ts[i + 1..], vs[i + 1..], nonEmpty))
  {
    assert ts[i..][1..] == ts[i + 1..] && vs[i..][1..] == vs[i + 1..];
    var b, rest := write(ts[i], vs[i]), EncAll(write, ts[i + 1..], vs[i + 1..], nonEmpty);
    if b.Some? && rest.Some? { assert done + (b.value + rest.value) == done + b.value + rest.value; }
  }

  // ---------- maps ----------

  datatype KeyTuple = KeyTuple(key: Value, startIndex: nat, endIndex: nat)

  function Keys(tuples: seq<KeyTuple>): (ks: seq<Value>)
    ensures |ks| == |tuples| && forall i :: 0 <= i < |ks| ==> ks[i] == tuples[i].key
  {
    seq(|tuples|, i requires 0 <= i < |tuples| => tuples[i].key)
  }

  /** The tuple delimits the bytes of its key in `all`, which stands at `base`. */
  ghost predicate Delimits(write: Writer, kt: Type, t: KeyTuple, all: Bytes, base: nat) {
    && base <= t.startIndex <= t.endIndex <= base + |all|
    && write(kt, t.key) == Some(all[t.startIndex - base..t.endIndex - base])
  }

  ghost predicate AllDelimit(write: Writer, kt: Type, ts: seq<KeyTuple>, all: Bytes, base: nat) {
    forall i :: 0 <= i < |ts| ==> Delimits(write, kt, ts[i], all, base)
  }

  /** Entries for the listed keys, in that order. */
  ghost function EncListed(write: Writer, kt: Type, vt: Type, ks: seq<Value>, m: map<Value, Value>): Option<Bytes>
    requires forall k :: k in ks ==> k in m
  {
    if ks == [] then Some([])
    else
      var a, b := write(kt, ks[0]), write(vt, m[ks[0]]);
      if a.None? || b.None? || |a.value| + |b.value| == 0 then None
      else Prepend(a.value + b.value, EncListed(write, kt, vt, ks[1..], m))
  }

  lemma {:induction false} EncListedIsLayout(write: Writer, kt: Type, vt: Type, ks: seq<Value>, m: map<Value, Value>,
                                             kb: map<Value, Bytes>, vb: map<Value, Bytes>)
    requires (forall k :: k in ks ==> k in m) && m.Keys == kb.Keys == vb.Keys
    requires forall k :: k in m
               ==> write(kt, k) == Some(kb[k]) && write(vt, m[k]) == Some(vb[k]) && |kb[k]| + |vb[k]| > 0
    ensures EncListed(write, kt, vt, ks, m) == Some(Layout(ks, kb, vb))
  {
    if ks != [] { EncListedIsLayout(write, kt, vt, ks[1..], m, kb, vb); }
  }

  lemma {:induction false} EncListedEncodable(write: Writer, kt: Type, vt: Type, ks: seq<Value>, m: map<Value, Value>,
                                              k: Value)
    requires (forall x :: x in ks ==> x in m) && EncListed(write, kt, vt, ks, m).Some? && k in ks
    ensures write(kt, k).Some? && write(vt, m[k]).Some? && |write(kt, k).value| + |write(vt, m[k]).value| > 0
  {
    if k != ks[0] { EncListedEncodable(write, kt, vt, ks[1..], m, k); }
  }

  lemma EncListedNeedsAll(write: Writer, kt: Type, vt: Type, ks: seq<Value>, m: map<Value, Value>)
    requires Lists(ks, m.Keys) && EncListed(write, kt, vt, ks, m).Some?
    ensures Encodable(write, kt, vt, m)
  {
    forall k | k in m
      ensures write(kt, k).Some? && write(vt, m[k]).Some? && |write(kt, k).value| + |write(vt, m[k]).value| > 0
    {
      EncListedEncodable(write, kt, vt, ks, m, k);
    }
  }

  lemma EncListedDefined(write: Writer, kt: Type, vt: Type, ks: seq<Value>, m: map<Value, Value>)
    requires Lists(ks, m.Keys)
    ensures EncListed(write, kt, vt, ks, m).Some? <==> Encodable(write, kt, vt, m)
    ensures Encodable(write, kt, vt, m) ==>
              EncListed(write, kt, vt, ks, m) == Some(Layout(ks, KeyBytes(write, kt, m), ValueBytes(write, vt, m)))
  {
    if EncListed(write, kt, vt, ks, m).Some? { EncListedNeedsAll(write, kt, vt, ks, m); }
    if Encodable(write, kt, vt, m) {
      EncListedIsLayout(write, kt, vt, ks, m, KeyBytes(write, kt, m), ValueBytes(write, vt, m));
    }
  }

  /** The bytes of the listed keys, one after the other. */
  ghost function EncKeys(write: Writer, kt: Type, ks: seq<Value>): Option<Bytes> {
    EncAll(write, Repeat(kt, |ks|), ks, false)
  }

  lemma {:induction false} EncKeysCons(write: Writer, kt: Type, ks: seq<Value>)
    requires ks != []
    ensures EncKeys(write, kt, ks) ==
            if write(kt, ks[0]).None? then None else Prepend(write(kt, ks[0]).value, EncKeys(write, kt, ks[1..]))
  {
    assert Repeat(kt, |ks|)[1..] == Repeat(kt, |ks[1..]|);
  }

  lemma {:induction false} EncKeysSome(write: Writer, kt: Type, ks: seq<Value>)
    ensures EncKeys(write, kt, ks).Some? <==> forall k :: k in ks ==> write(kt, k).Some?
  {
    if ks != [] {
      EncKeysCons(write, kt, ks);
      EncKeysSome(write, kt, ks[1..]);
      assert forall k :: k in ks <==> k == ks[0] || k in ks[1..];
    }
  }

  lemma {:induction false} EncKeysTotal(write: Writer, kt: Type, ks: seq<Value>, kb: map<Value, Bytes>)
    requires forall k :: k in ks ==> k in kb && write(kt, k) == Some(kb[k])
    ensures EncKeys(write, kt, ks).Some? && |EncKeys(write, kt, ks).value| == Total(ks, kb)
  {
    if ks != [] {
      EncKeysCons(write, kt, ks);
      EncKeysTotal(write, kt, ks[1..], kb);
    }
  }

  /** The keys take the same room in whatever order they are written. */
  lemma EncKeysLength(write: Writer, kt: Type, a: seq<Value>, b: seq<Value>, m: map<Value, Value>)
    requires Lists(a, m.Keys) && Lists(b, m.Keys) && forall k :: k in m ==> write(kt, k).Some?
    ensures EncKeys(write, kt, a).Some? && EncKeys(write, kt, b).Some?
    ensures |EncKeys(write, kt, a).value| == |EncKeys(write, kt, b).value|
  {
    var kb := KeyBytes(write, kt, m);
    EncKeysTotal(write, kt, a, kb);
    EncKeysTotal(write, kt, b, kb);
    TotalPermutation(a, b, m.Keys, kb);
  }

  lemma {:induction false} EncListedLength(write: Writer, kt: Type, vt: Type, ks: seq<Value>, m: map<Value, Value>)
    requires (forall k :: k in ks ==> k in m) && EncListed(write, kt, vt, ks, m).Some?
    ensures EncKeys(write, kt, ks).Some? && |EncKeys(write, kt, ks).value| <= |EncListed(write, kt, vt, ks, m).value|
  {
    if ks != [] {
      EncKeysCons(write, kt, ks);
      EncListedLength(write, kt, vt, ks[1..], m);
    }
  }

  method MarshalMap(env: Env, p: Packer, stack: set<Type>, kt: Type, vt: Type, v: Value) returns (err: Option<Error>)
    requires env.WellFormed() && p.Ready()
    modifies p
    ensures Marshalled(p, old(p.bytes), old(p.offset), old(p.Limit()), Enc(env, stack, Map(kt, vt), v), err)
    decreases v, 1
  {
    if !v.MapV? { return Some(UnsupportedType); }
    var keys := MapKeys(v.m);
    var n := |keys|;
    if n > MaxInt32 { return Some(MaxSliceLenExceeded); }
    p.PackUint(4, n);
    if p.err.Some? { return p.err; }
    ghost var mid, at, parts := p.bytes, p.offset, EncMap(PartsOf(env, stack, v), kt, vt, v.m);
    err := MarshalEntries(env, p, stack, kt, vt, v, keys);
    if err.None? {
      WroteBoth(p, old(p.bytes), old(p.offset), old(p.Limit()), BigEndian(4, n), mid, at, parts.value);
    }
  }

  /** reflect.Value.MapKeys: the keys in no particular order. */
  method MapKeys(m: map<Value, Value>) returns (ks: seq<Value>)
    ensures Lists(ks, m.Keys) && |ks| == |m|
  {
    ks := [];
    var left := m.Keys;
    while left != {}
      invariant left <= m.Keys && Lists(ks, m.Keys - left) && |ks| + |left| == |m|
      decreases left
    {
      var k :| k in left;
      left := left - {k};
      ks := ks + [k];
    }
  }

  method MarshalEntries(env: Env, p: Packer, stack: set<Type>, kt: Type, vt: Type, v: Value, keys: seq<Value>)
      returns (err: Option<Error>)
    requires env.WellFormed() && p.Ready() && v.MapV? && Lists(keys, v.m.Keys)
    modifies p
    ensures Marshalled(p, old(p.bytes), old(p.offset), old(p.Limit()), EncMap(PartsOf(env, stack, v), kt, vt, v.m), err)
    decreases v, 1, 0
  {
    ghost var write := PartsOf(env, stack, v);
    var startOffset := p.offset;
    var tuples;
    err, tuples := PackKeys(env, p, stack, kt, v, keys);
    if err.Some? {
      if EncMap(write, kt, vt, v.m).Some? { KeysFit(write, kt, vt, keys, v.m); }
      return;
    }
    var allKeyBytes := p.bytes[startOffset..p.offset];
    WroteAt(p, old(p.bytes), old(p.offset), old(p.Limit()), EncKeys(write, kt, keys).value);
    var sorted := SortMapKeys(env, stack, kt, vt, v, tuples, allKeyBytes, startOffset, p.bytes);
    p.offset := startOffset;
    err := PackEntries(env, p, stack, kt, vt, v, sorted, allKeyBytes, old(p.bytes));
  }

  /** Sorts the keys of a map, which stand in `buf`, into the order in which the map is written. */
  method SortMapKeys(env: Env, stack: set<Type>, kt: Type, vt: Type, v: Value, tuples: seq<KeyTuple>,
                     ghost all: Bytes, ghost base: nat, buf: Bytes) returns (sorted: seq<KeyTuple>)
    requires env.WellFormed() && v.MapV? && base + |all| <= |buf| && buf[base..base + |all|] == all
    requires Lists(Keys(tuples), v.m.Keys) && EncKeys(PartsOf(env, stack, v), kt, Keys(tuples)) == Some(all)
    requires AllDelimit(PartsOf(env, stack, v), kt, tuples, all, base)
    ensures Lists(Keys(sorted), v.m.Keys) && AllDelimit(PartsOf(env, stack, v), kt, sorted, all, base)
    ensures EncKeys(PartsOf(env, stack, v), kt, Keys(sorted)).Some?
    ensures |EncKeys(PartsOf(env, stack, v), kt, Keys(sorted)).value| == |all|
    ensures EncListed(PartsOf(env, stack, v), kt, vt, Keys(sorted), v.m) == EncMap(PartsOf(env, stack, v), kt, vt, v.m)
  {
    ghost var write := PartsOf(env, stack, v);
    TuplesInPlace(write, kt, tuples, all, base, buf);
    sorted := SortKeys(tuples, buf);
    KeysAreInjective(env, stack, kt, v, Keys(tuples));
    SortedOrder(write, kt, vt, v.m, tuples, sorted, all, base, buf);
  }

  lemma WroteAt(p: Packer, s: Bytes, off: nat, limit: int, b: Bytes)
    requires off <= |s| && Wrote(p, s, off, limit, b)
    ensures p.bytes[off..p.offset] == b
  {
  }

  lemma KeysAreInjective(env: Env, stack: set<Type>, kt: Type, v: Value, keys: seq<Value>)
    requires env.WellFormed() && v.MapV? && Lists(keys, v.m.Keys) && EncKeys(PartsOf(env, stack, v), kt, keys).Some?
    ensures forall k :: k in v.m ==> PartsOf(env, stack, v)(kt, k).Some?
    ensures Injective(KeyBytes(PartsOf(env, stack, v), kt, v.m))
  {
    EncKeysSome(PartsOf(env, stack, v), kt, keys);
    forall k | k in v.m ensures PartsOf(env, stack, v)(kt, k).Some? { assert k in keys; }
    Laws.KeyBytesInjective(env, stack, kt, v);
  }

  /** Sorting the keys by their bytes puts them in the order in which the map is to be written. */
  lemma SortedOrder(write: Writer, kt: Type, vt: Type, m: map<Value, Value>,
                    tuples: seq<KeyTuple>, sorted: seq<KeyTuple>, all: Bytes, base: nat, buf: Bytes)
    requires base + |all| <= |buf| && buf[base..base + |all|] == all
    requires (forall k :: k in m ==> write(kt, k).Some?) && Injective(KeyBytes(write, kt, m))
    requires Lists(Keys(tuples), m.Keys) && EncKeys(write, kt, Keys(tuples)) == Some(all)
    requires AllDelimit(write, kt, tuples, all, base)
    requires NoDuplicates(Keys(sorted)) && forall t :: t in sorted <==> t in tuples
    requires forall i :: 0 <= i < |sorted| ==> sorted[i].startIndex <= sorted[i].endIndex <= |buf|
    requires Sorted(Spans(buf, sorted))
    ensures Lists(Keys(sorted), m.Keys) && AllDelimit(write, kt, sorted, all, base)
    ensures EncKeys(write, kt, Keys(sorted)).Some? && |EncKeys(write, kt, Keys(sorted)).value| == |all|
    ensures EncListed(write, kt, vt, Keys(sorted), m) == EncMap(write, kt, vt, m)
  {
    SortedTuples(write, kt, m, tuples, sorted, all, base);
    TuplesInPlace(write, kt, sorted, all, base, buf);
    SortedIsSortedKeys(write, kt, sorted, m, buf);
    EncListedDefined(write, kt, vt, Keys(sorted), m);
  }

  /** If the whole map can be written, then so can its keys, in no more room. */
  lemma KeysFit(write: Writer, kt: Type, vt: Type, keys: seq<Value>, m: map<Value, Value>)
    requires Lists(keys, m.Keys) && EncMap(write, kt, vt, m).Some?
    ensures EncKeys(write, kt, keys).Some? && |EncKeys(write, kt, keys).value| <= |EncMap(write, kt, vt, m).value|
  {
    var ks := SortedKeys(KeyBytes(write, kt, m));
    SortedKeysAre(KeyBytes(write, kt, m));
    EncListedDefined(write, kt, vt, ks, m);
    EncListedLength(write, kt, vt, ks, m);
    EncKeysLength(write, kt, keys, ks, m);
  }

  lemma SubSlice(buf: Bytes, lo: nat, hi: nat, a: nat, b: nat)
    requires lo <= a <= b <= hi <= |buf|
    ensures buf[lo..hi][a - lo..b - lo] == buf[a..b]
  {
    var l, r := buf[lo..hi][a - lo..b - lo], buf[a..b];
    forall i | 0 <= i < b - a ensures l[i] == r[i] { assert l[i] == buf[lo..hi][a - lo + i]; }
  }

  lemma TuplesInPlace(write: Writer, kt: Type, tuples: seq<KeyTuple>, all: Bytes, base: nat, buf: Bytes)
    requires base + |all| <= |buf| && buf[base..base + |all|] == all
    requires AllDelimit(write, kt, tuples, all, base)
    ensures forall i :: 0 <= i < |tuples| ==> tuples[i].startIndex <= tuples[i].endIndex <= |buf|
    ensures forall i :: 0 <= i < |tuples| ==> write(kt, tuples[i].key) == Some(Spans(buf, tuples)[i])
  {
    forall i | 0 <= i < |tuples|
      ensures tuples[i].startIndex <= tuples[i].endIndex <= |buf|
      ensures write(kt, tuples[i].key) == Some(buf[tuples[i].startIndex..tuples[i].endIndex])
    {
      var t := tuples[i];
      assert Delimits(write, kt, t, all, base);
      SubSlice(buf, base, base + |all|, t.startIndex, t.endIndex);
    }
  }

  lemma SortedTuples(write: Writer, kt: Type, m: map<Value, Value>, tuples: seq<KeyTuple>, sorted: seq<KeyTuple>,
                     all: Bytes, base: nat)
    requires Lists(Keys(tuples), m.Keys) && NoDuplicates(Keys(sorted)) && forall t :: t in sorted <==> t in tuples
    requires AllDelimit(write, kt, tuples, all, base)
    requires EncKeys(write, kt, Keys(tuples)) == Some(all)
    ensures Lists(Keys(sorted), m.Keys)
    ensures AllDelimit(write, kt, sorted, all, base)
    ensures EncKeys(write, kt, Keys(sorted)).Some? && |EncKeys(write, kt, Keys(sorted)).value| == |all|
  {
    forall k ensures k in Keys(sorted) <==> k in m.Keys {
      if k in Keys(sorted) {
        var i :| 0 <= i < |sorted| && sorted[i].key == k;
        assert sorted[i] in tuples;
        assert k in Keys(tuples);
      }
      if k in m.Keys {
        assert k in Keys(tuples);
        var i :| 0 <= i < |tuples| && tuples[i].key == k;
        assert tuples[i] in sorted;
      }
    }
    forall i | 0 <= i < |sorted| ensures Delimits(write, kt, sorted[i], all, base) {
      assert sorted[i] in tuples;
    }
    EncKeysSome(write, kt, Keys(tuples));
    forall k | k in m ensures write(kt, k).Some? { assert k in Keys(tuples); }
    EncKeysLength(write, kt, Keys(tuples), Keys(sorted), m);
  }

  lemma SortedIsSortedKeys(write: Writer, kt: Type, sorted: seq<KeyTuple>, m: map<Value, Value>, buf: Bytes)
    requires forall i :: 0 <= i < |sorted| ==> sorted[i].startIndex <= sorted[i].endIndex <= |buf|
    requires forall i :: 0 <= i < |sorted| ==> write(kt, sorted[i].key) == Some(Spans(buf, sorted)[i])
    requires Lists(Keys(sorted), m.Keys) && (forall k :: k in m ==> write(kt, k).Some?)
             && Injective(KeyBytes(write, kt, m))
    requires Sorted(Spans(buf, sorted))
    ensures Keys(sorted) == SortedKeys(KeyBytes(write, kt, m))
  {
    var kb, ks := KeyBytes(write, kt, m), Keys(sorted);
    forall i, j | 0 <= i < j < |ks| ensures LessEq(kb[ks[i]], kb[ks[j]]) {
      assert kb[ks[i]] == Spans(buf, sorted)[i] && kb[ks[j]] == Spans(buf, sorted)[j];
    }
    SortedIsStrict(ks, kb);
    SortedKeysAre(kb);
    SortedIsStrict(SortedKeys(kb), kb);
    SortedListingUnique(ks, SortedKeys(kb), kb);
  }

  /** The first pass: every key, in the order given, and where each of them stands. */
  method PackKeys(env: Env, p: Packer, stack: set<Type>, kt: Type, v: Value, keys: seq<Value>)
      returns (err: Option<Error>, tuples: seq<KeyTuple>)
    requires env.WellFormed() && p.Ready() && v.MapV? && forall k :: k in keys ==> k in v.m
    modifies p
    ensures Marshalled(p, old(p.bytes), old(p.offset), old(p.Limit()), EncKeys(PartsOf(env, stack, v), kt, keys), err)
    ensures err.None? ==> Keys(tuples) == keys
    ensures err.None? ==> var write := PartsOf(env, stack, v);
                          AllDelimit(write, kt, tuples, EncKeys(write, kt, keys).value, old(p.offset))
    decreases v, 0
  {
    ghost var write, base := PartsOf(env, stack, v), p.offset;
    ghost var done: Bytes := [];
    assert Overwrite(p.bytes, p.offset, done) == p.bytes;
    tuples := [];
    var endOffset := p.offset;
    KeysNone(write, kt, keys, base);
    for i := 0 to |keys|
      invariant Wrote(p, old(p.bytes), base, old(p.Limit()), done) && endOffset == p.offset
      invariant KeysSoFar(write, kt, keys, i, tuples, done, base)
    {
      ghost var b := write(kt, keys[i]);
      assert keys[i] in keys;
      ghost var mid, at := p.bytes, p.offset;
      err := MarshalValue(env, p, stack, kt, keys[i]);
      if err.Some? {
        KeyFails(write, kt, keys, i, tuples, done, base, b, old(p.Limit()));
        return;
      }
      WroteBoth(p, old(p.bytes), base, old(p.Limit()), done, mid, at, b.value);
      var t := KeyTuple(keys[i], endOffset, p.offset);
      NextKey(write, kt, keys, i, tuples, done, base, t, b.value);
      tuples := tuples + [t];
      done := done + b.value;
      endOffset := p.offset;
    }
    KeysAll(write, kt, keys, tuples, done, base);
    err := None;
  }

  /** The first `i` keys have been written as `done`, and the tuples delimit them. */
  ghost predicate KeysSoFar(write: Writer, kt: Type, keys: seq<Value>, i: nat, tuples: seq<KeyTuple>, done: Bytes,
                            base: nat) {
    && i <= |keys| && Keys(tuples) == keys[..i] && AllDelimit(write, kt, tuples, done, base)
    && EncKeys(write, kt, keys) == Prepend(done, EncAll(write, Repeat(kt, |keys|)[i..], keys[i..], false))
  }

  lemma KeysNone(write: Writer, kt: Type, keys: seq<Value>, base: nat)
    ensures KeysSoFar(write, kt, keys, 0, [], [], base)
  {
    PrependNothing(EncKeys(write, kt, keys));
    assert Repeat(kt, |keys|)[0..] == Repeat(kt, |keys|) && keys[0..] == keys;
  }

  lemma NextKey(write: Writer, kt: Type, keys: seq<Value>, i: nat, tuples: seq<KeyTuple>, done: Bytes, base: nat,
                t: KeyTuple, b: Bytes)
    requires KeysSoFar(write, kt, keys, i, tuples, done, base) && i < |keys| && write(kt, keys[i]) == Some(b)
    requires t.key == keys[i] && t.startIndex == base + |done| && t.endIndex == t.startIndex + |b|
    ensures KeysSoFar(write, kt, keys, i + 1, tuples + [t], done + b, base)
  {
    StepAll(write, Repeat(kt, |keys|), keys, false, i, done);
    DelimitsMore(write, kt, tuples, done, base, t, b);
    assert Keys(tuples + [t]) == Keys(tuples) + [keys[i]] == keys[..i + 1];
  }

  lemma KeyFails(write: Writer, kt: Type, keys: seq<Value>, i: nat, tuples: seq<KeyTuple>, done: Bytes, base: nat,
                 b: Option<Bytes>, limit: int)
    requires KeysSoFar(write, kt, keys, i, tuples, done, base) && i < |keys| && write(kt, keys[i]) == b
    requires b.None? || base + |done| + |b.value| > limit
    ensures var e := EncKeys(write, kt, keys); !(e.Some? && base + |e.value| <= limit)
  {
    StepAll(write, Repeat(kt, |keys|), keys, false, i, done);
  }

  lemma KeysAll(write: Writer, kt: Type, keys: seq<Value>, tuples: seq<KeyTuple>, done: Bytes, base: nat)
    requires KeysSoFar(write, kt, keys, |keys|, tuples, done, base)
    ensures EncKeys(write, kt, keys) == Some(done) && Keys(tuples) == keys && AllDelimit(write, kt, tuples, done, base)
  {
    assert keys[|keys|..] == [] && keys[..|keys|] == keys && done + [] == done;
  }

  lemma DelimitsMore(write: Writer, kt: Type, tuples: seq<KeyTuple>, all: Bytes, base: nat, t: KeyTuple, b: Bytes)
    requires AllDelimit(write, kt, tuples, all, base)
    requires write(kt, t.key) == Some(b) && t.startIndex == base + |all| && t.endIndex == t.startIndex + |b|
    ensures AllDelimit(write, kt, tuples + [t], all + b, base)
  {
    var next := tuples + [t];
    assert (all + b)[|all|..|all| + |b|] == b;
    forall i | 0 <= i < |tuples| ensures Delimits(write, kt, next[i], all + b, base) {
      var x, y := tuples[i].startIndex - base, tuples[i].endIndex - base;
      assert Delimits(write, kt, tuples[i], all, base);
      assert (all + b)[x..y] == all[x..y];
    }
  }

  /** The byte strings that the tuples delimit in `buf`. */
  function Spans(buf: Bytes, ts: seq<KeyTuple>): (bs: seq<Bytes>)
    requires forall i :: 0 <= i < |ts| ==> ts[i].startIndex <= ts[i].endIndex <= |buf|
    ensures |bs| == |ts| && forall i :: 0 <= i < |ts| ==> bs[i] == buf[ts[i].startIndex..ts[i].endIndex]
  {
    seq(|ts|, i requires 0 <= i < |ts| => buf[ts[i].startIndex..ts[i].endIndex])
  }

  /** slices.SortFunc by the bytes of the keys. */
  method SortKeys(tuples: seq<KeyTuple>, buf: Bytes) returns (sorted: seq<KeyTuple>)
    requires forall i :: 0 <= i < |tuples| ==> tuples[i].startIndex <= tuples[i].endIndex <= |buf|
    requires NoDuplicates(Keys(tuples))
    ensures NoDuplicates(Keys(sorted)) && forall t :: t in sorted <==> t in tuples
    ensures forall i :: 0 <= i < |sorted| ==> sorted[i].startIndex <= sorted[i].endIndex <= |buf|
    ensures Sorted(Spans(buf, sorted))
  {
    sorted := [];
    for i := 0 to |tuples|
      invariant forall j :: 0 <= j < |sorted| ==> sorted[j].startIndex <= sorted[j].endIndex <= |buf|
      invariant forall t :: t in sorted <==> t in tuples[..i]
      invariant NoDuplicates(Keys(sorted)) && Sorted(Spans(buf, sorted))
    {
      NewKey(tuples, sorted, i);
      sorted := InsertKey(sorted, tuples[i], buf);
      assert tuples[..i + 1] == tuples[..i] + [tuples[i]];
    }
    assert tuples[..|tuples|] == tuples;
  }

  method InsertKey(sorted: seq<KeyTuple>, t: KeyTuple, buf: Bytes) returns (next: seq<KeyTuple>)
    requires t.startIndex <= t.endIndex <= |buf|
    requires forall i :: 0 <= i < |sorted| ==> sorted[i].startIndex <= sorted[i].endIndex <= |buf|
    requires NoDuplicates(Keys(sorted)) && t.key !in Keys(sorted) && Sorted(Spans(buf, sorted))
    ensures forall x :: x in next <==> x == t || x in sorted
    ensures forall i :: 0 <= i < |next| ==> next[i].startIndex <= next[i].endIndex <= |buf|
    ensures NoDuplicates(Keys(next)) && Sorted(Spans(buf, next))
  {
    var b, spans := buf[t.startIndex..t.endIndex], Spans(buf, sorted);
    var k := |sorted|;
    while k > 0 && Less(b, spans[k - 1])
      invariant 0 <= k <= |sorted|
      invariant forall j :: k <= j < |sorted| ==> Less(b, spans[j])
    {
      k := k - 1;
    }
    next := InsertAt(sorted, k, t);
    InsertSorted(spans, k, b);
    KeysInserted(sorted, k, t, next);
    SpansInserted(sorted, k, t, next, buf, spans, b);
  }

  lemma KeysInserted(sorted: seq<KeyTuple>, k: nat, t: KeyTuple, next: seq<KeyTuple>)
    requires k <= |sorted| && next == InsertAt(sorted, k, t) && NoDuplicates(Keys(sorted)) && t.key !in Keys(sorted)
    ensures NoDuplicates(Keys(next)) && forall x :: x in next <==> x == t || x in sorted
  {
    InsertDistinct(Keys(sorted), k, t.key);
    InsertMembers(sorted, k, t);
    assert Keys(next) == InsertAt(Keys(sorted), k, t.key);
  }

  lemma SpansInserted(sorted: seq<KeyTuple>, k: nat, t: KeyTuple, next: seq<KeyTuple>, buf: Bytes, spans: seq<Bytes>,
                      b: Bytes)
    requires k <= |sorted| && next == InsertAt(sorted, k, t) && t.startIndex <= t.endIndex <= |buf|
    requires forall i :: 0 <= i < |sorted| ==> sorted[i].startIndex <= sorted[i].endIndex <= |buf|
    requires spans == Spans(buf, sorted) && b == buf[t.startIndex..t.endIndex]
    ensures forall i :: 0 <= i < |next| ==> next[i].startIndex <= next[i].endIndex <= |buf|
    ensures Spans(buf, next) == InsertAt(spans, k, b)
  {
    forall i | 0 <= i < |next| ensures next[i] == if i < k then sorted[i] else if i == k then t else sorted[i - 1] {}
    assert Spans(buf, next) == InsertAt(spans, k, b);
  }

  lemma NewKey(tuples: seq<KeyTuple>, sorted: seq<KeyTuple>, i: nat)
    requires i < |tuples| && NoDuplicates(Keys(tuples)) && forall t :: t in sorted ==> t in tuples[..i]
    ensures tuples[i].key !in Keys(sorted)
  {
    forall j | 0 <= j < |sorted| ensures sorted[j].key != tuples[i].key {
      assert sorted[j] in tuples[..i];
      var l :| 0 <= l < i && tuples[l] == sorted[j];
      assert Keys(tuples)[l] != Keys(tuples)[i];
    }
  }

  lemma InsertMembers<T(!new)>(s: seq<T>, k: nat, x: T)
    requires k <= |s|
    ensures forall y :: y in InsertAt(s, k, x) <==> y == x || y in s
  {
    forall y ensures y in InsertAt(s, k, x) <==> y == x || y in s { assert s == s[..k] + s[k..]; }
  }

  lemma InsertDistinct<T>(s: seq<T>, k: nat, x: T)
    requires k <= |s| && NoDuplicates(s) && x !in s
    ensures NoDuplicates(InsertAt(s, k, x))
  {
    var r := InsertAt(s, k, x);
    assert forall i :: 0 <= i < |s| ==> s[i] in s;
    forall i, j | 0 <= i < j < |r| ensures r[i] != r[j] {
      assert r[i] == if i < k then s[i] else if i == k then x else s[i - 1];
      assert r[j] == if j < k then s[j] else if j == k then x else s[j - 1];
    }
  }

  /** The second pass: from the start of the keys again, each key in sorted order with its value. */
  method PackEntries(env: Env, p: Packer, stack: set<Type>, kt: Type, vt: Type, v: Value, sorted: seq<KeyTuple>,
                     allKeyBytes: Bytes,
                     ghost s: Bytes) returns (err: Option<Error>)
    requires env.WellFormed() && v.MapV? && forall k :: k in Keys(sorted) ==> k in v.m
    requires p.Ready() && p.offset <= |s| && p.bytes == Overwrite(s, p.offset, allKeyBytes)
    requires AllDelimit(PartsOf(env, stack, v), kt, sorted, allKeyBytes, p.offset)
    requires EncKeys(PartsOf(env, stack, v), kt, Keys(sorted)).Some?
    requires |EncKeys(PartsOf(env, stack, v), kt, Keys(sorted)).value| == |allKeyBytes|
    modifies p
    ensures Marshalled(p, s, old(p.offset), old(p.Limit()),
                       EncListed(PartsOf(env, stack, v), kt, vt, Keys(sorted), v.m), err)
    decreases v, 0
  {
    ghost var write := PartsOf(env, stack, v);
    var base := p.offset;
    ghost var done, stale: Bytes := [], allKeyBytes;
    assert done + stale == allKeyBytes;
    EntriesNone(write, kt, vt, sorted, v.m);
    for i := 0 to |sorted|
      invariant Overwrote(p, s, base, done, stale) && p.Limit() == old(p.Limit())
      invariant stale == [] || |done| + |stale| == |allKeyBytes|
      invariant EntriesSoFar(write, kt, vt, sorted, v.m, i, done)
    {
      err, done, stale := PackNext(env, p, stack, kt, vt, v, sorted, i, allKeyBytes, base, s, done, stale);
      if err.Some? { return; }
    }
    EntriesAll(write, kt, vt, sorted, v.m, done);
    WroteEntries(p, s, base, old(p.Limit()), done, stale, |allKeyBytes|);
    err := None;
  }

  /** One entry of the second pass. */
  method PackNext(env: Env, p: Packer, stack: set<Type>, kt: Type, vt: Type, v: Value, sorted: seq<KeyTuple>, i: nat,
                  allKeyBytes: Bytes, base: nat, ghost s: Bytes, ghost done: Bytes, ghost stale: Bytes)
      returns (err: Option<Error>, ghost done': Bytes, ghost stale': Bytes)
    requires env.WellFormed() && v.MapV? && (forall k :: k in Keys(sorted) ==> k in v.m) && i < |sorted|
    requires AllDelimit(PartsOf(env, stack, v), kt, sorted, allKeyBytes, base)
    requires EntriesSoFar(PartsOf(env, stack, v), kt, vt, sorted, v.m, i, done)
    requires base <= |s| && Overwrote(p, s, base, done, stale)
    modifies p
    ensures err.Some? ==>
              var e := EncListed(PartsOf(env, stack, v), kt, vt, Keys(sorted), v.m);
              !(e.Some? && base + |e.value| <= old(p.Limit()))
    ensures err.None? ==> EntriesSoFar(PartsOf(env, stack, v), kt, vt, sorted, v.m, i + 1, done')
    ensures err.None? ==> Overwrote(p, s, base, done', stale') && p.Limit() == old(p.Limit())
    ensures err.None? ==> (stale' == [] || |done'| + |stale'| == |done| + |stale|) && (stale == [] ==> stale' == [])
    decreases v, 0, 1
  {
    ghost var write := PartsOf(env, stack, v);
    KeyDelimited(write, kt, sorted, v.m, i, allKeyBytes, base);
    var keyBytes := allKeyBytes[sorted[i].startIndex - base..sorted[i].endIndex - base];
    NextEntry(write, kt, vt, sorted, v.m, i, done, keyBytes, write(vt, v.m[sorted[i].key]), base, p.Limit());
    err, done', stale' := PackEntry(env, p, stack, vt, v, sorted[i].key, keyBytes, s, base, done, stale);
  }

  /** The first `i` entries have been written as `done`. */
  ghost predicate EntriesSoFar(write: Writer, kt: Type, vt: Type, sorted: seq<KeyTuple>, m: map<Value, Value>, i: nat,
                               done: Bytes)
    requires forall k :: k in Keys(sorted) ==> k in m
  {
    && i <= |sorted|
    && EncListed(write, kt, vt, Keys(sorted), m) == Prepend(done, EncListed(write, kt, vt, Keys(sorted)[i..], m))
  }

  lemma EntriesNone(write: Writer, kt: Type, vt: Type, sorted: seq<KeyTuple>, m: map<Value, Value>)
    requires forall k :: k in Keys(sorted) ==> k in m
    ensures EntriesSoFar(write, kt, vt, sorted, m, 0, [])
  {
    PrependNothing(EncListed(write, kt, vt, Keys(sorted), m));
    assert Keys(sorted)[0..] == Keys(sorted);
  }

  lemma KeyDelimited(write: Writer, kt: Type, sorted: seq<KeyTuple>, m: map<Value, Value>, i: nat, all: Bytes,
                     base: nat)
    requires i < |sorted| && (forall k :: k in Keys(sorted) ==> k in m) && AllDelimit(write, kt, sorted, all, base)
    ensures base <= sorted[i].startIndex <= sorted[i].endIndex <= base + |all| && sorted[i].key in m
    ensures write(kt, sorted[i].key) == Some(all[sorted[i].startIndex - base..sorted[i].endIndex - base])
  {
    assert Delimits(write, kt, sorted[i], all, base);
    assert Keys(sorted)[i] in Keys(sorted);
  }

  /** One more entry, or one that cannot be written or does not fit and keeps the whole from fitting. */
  lemma NextEntry(write: Writer, kt: Type, vt: Type, sorted: seq<KeyTuple>, m: map<Value, Value>, i: nat, done: Bytes,
                  a: Bytes, b: Option<Bytes>, base: nat, limit: int)
    requires (forall k :: k in Keys(sorted) ==> k in m) && i < |sorted|
    requires EntriesSoFar(write, kt, vt, sorted, m, i, done)
    requires sorted[i].key in m && write(kt, sorted[i].key) == Some(a) && write(vt, m[sorted[i].key]) == b
    ensures b.Some? && |a| + |b.value| > 0 ==> EntriesSoFar(write, kt, vt, sorted, m, i + 1, done + a + b.value)
    ensures b.None? || |a| + |b.value| == 0 || base + |done| + |a| + |b.value| > limit ==>
              var e := EncListed(write, kt, vt, Keys(sorted), m); !(e.Some? && base + |e.value| <= limit)
  {
    var ks := Keys(sorted);
    assert ks[i..][0] == sorted[i].key && ks[i..][1..] == ks[i + 1..];
    var rest := EncListed(write, kt, vt, ks[i + 1..], m);
    if b.Some? && rest.Some? { assert done + (a + b.value + rest.value) == done + a + b.value + rest.value; }
  }

  lemma EntriesAll(write: Writer, kt: Type, vt: Type, sorted: seq<KeyTuple>, m: map<Value, Value>, done: Bytes)
    requires (forall k :: k in Keys(sorted) ==> k in m) && EncKeys(write, kt, Keys(sorted)).Some?
    requires EntriesSoFar(write, kt, vt, sorted, m, |sorted|, done)
    ensures EncListed(write, kt, vt, Keys(sorted), m) == Some(done)
    ensures |EncKeys(write, kt, Keys(sorted)).value| <= |done|
  {
    assert Keys(sorted)[|sorted|..] == [] && done + [] == done;
    EncListedLength(write, kt, vt, Keys(sorted), m);
  }

  lemma WroteEntries(p: Packer, s: Bytes, base: nat, limit: int, done: Bytes, stale: Bytes, n: nat)
    requires base <= |s| && Overwrote(p, s, base, done, stale) && p.Limit() == limit
    requires n <= |done| && (stale == [] || |done| + |stale| == n)
    ensures Marshalled(p, s, base, limit, Some(done), None)
  {
    assert done + stale == done;
  }

  /** What has been written so far, followed by what is left of the first pass. */
  ghost predicate Overwrote(p: Packer, s: Bytes, base: nat, done: Bytes, stale: Bytes)
    requires base <= |s|
    reads p
  {
    p.Ready() && p.bytes == Overwrite(s, base, done + stale) && p.offset == base + |done|
  }

  method PackEntry(env: Env, p: Packer, stack: set<Type>, vt: Type, v: Value, key: Value, keyBytes: Bytes,
                   ghost s: Bytes, ghost base: nat, ghost done: Bytes, ghost stale: Bytes)
      returns (err: Option<Error>, ghost done': Bytes, ghost stale': Bytes)
    requires env.WellFormed() && v.MapV? && key in v.m && base <= |s| && Overwrote(p, s, base, done, stale)
    modifies p
    ensures var b := Enc(env, stack, vt, v.m[key]);
            && (err.None? <==>
                b.Some? && |keyBytes| + |b.value| > 0 && base + |done| + |keyBytes| + |b.value| <= old(p.Limit()))
            && (err.None? ==> done' == done + keyBytes + b.value)
    ensures err.None? ==> Overwrote(p, s, base, done', stale') && p.Limit() == old(p.Limit())
    ensures err.None? ==> (stale' == [] || |done'| + |stale'| == |done| + |stale|) && (stale == [] ==> stale' == [])
    decreases v, 0, 0
  {
    done', stale' := done, stale;
    var keyStartOffset := p.offset;
    ghost var bytes, at := p.bytes, p.offset;
    p.PackFixedBytes(keyBytes);
    if p.err.Some? { return p.err, done, stale; }
    done', stale' := Over(s, base, done, stale, bytes, at, keyBytes);
    bytes, at := p.bytes, p.offset;
    err := MarshalValue(env, p, stack, vt, v.m[key]);
    if err.Some? { return; }
    if keyStartOffset == p.offset { return Some(ZeroLength), done', stale'; }
    done', stale' := Over(s, base, done', stale', bytes, at, Enc(env, stack, vt, v.m[key]).value);
  }

  /** Writing `z` where `done` ends takes the place of as much of what was there. */
  lemma Over(s: Bytes, base: nat, done: Bytes, stale: Bytes, bytes: Bytes, at: nat, z: Bytes)
      returns (done': Bytes, stale': Bytes)
    requires base <= |s| && bytes == Overwrite(s, base, done + stale) && at == base + |done|
    ensures done' == done + z && Overwrite(bytes, at, z) == Overwrite(s, base, done' + stale')
    ensures stale' == [] || |done'| + |stale'| == |done| + |stale|
    ensures stale == [] ==> stale' == []
  {
    OverwriteAgain(s, base, done, stale, z);
    done', stale' := done + z, if |z| <= |stale| then stale[|z|..] else [];
  }
}
