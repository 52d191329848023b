/** genericCodec.unmarshal (codec/reflectcodec/type_codec.go): reads a value out of a packer. */
module Unmarshalling {
  import opened Basics
  import opened ByteStrings
  import opened Codec
  import opened Packing
  import Laws = CodecLaws

  /** The call agrees with `r`: it fails when `r` does, and otherwise yields the same value and
      moves the offset to where that value ends. */
  ghost predicate Unmarshalled<T>(p: Packer, r: Parse<T>, err: Option<Error>, v: T)
    reads p
  {
    (err.None? <==> r.Done?) && (err.None? ==> p.Ready() && r == Done(v, p.offset))
  }

  method UnmarshalValue(env: Env, p: Packer, stack: set<Type>, t: Type) returns (err: Option<Error>, v: Value)
    requires env.Ranked() && p.Ready()
    modifies p`offset, p`err
    ensures Unmarshalled(p, Dec(env, stack, t, p.bytes, old(p.offset)), err, v)
    decreases |p.bytes| - p.offset, env.Weight(t), 3
  {
    err, v := None, OtherV;
    match t {
      case Bool =>
        var b := p.UnpackBool();
        return p.err, BoolV(b);
      case Uint(w) =>
        var n := p.UnpackUint(w);
        return p.err, UintV(n);
      case Int(w) =>
        var n := p.UnpackUint(w);
        return p.err, IntV(ToSigned(w, n));
      case String =>
        var s := p.UnpackStr();
        return p.err, StringV(s);
      case Ptr(e) =>
        var target;
        err, target := UnmarshalValue(env, p, stack, e);
        return err, PtrV(target);
      case Interface(name) => err, v := UnmarshalInterface(env, p, stack, name);
      case Slice(e) => err, v := UnmarshalSlice(env, p, stack, e);
      case Array(n, e) => err, v := UnmarshalArray(env, p, stack, n, e);
      case Struct(name) =>
        var fields;
        err, fields := UnmarshalAll(env, p, stack, env.Fields(name), env.Rank(name), false);
        return err, StructV(fields);
      case Map(kt, vt) => err, v := UnmarshalMap(env, p, stack, kt, vt);
      case Unsupported => return Some(UnsupportedType), v;
    }
  }

  method UnmarshalInterface(env: Env, p: Packer, stack: set<Type>, name: string) returns (err: Option<Error>, v: Value)
    requires env.Ranked() && p.Ready()
    modifies p`offset, p`err
    ensures Unmarshalled(p, Dec(env, stack, Interface(name), p.bytes, old(p.offset)), err, v)
    decreases |p.bytes| - p.offset, 0, 2
  {
    var id := p.UnpackUint(4);
    if p.err.Some? { return p.err, OtherV; }
    if id !in env.types { return Some(UnknownTypeID), OtherV; }
    var ct := env.types[id];
    if (ct, name) !in env.implements { return Some(DoesNotImplementInterface), OtherV; }
    if ct in stack { return Some(RecursiveInterfaceTypes), OtherV; }
    var inner;
    err, inner := UnmarshalValue(env, p, stack + {ct}, ct);
    v := InterfaceV(ct, inner);
  }

  method UnmarshalSlice(env: Env, p: Packer, stack: set<Type>, e: Type) returns (err: Option<Error>, v: Value)
    requires env.Ranked() && p.Ready()
    modifies p`offset, p`err
    ensures Unmarshalled(p, Dec(env, stack, Slice(e), p.bytes, old(p.offset)), err, v)
    decreases |p.bytes| - p.offset, 0, 2
  {
    var n := p.UnpackUint(4);
    if p.err.Some? { return p.err, OtherV; }
    if n > MaxInt32 { return Some(MaxSliceLenExceeded), OtherV; }
    var elts;
    if e == Uint(1) {
      err, elts := UnmarshalBytes(env, p, stack, n, true);
    } else {
      err, elts := UnmarshalAll(env, p, stack, Repeat(e, n), env.Weight(e), true);
    }
    v := SliceV(elts);
  }

  /** Without elements there is nothing to read, whatever their type is. */
  method UnmarshalArray(env: Env, p: Packer, stack: set<Type>, n: nat, e: Type) returns (err: Option<Error>, v: Value)
    requires env.Ranked() && p.Ready()
    modifies p`offset, p`err
    ensures Unmarshalled(p, Dec(env, stack, Array(n, e), p.bytes, old(p.offset)), err, v)
    decreases |p.bytes| - p.offset, env.Weight(Array(n, e)), 2
  {
    if n == 0 { return None, ArrayV([]); }
    var elts;
    if e == Uint(1) {
      err, elts := UnmarshalBytes(env, p, stack, n, false);
    } else {
      err, elts := UnmarshalAll(env, p, stack, Repeat(e, n), env.Weight(e), false);
    }
    v := ArrayV(elts);
  }

  /** The values of `n` bytes, taken at once. */
  method UnmarshalBytes(env: Env, p: Packer, stack: set<Type>, n: nat, nonEmpty: bool)
      returns (err: Option<Error>, elts: seq<Value>)
    requires env.Ranked() && p.Ready()
    modifies p`offset, p`err
    ensures Unmarshalled(p, DecAll(From(env, stack, p.bytes, old(p.offset), 0), Repeat(Uint(1), n), old(p.offset),
                                   nonEmpty), err, elts)
  {
    var raw := p.UnpackFixedBytes(n);
    elts := seq(|raw|, i requires 0 <= i < |raw| => UintV(raw[i]));
    err := p.err;
    FromReadsBytes(env, stack, p.bytes, old(p.offset));
    BytesOneByOne(From(env, stack, p.bytes, old(p.offset), 0), p.bytes, old(p.offset), old(p.offset), n, nonEmpty);
    if err.None? { assert elts == ByteValues(p.bytes[old(p.offset)..old(p.offset) + n]); }
  }

  function ByteValues(b: Bytes): seq<Value> {
    seq(|b|, i requires 0 <= i < |b| => UintV(b[i]))
  }

  ghost predicate ReadsBytes(read: Reader, buf: Bytes, lo: nat) {
    forall o: nat :: lo <= o <= |buf| ==>
      read(Uint(1), o) == if o < |buf| then Done(UintV(buf[o]), o + 1) else Fail
  }

  lemma FromReadsBytes(env: Env, stack: set<Type>, buf: Bytes, lo: nat)
    requires env.Ranked() && lo <= |buf|
    ensures ReadsBytes(From(env, stack, buf, lo, 0), buf, lo)
  {
    forall o: nat | lo <= o <= |buf|
      ensures From(env, stack, buf, lo, 0)(Uint(1), o) == if o < |buf| then Done(UintV(buf[o]), o + 1) else Fail
    {
      if o < |buf| { ByteAt(buf, o); }
      assert Dec(env, stack, Uint(1), buf, o) == DecScalar(Uint(1), buf, o);
    }
  }

  lemma ByteAt(buf: Bytes, o: nat)
    requires o < |buf|
    ensures IntAt(buf, o, 1) == buf[o]
  {
    var s := buf[o..o + 1];
    var hi := s[..|s| - 1];
    assert |s| == 1 && hi == [] && FromBigEndian(hi) == 0 && s[0] == buf[o];
    assert FromBigEndian(s) == FromBigEndian(hi) * 256 + s[0];
  }

  lemma {:induction false} BytesOneByOne(read: Reader, buf: Bytes, lo: nat, off: nat, n: nat, nonEmpty: bool)
    requires lo <= off <= |buf| && ReadsBytes(read, buf, lo)
    ensures DecAll(read, Repeat(Uint(1), n), off, nonEmpty) ==
            if off + n <= |buf| then Done(ByteValues(buf[off..off + n]), off + n) else Fail
    decreases n
  {
    if n == 0 {
      assert ByteValues(buf[off..off]) == [];
    } else if off < |buf| {
      assert Repeat(Uint(1), n)[1..] == Repeat(Uint(1), n - 1);
      BytesOneByOne(read, buf, lo, off + 1, n - 1, nonEmpty);
      if off + n <= |buf| {
        assert [UintV(buf[off])] + ByteValues(buf[off + 1..off + n]) == ByteValues(buf[off..off + n]);
      }
    }
  }

  function Then<T>(done: seq<T>, rest: Parse<seq<T>>): Parse<seq<T>> {
    if rest.Fail? then Fail else Done(done + rest.value, rest.end)
  }

  lemma ThenNothing<T>(r: Parse<seq<T>>)
    ensures Then([], r) == r
  {
    assert r.Done? ==> [] + r.value == r.value;
  }

  /** The elements of a slice or an array, or the fields of a struct, one after the other. */
  method UnmarshalAll(env: Env, p: Packer, stack: set<Type>, ts: seq<Type>, w: nat, nonEmpty: bool)
      returns (err: Option<Error>, vs: seq<Value>)
    requires env.Ranked() && p.Ready() && env.Light(ts, w)
    modifies p`offset, p`err
    ensures Unmarshalled(p, DecAll(From(env, stack, p.bytes, old(p.offset), w), ts, old(p.offset), nonEmpty), err, vs)
    decreases |p.bytes| - p.offset, w, 4
  {
    ghost var start := p.offset;
    ghost var read := From(env, stack, p.bytes, start, w);
    vs := [];
    ThenNothing(DecAll(read, ts, start, nonEmpty));
    assert ts[0..] == ts && ts[|ts|..] == [];
    for i := 0 to |ts|
      invariant p.Ready() && start <= p.offset
      invariant p.offset == start ==> forall j :: 0 <= j < i ==> !env.Eats(ts[j])
      invariant DecAll(read, ts, start, nonEmpty) == Then(vs, DecAll(read, ts[i..], p.offset, nonEmpty))
    {
      var startOffset := p.offset;
      ghost var r := read(ts[i], p.offset);
      assert r == Dec(env, stack, ts[i], p.bytes, p.offset);
      StepAll(read, ts, nonEmpty, start, i, vs, p.offset);
      var v;
      err, v := UnmarshalValue(env, p, stack, ts[i]);
      if err.Some? { return; }
      if env.Eats(ts[i]) { Laws.DecEats(env, stack, ts[i], p.bytes, startOffset); }
      if nonEmpty && startOffset == p.offset { return Some(ZeroLength), vs; }
      vs := vs + [v];
    }
    assert vs + [] == vs;
    err := None;
  }

  lemma StepAll(read: Reader, ts: seq<Type>, nonEmpty: bool, start: nat, i: nat, done: seq<Value>, off: nat)
    requires i < |ts| && DecAll(read, ts, start, nonEmpty) == Then(done, DecAll(read, ts[i..], off, nonEmpty))
    ensures var r := read(ts[i], off);
            if r.Fail? || (nonEmpty && r.end == off) then DecAll(read, ts, start, nonEmpty).Fail?
            else DecAll(read, ts, start, nonEmpty) == Then(done + [r.value], DecAll(read, ts[i + 1..], r.end, nonEmpty))
  {
    assert ts[i..][1..] == ts[i + 1..];
    var r := read(ts[i], off);
    if r.Done? {
      var rest := DecAll(read, ts[i + 1..], r.end, nonEmpty);
      if rest.Done? { assert done + ([r.value] + rest.value) == done + [r.value] + rest.value; }
    }
  }

  method UnmarshalMap(env: Env, p: Packer, stack: set<Type>, kt: Type, vt: Type) returns (err: Option<Error>, v: Value)
    requires env.Ranked() && p.Ready()
    modifies p`offset, p`err
    ensures Unmarshalled(p, Dec(env, stack, Map(kt, vt), p.bytes, old(p.offset)), err, v)
    decreases |p.bytes| - p.offset, 0, 2
  {
    var n := p.UnpackUint(4);
    if p.err.Some? { return p.err, OtherV; }
    if n > MaxInt32 { return Some(MaxSliceLenExceeded), OtherV; }
    var m;
    ghost var es;
    err, m, es := UnmarshalEntries(env, p, stack, kt, vt, n,
                                   From(env, stack, p.bytes, p.offset, Max(env.Weight(kt), env.Weight(vt))));
    v := MapV(m);
  }

  /** `n` entries, each assigned to the map as soon as it has been read. */
  method UnmarshalEntries(env: Env, p: Packer, stack: set<Type>, kt: Type, vt: Type, n: nat, ghost read: Reader)
      returns (err: Option<Error>, m: map<Value, Value>, ghost es: seq<(Value, Value)>)
    requires env.Ranked() && p.Ready() && Bounded(read, |p.bytes|)
    requires read == From(env, stack, p.bytes, p.offset, Max(env.Weight(kt), env.Weight(vt)))
    modifies p`offset, p`err
    ensures Unmarshalled(p, DecEntries(read, kt, vt, n, None, p.bytes, old(p.offset)), err, es)
    ensures err.None? ==> m == ToMap(es)
    decreases |p.bytes| - p.offset, Max(env.Weight(kt), env.Weight(vt)), 4
  {
    ghost var start, buf := p.offset, p.bytes;
    ghost var all := DecEntries(read, kt, vt, n, None, buf, start);
    var prevKey: Option<Bytes> := None;
    m, es := map[], [];
    ThenNothing(all);
    var left := n;
    while left > 0
      invariant p.Ready() && start <= p.offset && p.bytes == buf && m == ToMap(es)
      invariant all == Then(es, DecEntries(read, kt, vt, left, prevKey, buf, p.offset))
    {
      ghost var off := p.offset;
      var k, x, keyBytes;
      ghost var mid;
      err, k, x, keyBytes, mid := UnmarshalEntry(env, p, stack, kt, vt, prevKey, start, read, left);
      if err.Some? { return; }
      ghost var n', prev, done := left, prevKey, es;
      left, prevKey, m, es := left - 1, Some(keyBytes), m[k := x], es + [(k, x)];
      StepEntries(read, kt, vt, n', prev, buf, off, k, mid, x, done, all, left, prevKey, p.offset, es);
    }
    assert es + [] == es;
    err := None;
  }

  method UnmarshalEntry(env: Env, p: Packer, stack: set<Type>, kt: Type, vt: Type, prevKey: Option<Bytes>,
                        ghost start: nat, ghost read: Reader, ghost n: nat)
      returns (err: Option<Error>, k: Value, x: Value, keyBytes: Bytes, ghost mid: nat)
    requires env.Ranked() && p.Ready() && start <= p.offset && n > 0 && Bounded(read, |p.bytes|)
    requires read == From(env, stack, p.bytes, start, Max(env.Weight(kt), env.Weight(vt)))
    modifies p`offset, p`err
    ensures if err.None? then
              && p.Ready() && old(p.offset) < p.offset && old(p.offset) <= mid <= p.offset
              && read(kt, old(p.offset)) == Done(k, mid) && read(vt, mid) == Done(x, p.offset)
              && keyBytes == p.bytes[old(p.offset)..mid] && (prevKey.Some? ==> Less(prevKey.value, keyBytes))
            else DecEntries(read, kt, vt, n, prevKey, p.bytes, old(p.offset)).Fail?
    decreases |p.bytes| - p.offset, Max(env.Weight(kt), env.Weight(vt)), 4, 0
  {
    var keyStartOffset := p.offset;
    assert read(kt, p.offset) == Dec(env, stack, kt, p.bytes, p.offset);
    x, keyBytes, mid := OtherV, [], 0;
    err, k := UnmarshalValue(env, p, stack, kt);
    if err.Some? { return; }
    keyBytes, mid := p.bytes[keyStartOffset..p.offset], p.offset;
    if prevKey.Some? && !Less(prevKey.value, keyBytes) { return Some(KeysNotSorted), k, x, keyBytes, mid; }
    assert read(vt, mid) == Dec(env, stack, vt, p.bytes, mid);
    err, x := UnmarshalValue(env, p, stack, vt);
    if err.None? && keyStartOffset == p.offset { err := Some(ZeroLength); }
  }

  lemma StepEntries(read: Reader, kt: Type, vt: Type, n: nat, prev: Option<Bytes>, buf: Bytes, off: nat,
                    k: Value, mid: nat, x: Value, done: seq<(Value, Value)>, all: Parse<seq<(Value, Value)>>,
                    n': nat, prev': Option<Bytes>, off': nat, done': seq<(Value, Value)>)
    requires Bounded(read, |buf|) && n > 0 && read(kt, off) == Done(k, mid) && read(vt, mid) == Done(x, off')
             && off' != off
    requires n' == n - 1 && prev' == Some(buf[off..mid]) && (prev.Some? ==> Less(prev.value, prev'.value))
             && done' == done + [(k, x)]
    requires all == Then(done, DecEntries(read, kt, vt, n, prev, buf, off))
    ensures all == Then(done', DecEntries(read, kt, vt, n', prev', buf, off'))
    ensures ToMap(done') == ToMap(done)[k := x]
  {
    assert done'[..|done|] == done;
    var rest := DecEntries(read, kt, vt, n', prev', buf, off');
    if rest.Done? { assert done + ([(k, x)] + rest.value) == done' + rest.value; }
  }

  /** genericCodec.Unmarshal: everything has to be read. */
  method UnmarshalFrom(env: Env, bytes: Bytes, t: Type) returns (err: Option<Error>, v: Value)
    requires env.Ranked()
    ensures err.None? <==> Unmarshal(env, t, bytes).Some?
    ensures err.None? ==> Unmarshal(env, t, bytes) == Some(v)
  {
    var p := new Packer(0, bytes);
    err, v := UnmarshalValue(env, p, {}, t);
    if err.None? && p.offset != |bytes| {
      err := Some(ExtraSpace);
    }
  }
}
