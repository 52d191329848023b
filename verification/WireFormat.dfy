/** What the bytes of an encoding are (codec/reflectcodec/type_codec.go), place by place: where numbers,
    lengths, parts and entries stand, and which values have no encoding. */
module WireFormat {
  import opened Basics
  import opened ByteStrings
  import opened Codec
  import Laws = CodecLaws

  // ---------- scalars ----------

  /** The bytes of a number at the beginning of `b`, the most significant one first. */
  ghost predicate BeginsWith(b: Bytes, w: nat, n: nat) {
    |b| >= w && forall i :: 0 <= i < w ==> b[i] == n / Pow256(w - 1 - i) % 256
  }

  lemma NumberFirst(w: nat, n: nat, rest: Bytes)
    ensures BeginsWith(BigEndian(w, n) + rest, w, n)
  {
    forall i | 0 <= i < w ensures (BigEndian(w, n) + rest)[i] == n / Pow256(w - 1 - i) % 256 { BigEndianAt(w, n, i); }
  }

  lemma BoolFormat(env: Env, stack: set<Type>, v: Value)
    ensures Enc(env, stack, Bool, v) == if v == BoolV(true) then Some([1]) else if v == BoolV(false) then Some([0])
                                        else None
  {
  }

  /** A number takes its width; there is no other restriction but that it fits. */
  lemma UintFormat(env: Env, stack: set<Type>, w: Width, v: Value)
    ensures Enc(env, stack, Uint(w), v).Some? <==> v.UintV? && v.n < Pow256(w)
    ensures Enc(env, stack, Uint(w), v).Some? ==>
              |Enc(env, stack, Uint(w), v).value| == w && BeginsWith(Enc(env, stack, Uint(w), v).value, w, v.n)
  {
    if v.UintV? && v.n < Pow256(w) {
      NumberFirst(w, v.n, []);
      assert BigEndian(w, v.n) + [] == BigEndian(w, v.n);
    }
  }

  /** A negative number is written as its two's complement. */
  lemma IntFormat(env: Env, stack: set<Type>, w: Width, v: Value)
    ensures Enc(env, stack, Int(w), v).Some? <==> v.IntV? && 0 <= 2 * v.i + Pow256(w) < 2 * Pow256(w)
    ensures Enc(env, stack, Int(w), v).Some? ==>
              && |Enc(env, stack, Int(w), v).value| == w
              && BeginsWith(Enc(env, stack, Int(w), v).value, w, v.i % Pow256(w))
  {
    if v.IntV? {
      TwosComplement(w, v.i);
      NumberFirst(w, v.i % Pow256(w), []);
      assert BigEndian(w, v.i % Pow256(w)) + [] == BigEndian(w, v.i % Pow256(w));
    }
  }

  lemma TwosComplement(w: Width, i: int)
    ensures InRange(w, i) <==> 0 <= 2 * i + Pow256(w) < 2 * Pow256(w)
    ensures InRange(w, i) ==> ToUnsigned(w, i) == i % Pow256(w)
  {
    HalfRange(Pow256(w), 128 * Pow256(w - 1), i);
  }

  lemma HalfRange(p: nat, half: nat, i: int)
    requires p == 2 * half && half > 0
    ensures -(p / 2) <= i < p / 2 <==> 0 <= 2 * i + p < 2 * p
    ensures -(p / 2) <= i < p / 2 ==> i % p == if i >= 0 then i else i + p
  {
    if 0 <= i < p { Quotient(i, p, 0, i); }
    if 0 <= i + p < p { Remainder(i, p); }
  }

  lemma Remainder(i: int, p: nat)
    requires 0 <= i + p < p
    ensures i % p == i + p
  {
    var d := i / p;
    assert i == d * p + i % p;
    assert d >= 0 ==> d * p >= 0;
    assert d <= -2 ==> d * p <= -2 * p;
  }

  lemma StringFormat(env: Env, stack: set<Type>, v: Value)
    ensures Enc(env, stack, String, v).Some? <==> v.StringV? && |v.s| <= 65535
    ensures Enc(env, stack, String, v).Some? ==>
              BeginsWith(Enc(env, stack, String, v).value, 2, |v.s|) && Enc(env, stack, String, v).value[2..] == v.s
  {
    if v.StringV? && |v.s| <= 65535 { NumberFirst(2, |v.s|, v.s); }
  }

  lemma OtherFormat(env: Env, stack: set<Type>, e: Type, v: Value)
    ensures Enc(env, stack, Unsupported, v).None?
    ensures Enc(env, stack, Ptr(e), v) == if v.PtrV? then Enc(env, stack, e, v.target) else None
  {
  }

  /** An interface is written as the ID of the concrete type and the value, unless that type is unknown, does not
      implement the interface or is being written already. */
  lemma InterfaceFormat(env: Env, stack: set<Type>, name: string, v: Value)
    ensures var e := Enc(env, stack, Interface(name), v);
            && (e.Some? <==>
                && v.InterfaceV? && v.dynamic in env.ids && (v.dynamic, name) in env.implements && v.dynamic !in stack
                && Enc(env, stack + {v.dynamic}, v.dynamic, v.value).Some?)
            && (e.Some? ==>
                && BeginsWith(e.value, 4, env.ids[v.dynamic])
                && Some(e.value[4..]) == Enc(env, stack + {v.dynamic}, v.dynamic, v.value))
  {
    if Enc(env, stack, Interface(name), v).Some? {
      NumberFirst(4, env.ids[v.dynamic], Enc(env, stack + {v.dynamic}, v.dynamic, v.value).value);
    }
  }

  // ---------- parts ----------

  /** The part has an encoding, of at least one byte where that is demanded. */
  ghost predicate Written(env: Env, stack: set<Type>, t: Type, v: Value, nonEmpty: bool) {
    var e := Enc(env, stack, t, v);
    e.Some? && (nonEmpty ==> e.value != [])
  }

  ghost predicate AllWritten(env: Env, stack: set<Type>, ts: seq<Type>, vs: seq<Value>, nonEmpty: bool)
    requires |ts| == |vs|
  {
    forall i :: 0 <= i < |vs| ==> Written(env, stack, ts[i], vs[i], nonEmpty)
  }

  /** Where part `k` begins: behind all parts before it. */
  ghost function PlaceOf(env: Env, stack: set<Type>, ts: seq<Type>, vs: seq<Value>, k: nat): nat
    requires k <= |ts| == |vs| && AllWritten(env, stack, ts, vs, false)
  {
    if k == 0 then 0
    else
      assert Written(env, stack, ts[k - 1], vs[k - 1], false);
      PlaceOf(env, stack, ts, vs, k - 1) + |Enc(env, stack, ts[k - 1], vs[k - 1]).value|
  }

  /** `b` consists of the parts, each of which stands in its place. */
  ghost predicate ArePlaced(env: Env, stack: set<Type>, ts: seq<Type>, vs: seq<Value>, b: Bytes)
    requires |ts| == |vs| && AllWritten(env, stack, ts, vs, false)
  {
    && |b| == PlaceOf(env, stack, ts, vs, |vs|)
    && forall k :: 0 <= k < |vs| ==> IsPlaced(env, stack, ts, vs, b, k)
  }

  ghost predicate IsPlaced(env: Env, stack: set<Type>, ts: seq<Type>, vs: seq<Value>, b: Bytes, k: nat)
    requires k < |ts| == |vs| && AllWritten(env, stack, ts, vs, false)
  {
    assert Written(env, stack, ts[k], vs[k], false);
    Laws.At(b, PlaceOf(env, stack, ts, vs, k), Enc(env, stack, ts[k], vs[k]).value)
  }

  lemma TailWritten(env: Env, stack: set<Type>, ts: seq<Type>, vs: seq<Value>, nonEmpty: bool)
    requires |ts| == |vs| > 0
    ensures AllWritten(env, stack, ts, vs, nonEmpty) <==>
            Written(env, stack, ts[0], vs[0], nonEmpty) && AllWritten(env, stack, ts[1..], vs[1..], nonEmpty)
  {
    if AllWritten(env, stack, ts[1..], vs[1..], nonEmpty) {
      forall i | 0 < i < |vs| ensures Written(env, stack, ts[i], vs[i], nonEmpty) {
        assert Written(env, stack, ts[1..][i - 1], vs[1..][i - 1], nonEmpty);
      }
    }
  }

  lemma {:induction false} PlacesFollow(env: Env, stack: set<Type>, ts: seq<Type>, vs: seq<Value>, k: nat)
    requires k < |ts| == |vs| && AllWritten(env, stack, ts, vs, false)
    requires Written(env, stack, ts[0], vs[0], false) && AllWritten(env, stack, ts[1..], vs[1..], false)
    ensures PlaceOf(env, stack, ts, vs, k + 1) ==
            |Enc(env, stack, ts[0], vs[0]).value| + PlaceOf(env, stack, ts[1..], vs[1..], k)
  {
    if k > 0 {
      PlacesFollow(env, stack, ts, vs, k - 1);
      assert ts[1..][k - 1] == ts[k] && vs[1..][k - 1] == vs[k];
    } else {
      assert PlaceOf(env, stack, ts, vs, 0) == 0;
    }
  }

  lemma PlacedCons(env: Env, stack: set<Type>, ts: seq<Type>, vs: seq<Value>, first: Bytes, rest: Bytes)
    requires |ts| == |vs| > 0
    requires AllWritten(env, stack, ts, vs, false) && AllWritten(env, stack, ts[1..], vs[1..], false)
    requires Enc(env, stack, ts[0], vs[0]) == Some(first) && ArePlaced(env, stack, ts[1..], vs[1..], rest)
    ensures ArePlaced(env, stack, ts, vs, first + rest)
  {
    PlacesFollow(env, stack, ts, vs, |vs| - 1);
    forall k | 0 <= k < |vs| ensures IsPlaced(env, stack, ts, vs, first + rest, k) {
      if k > 0 {
        PlacesFollow(env, stack, ts, vs, k - 1);
        assert IsPlaced(env, stack, ts[1..], vs[1..], rest, k - 1);
        StandsBehind(first, rest, PlaceOf(env, stack, ts[1..], vs[1..], k - 1), Enc(env, stack, ts[k], vs[k]).value);
      } else {
        assert (first + rest)[0..|first|] == first;
      }
    }
  }

  lemma StandsBehind(first: Bytes, rest: Bytes, o: nat, b: Bytes)
    requires Laws.At(rest, o, b)
    ensures Laws.At(first + rest, |first| + o, b)
  {
    assert (first + rest)[|first| + o..|first| + o + |b|] == rest[o..o + |b|];
  }

  lemma {:induction false} PartsPlaced(env: Env, stack: set<Type>, v: Value, ts: seq<Type>, vs: seq<Value>,
                                       nonEmpty: bool)
    requires |ts| == |vs| && forall i :: 0 <= i < |vs| ==> vs[i] < v
    ensures EncAll(PartsOf(env, stack, v), ts, vs, nonEmpty).Some? <==> AllWritten(env, stack, ts, vs, nonEmpty)
    ensures AllWritten(env, stack, ts, vs, nonEmpty) ==>
              && AllWritten(env, stack, ts, vs, false)
              && ArePlaced(env, stack, ts, vs, EncAll(PartsOf(env, stack, v), ts, vs, nonEmpty).value)
    decreases |vs|
  {
    if vs != [] {
      PartsPlaced(env, stack, v, ts[1..], vs[1..], nonEmpty);
      TailWritten(env, stack, ts, vs, nonEmpty);
      TailWritten(env, stack, ts, vs, false);
      if AllWritten(env, stack, ts, vs, nonEmpty) {
        PlacedCons(env, stack, ts, vs, Enc(env, stack, ts[0], vs[0]).value,
                   EncAll(PartsOf(env, stack, v), ts[1..], vs[1..], nonEmpty).value);
      }
    }
  }

  /** A slice is its length and its elements, each in its place; none may be empty. */
  lemma SliceFormat(env: Env, stack: set<Type>, e: Type, v: Value)
    ensures Enc(env, stack, Slice(e), v).Some? <==>
            v.SliceV? && |v.elts| <= 0x7FFF_FFFF && AllWritten(env, stack, Repeat(e, |v.elts|), v.elts, true)
    ensures Enc(env, stack, Slice(e), v).Some? ==>
              && BeginsWith(Enc(env, stack, Slice(e), v).value, 4, |v.elts|)
              && AllWritten(env, stack, Repeat(e, |v.elts|), v.elts, false)
              && ArePlaced(env, stack, Repeat(e, |v.elts|), v.elts, Enc(env, stack, Slice(e), v).value[4..])
  {
    if v.SliceV? {
      PartsPlaced(env, stack, v, Repeat(e, |v.elts|), v.elts, true);
      var all := EncAll(PartsOf(env, stack, v), Repeat(e, |v.elts|), v.elts, true);
      if all.Some? {
        LengthAndRest(|v.elts|, all.value);
      }
    }
  }

  /** An array is its elements, and a struct its fields; these may be empty. */
  lemma ArrayFormat(env: Env, stack: set<Type>, n: nat, e: Type, v: Value)
    ensures Enc(env, stack, Array(n, e), v).Some? <==>
            v.ArrayV? && |v.elts| == n && AllWritten(env, stack, Repeat(e, n), v.elts, false)
    ensures Enc(env, stack, Array(n, e), v).Some? ==>
              ArePlaced(env, stack, Repeat(e, n), v.elts, Enc(env, stack, Array(n, e), v).value)
  {
    if v.ArrayV? && |v.elts| == n { PartsPlaced(env, stack, v, Repeat(e, n), v.elts, false); }
  }

  lemma StructFormat(env: Env, stack: set<Type>, name: string, v: Value)
    ensures var ts := env.Fields(name);
            && (Enc(env, stack, Struct(name), v).Some? <==>
                v.StructV? && |v.fields| == |ts| && AllWritten(env, stack, ts, v.fields, false))
            && (Enc(env, stack, Struct(name), v).Some? ==>
                ArePlaced(env, stack, ts, v.fields, Enc(env, stack, Struct(name), v).value))
  {
    if v.StructV? && |v.fields| == |env.Fields(name)| {
      PartsPlaced(env, stack, v, env.Fields(name), v.fields, false);
    }
  }

  // ---------- maps ----------

  /** A map is its length and, from key to key, the key and its value. */
  ghost function EntriesOf(env: Env, stack: set<Type>, kt: Type, vt: Type, m: map<Value, Value>, ks: seq<Value>): Bytes
    requires forall k :: k in ks ==> k in m && Enc(env, stack, kt, k).Some? && Enc(env, stack, vt, m[k]).Some?
  {
    if ks == [] then []
    else
      assert ks[0] in ks;
      Enc(env, stack, kt, ks[0]).value + Enc(env, stack, vt, m[ks[0]]).value
        + EntriesOf(env, stack, kt, vt, m, ks[1..])
  }

  /** All keys and values have an encoding, and no entry is empty. */
  ghost predicate EntriesWritten(env: Env, stack: set<Type>, kt: Type, vt: Type, m: map<Value, Value>) {
    forall k :: k in m ==>
      && Enc(env, stack, kt, k).Some? && Enc(env, stack, vt, m[k]).Some?
      && (Enc(env, stack, kt, k).value != [] || Enc(env, stack, vt, m[k]).value != [])
  }

  /** Whichever listing of the keys has their bytes in increasing order is the order of the entries. */
  lemma MapFormat(env: Env, stack: set<Type>, kt: Type, vt: Type, v: Value, ks: seq<Value>)
    ensures Enc(env, stack, Map(kt, vt), v).Some? <==>
            v.MapV? && |v.m| <= 0x7FFF_FFFF && EntriesWritten(env, stack, kt, vt, v.m)
    ensures Enc(env, stack, Map(kt, vt), v).Some? && Lists(ks, v.m.Keys) && Ascend(env, stack, kt, v.m, ks) ==>
              && BeginsWith(Enc(env, stack, Map(kt, vt), v).value, 4, |v.m|)
              && Enc(env, stack, Map(kt, vt), v).value[4..] == EntriesOf(env, stack, kt, vt, v.m, ks)
  {
    if v.MapV? {
      var write := PartsOf(env, stack, v);
      PartsWrite(env, stack, kt, vt, v);
      EncodableIff(env, stack, kt, vt, v.m, write);
      if Encodable(write, kt, vt, v.m) && Lists(ks, v.m.Keys) && Ascend(env, stack, kt, v.m, ks) {
        MapEntries(env, stack, kt, vt, v.m, ks, write);
        LengthAndRest(|v.m|, EncMap(write, kt, vt, v.m).value);
      }
    }
  }

  lemma LengthAndRest(n: nat, rest: Bytes)
    ensures BeginsWith(BigEndian(4, n) + rest, 4, n) && (BigEndian(4, n) + rest)[4..] == rest
  {
    NumberFirst(4, n, rest);
  }

  lemma PartsWrite(env: Env, stack: set<Type>, kt: Type, vt: Type, v: Value)
    requires v.MapV?
    ensures var write := PartsOf(env, stack, v);
            forall k :: k in v.m ==>
              write(kt, k) == Enc(env, stack, kt, k) && write(vt, v.m[k]) == Enc(env, stack, vt, v.m[k])
  {
    forall k | k in v.m ensures k < v && v.m[k] < v {}
  }

  lemma EncodableIff(env: Env, stack: set<Type>, kt: Type, vt: Type, m: map<Value, Value>, write: Writer)
    requires forall k :: k in m ==>
               write(kt, k) == Enc(env, stack, kt, k) && write(vt, m[k]) == Enc(env, stack, vt, m[k])
    ensures EntriesWritten(env, stack, kt, vt, m) <==> Encodable(write, kt, vt, m)
  {
  }

  lemma MapEntries(env: Env, stack: set<Type>, kt: Type, vt: Type, m: map<Value, Value>, ks: seq<Value>, write: Writer)
    requires forall k :: k in m ==>
               write(kt, k) == Enc(env, stack, kt, k) && write(vt, m[k]) == Enc(env, stack, vt, m[k])
    requires Encodable(write, kt, vt, m) && Lists(ks, m.Keys) && Ascend(env, stack, kt, m, ks)
    ensures EntriesWritten(env, stack, kt, vt, m)
    ensures EncMap(write, kt, vt, m) == Some(EntriesOf(env, stack, kt, vt, m, ks))
  {
    forall i, j | 0 <= i < j < |ks|
      ensures write(kt, ks[i]).Some? && write(kt, ks[j]).Some?
              && Less(write(kt, ks[i]).value, write(kt, ks[j]).value) {
      assert ks[i] in ks && ks[j] in ks;
      LessIffPrecedes(write(kt, ks[i]).value, write(kt, ks[j]).value);
    }
    Laws.SortedListing(write, kt, ks, m);
    LayoutIs(env, stack, kt, vt, m, ks, KeyBytes(write, kt, m), ValueBytes(write, vt, m));
  }

  /** The bytes of the keys are in the order of the first bytes that differ. */
  ghost predicate Ascend(env: Env, stack: set<Type>, kt: Type, m: map<Value, Value>, ks: seq<Value>) {
    && (forall k :: k in ks ==> k in m && Enc(env, stack, kt, k).Some?)
    && forall i, j :: 0 <= i < j < |ks| ==>
         Enc(env, stack, kt, ks[i]).Some? && Enc(env, stack, kt, ks[j]).Some?
         && Precedes(Enc(env, stack, kt, ks[i]).value, Enc(env, stack, kt, ks[j]).value)
  }

  lemma {:induction false} LayoutIs(env: Env, stack: set<Type>, kt: Type, vt: Type, m: map<Value, Value>,
                                    ks: seq<Value>, kb: map<Value, Bytes>, vb: map<Value, Bytes>)
    requires forall k :: k in ks ==> k in m && k in kb && k in vb
    requires forall k :: k in ks ==> Enc(env, stack, kt, k) == Some(kb[k]) && Enc(env, stack, vt, m[k]) == Some(vb[k])
    ensures Layout(ks, kb, vb) == EntriesOf(env, stack, kt, vt, m, ks)
    decreases |ks|
  {
    if ks != [] {
      assert ks[0] in ks;
      LayoutIs(env, stack, kt, vt, m, ks[1..], kb, vb);
    }
  }

  lemma NumbersPrecede(env: Env, stack: set<Type>, w: Width, m: map<Value, Value>, ns: seq<nat>, ks: seq<Value>)
    requires |ks| == |ns| && forall i :: 0 <= i < |ns| ==> ks[i] == UintV(ns[i])
    requires forall i, j :: 0 <= i < j < |ns| ==> ns[i] < ns[j]
    requires forall k :: k in ks ==> k in m && Enc(env, stack, Uint(w), k).Some?
    ensures NoDuplicates(ks) && Ascend(env, stack, Uint(w), m, ks)
  {
    forall i, j | 0 <= i < j < |ks|
      ensures Enc(env, stack, Uint(w), ks[i]).Some? && Enc(env, stack, Uint(w), ks[j]).Some?
              && Precedes(Enc(env, stack, Uint(w), ks[i]).value, Enc(env, stack, Uint(w), ks[j]).value) {
      assert ks[i] in ks && ks[j] in ks;
      BigEndianLess(w, ns[i], ns[j]);
      LessIffPrecedes(BigEndian(w, ns[i]), BigEndian(w, ns[j]));
    }
  }

  /** Numbers as keys stand in increasing order. */
  lemma NumbersAscend(env: Env, stack: set<Type>, w: Width, vt: Type, v: Value, ns: seq<nat>, ks: seq<Value>)
    requires v.MapV? && Enc(env, stack, Map(Uint(w), vt), v).Some?
    requires |ks| == |ns| && forall i :: 0 <= i < |ns| ==> ks[i] == UintV(ns[i])
    requires (forall i, j :: 0 <= i < j < |ns| ==> ns[i] < ns[j]) && forall k :: k in v.m <==> k in ks
    ensures EntriesWritten(env, stack, Uint(w), vt, v.m)
    ensures Enc(env, stack, Map(Uint(w), vt), v).value[4..] == EntriesOf(env, stack, Uint(w), vt, v.m, ks)
  {
    MapFormat(env, stack, Uint(w), vt, v, ks);
    NumbersPrecede(env, stack, w, v.m, ns, ks);
    assert Lists(ks, v.m.Keys);
  }
}
