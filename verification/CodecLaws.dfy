/** Reading undoes writing and writing undoes reading, for every type, registry and value. */
module CodecLaws {
  import opened Basics
  import opened ByteStrings
  import opened Codec

  // ---------- what is written reads back ----------

  /** `b` stands at `off` in `buf`. */
  ghost predicate At(buf: Bytes, off: nat, b: Bytes) {
    off + |b| <= |buf| && buf[off..off + |b|] == b
  }

  lemma AtConcat(buf: Bytes, off: nat, a: Bytes, b: Bytes)
    ensures At(buf, off, a + b) <==> At(buf, off, a) && At(buf, off + |a|, b)
  {
    if off + |a| + |b| <= |buf| {
      var x, y := buf[off..off + |a|], buf[off + |a|..off + |a| + |b|];
      assert buf[off..off + |a + b|] == x + y;
      assert x + y == a + b ==> (x + y)[..|a|] == (a + b)[..|a|] && (x + y)[|a|..] == (a + b)[|a|..];
      assert (x + y)[..|a|] == x && (x + y)[|a|..] == y && (a + b)[..|a|] == a && (a + b)[|a|..] == b;
    }
  }

  lemma IntAtInverts(buf: Bytes, off: nat, w: nat, n: nat)
    requires n < Pow256(w) && At(buf, off, BigEndian(w, n))
    ensures IntAt(buf, off, w) == n
  {
    FromBigEndianInverts(w, n);
  }

  lemma Pow256Values()
    ensures Pow256(1) == 256 && Pow256(2) == 65536 && Pow256(4) == 0x1_0000_0000
  {
    assert Pow256(3) == 256 * Pow256(2);
  }

  /** A length and what follows it. */
  lemma LengthAt(buf: Bytes, off: nat, n: nat, rest: Bytes)
    requires n < 0x1_0000_0000 && At(buf, off, BigEndian(4, n) + rest)
    ensures off + 4 <= |buf| && IntAt(buf, off, 4) == n && At(buf, off + 4, rest)
  {
    Pow256Values();
    AtConcat(buf, off, BigEndian(4, n), rest);
    IntAtInverts(buf, off, 4, n);
  }

  lemma SignedRoundTrip(w: Width, i: int)
    requires InRange(w, i)
    ensures ToUnsigned(w, i) < Pow256(w) && ToSigned(w, ToUnsigned(w, i)) == i
  {
    assert Pow256(w) == 256 * Pow256(w - 1);
  }

  /** Wherever `b` stands from `lo` on, `read` finds `v` there. */
  ghost predicate ReadsBack(read: Reader, t: Type, v: Value, b: Bytes, buf: Bytes, lo: nat) {
    forall o: nat {:trigger At(buf, o, b)} :: lo <= o && At(buf, o, b) ==> read(t, o) == Done(v, o + |b|)
  }

  /** A written value reads back from `lo` on if it is light, and behind `lo` anyway; if its type always
      takes a byte, so does it. */
  ghost predicate PartReads(env: Env, read: Reader, write: Writer, t: Type, v: Value, buf: Bytes, lo: nat, w: nat) {
    var b := write(t, v);
    b.Some? ==>
      && ReadsBack(read, t, v, b.value, buf, if env.Weight(t) <= w then lo else lo + 1)
      && (env.Eats(t) ==> b.value != [])
  }

  lemma {:induction false} DecAllEncAll(env: Env, read: Reader, write: Writer, ts: seq<Type>, vs: seq<Value>,
                                        nonEmpty: bool,
                                        buf: Bytes, lo: nat, off: nat, w: nat)
    requires |ts| == |vs| && EncAll(write, ts, vs, nonEmpty).Some?
             && At(buf, off, EncAll(write, ts, vs, nonEmpty).value)
    requires lo <= off && (lo == off ==> env.Light(ts, w))
    requires forall i :: 0 <= i < |vs| ==> PartReads(env, read, write, ts[i], vs[i], buf, lo, w)
    ensures DecAll(read, ts, off, nonEmpty) == Done(vs, off + |EncAll(write, ts, vs, nonEmpty).value|)
    decreases |ts|
  {
    if vs != [] {
      var b, rest := write(ts[0], vs[0]).value, EncAll(write, ts[1..], vs[1..], nonEmpty).value;
      var next := off + |b|;
      AtConcat(buf, off, b, rest);
      assert PartReads(env, read, write, ts[0], vs[0], buf, lo, w);
      if b == [] && lo == off { LightTail(env, ts, w); }
      forall i | 0 <= i < |vs| - 1 ensures PartReads(env, read, write, ts[1..][i], vs[1..][i], buf, lo, w) {
        assert PartReads(env, read, write, ts[i + 1], vs[i + 1], buf, lo, w);
      }
      DecAllEncAll(env, read, write, ts[1..], vs[1..], nonEmpty, buf, lo, next, w);
      DecAllCons(read, ts, vs, off, next, next + |rest|, nonEmpty);
    }
  }

  lemma DecAllCons(read: Reader, ts: seq<Type>, vs: seq<Value>, off: nat, next: nat, end: nat, nonEmpty: bool)
    requires |ts| == |vs| > 0 && read(ts[0], off) == Done(vs[0], next) && (nonEmpty ==> next != off)
    requires DecAll(read, ts[1..], next, nonEmpty) == Done(vs[1..], end)
    ensures DecAll(read, ts, off, nonEmpty) == Done(vs, end)
  {
    assert [vs[0]] + vs[1..] == vs;
  }

  lemma LightTail(env: Env, ts: seq<Type>, w: nat)
    requires ts != [] && env.Light(ts, w) && !env.Eats(ts[0])
    ensures env.Light(ts[1..], w)
  {
    forall i | 0 <= i < |ts| - 1 && (forall j :: 0 <= j < i ==> !env.Eats(ts[1..][j]))
      ensures env.Weight(ts[1..][i]) <= w {
      forall j | 0 <= j < i + 1 ensures !env.Eats(ts[j]) { assert j > 0 ==> ts[j] == ts[1..][j - 1]; }
    }
  }

  lemma LightRepeat(env: Env, t: Type, n: nat)
    ensures env.Light(Repeat(t, n), env.Weight(t))
  {
  }

  // ---------- types that always take a byte ----------

  lemma {:induction false} EncEats(env: Env, stack: set<Type>, t: Type, v: Value)
    requires env.Ranked() && env.Eats(t) && Enc(env, stack, t, v).Some?
    ensures Enc(env, stack, t, v).value != []
    decreases v
  {
    match t {
      case Ptr(e) => EncEats(env, stack, e, v.target);
      case Array(n, e) =>
        var write := PartsOf(env, stack, v);
        EncAllPart(write, Repeat(e, n), v.elts, 0);
        EncEats(env, stack, e, v.elts[0]);
      case Struct(name) =>
        var fields, write := env.Fields(name), PartsOf(env, stack, v);
        var i :| 0 <= i < |fields| && env.Eats(fields[i]);
        EncAllPart(write, fields, v.fields, i);
        EncEats(env, stack, fields[i], v.fields[i]);
      case _ =>
    }
  }

  /** Every part is written, and the whole is as long as any of them at least. */
  lemma {:induction false} EncAllPart(write: Writer, ts: seq<Type>, vs: seq<Value>, i: nat)
    requires |ts| == |vs| && i < |ts| && EncAll(write, ts, vs, false).Some?
    ensures write(ts[i], vs[i]).Some? && |write(ts[i], vs[i]).value| <= |EncAll(write, ts, vs, false).value|
    decreases i
  {
    if i > 0 { EncAllPart(write, ts[1..], vs[1..], i - 1); }
  }

  lemma {:induction false} DecEats(env: Env, stack: set<Type>, t: Type, buf: Bytes, off: nat)
    requires env.Ranked() && env.Eats(t) && off <= |buf| && Dec(env, stack, t, buf, off).Done?
    ensures Dec(env, stack, t, buf, off).end > off
    decreases |buf| - off, env.Weight(t), 0
  {
    match t {
      case Ptr(e) => DecEats(env, stack, e, buf, off);
      case Array(n, e) =>
        DecAllEats(env, stack, Repeat(e, n), buf, off, off, env.Weight(e), 0);
      case Struct(name) =>
        var fields := env.Fields(name);
        var i :| 0 <= i < |fields| && env.Eats(fields[i]);
        DecAllEats(env, stack, fields, buf, off, off, env.Rank(name), i);
      case Slice(e) =>
        DecAllBounded(From(env, stack, buf, off + 4, env.Weight(e)), Repeat(e, IntAt(buf, off, 4)), off + 4, true,
                      |buf|);
      case Map(kt, vt) =>
        var read := From(env, stack, buf, off + 4, Max(env.Weight(kt), env.Weight(vt)));
        DecEntriesBounded(read, kt, vt, IntAt(buf, off, 4), None, buf, off + 4);
      case _ =>
    }
  }

  lemma {:induction false} DecAllEats(env: Env, stack: set<Type>, ts: seq<Type>, buf: Bytes, lo: nat, off: nat, w: nat,
                                      i: nat)
    requires env.Ranked() && lo <= off <= |buf| && i < |ts| && env.Eats(ts[i])
             && DecAll(From(env, stack, buf, lo, w), ts, off, false).Done?
    ensures DecAll(From(env, stack, buf, lo, w), ts, off, false).end > off
    decreases |buf| - lo, w, 1, |ts|
  {
    var read := From(env, stack, buf, lo, w);
    var end := read(ts[0], off).end;
    DecAllBounded(read, ts[1..], end, false, |buf|);
    if i == 0 {
      DecEats(env, stack, ts[0], buf, off);
    } else {
      DecAllEats(env, stack, ts[1..], buf, lo, end, w, i - 1);
    }
  }

  function Entries<K, V>(ks: seq<K>, m: map<K, V>): (es: seq<(K, V)>)
    requires forall k :: k in ks ==> k in m
    ensures |es| == |ks| && forall i :: 0 <= i < |ks| ==> es[i] == (ks[i], m[ks[i]])
  {
    if ks == [] then [] else [(ks[0], m[ks[0]])] + Entries(ks[1..], m)
  }

  lemma LayoutCons<K>(ks: seq<K>, kb: map<K, Bytes>, vb: map<K, Bytes>, buf: Bytes, off: nat)
    requires ks != [] && forall k :: k in ks ==> k in kb && k in vb
    requires At(buf, off, Layout(ks, kb, vb))
    ensures var a, b := kb[ks[0]], vb[ks[0]];
            && At(buf, off, a) && At(buf, off + |a|, b) && At(buf, off + |a| + |b|, Layout(ks[1..], kb, vb))
            && |Layout(ks, kb, vb)| == |a| + |b| + |Layout(ks[1..], kb, vb)|
  {
    AtConcat(buf, off, kb[ks[0]] + vb[ks[0]], Layout(ks[1..], kb, vb));
    AtConcat(buf, off, kb[ks[0]], vb[ks[0]]);
  }

  ghost predicate EntryReadsBack(read: Reader, kt: Type, vt: Type, k: Value, kb: Bytes, x: Value, vb: Bytes,
                                 buf: Bytes, lo: nat) {
    |kb| + |vb| > 0 && ReadsBack(read, kt, k, kb, buf, lo) && ReadsBack(read, vt, x, vb, buf, lo)
  }

  lemma DecEntriesStep(read: Reader, kt: Type, vt: Type, n: nat, prev: Option<Bytes>, buf: Bytes, off: nat,
                       k: Value, mid: nat, x: Value, end: nat)
    requires Bounded(read, |buf|) && n > 0 && read(kt, off) == Done(k, mid) && read(vt, mid) == Done(x, end)
             && end != off
    requires prev.Some? ==> Less(prev.value, buf[off..mid])
    requires DecEntries(read, kt, vt, n - 1, Some(buf[off..mid]), buf, end).Done?
    ensures var rest := DecEntries(read, kt, vt, n - 1, Some(buf[off..mid]), buf, end);
            DecEntries(read, kt, vt, n, prev, buf, off) == Done([(k, x)] + rest.value, rest.end)
  {
  }

  lemma {:induction false} DecEntriesLayout(read: Reader, kt: Type, vt: Type, m: map<Value, Value>,
                                            kb: map<Value, Bytes>, vb: map<Value, Bytes>,
                                            ks: seq<Value>, prev: Option<Bytes>, buf: Bytes, lo: nat, off: nat)
    requires Bounded(read, |buf|) && lo <= off && m.Keys == kb.Keys == vb.Keys && forall k :: k in ks ==> k in m
    requires forall k :: k in ks ==> EntryReadsBack(read, kt, vt, k, kb[k], m[k], vb[k], buf, lo)
    requires StrictlySortedBy(ks, kb) && (prev.Some? && ks != [] ==> Less(prev.value, kb[ks[0]]))
    requires At(buf, off, Layout(ks, kb, vb))
    ensures DecEntries(read, kt, vt, |ks|, prev, buf, off) == Done(Entries(ks, m), off + |Layout(ks, kb, vb)|)
    decreases |ks|
  {
    if ks != [] {
      var k := ks[0];
      var mid := off + |kb[k]|;
      var end := mid + |vb[k]|;
      FirstEntry(read, kt, vt, m, kb, vb, ks, buf, lo, off);
      DecEntriesLayout(read, kt, vt, m, kb, vb, ks[1..], Some(kb[k]), buf, lo, end);
      DecEntriesStep(read, kt, vt, |ks|, prev, buf, off, k, mid, m[k], end);
    }
  }

  lemma FirstEntry(read: Reader, kt: Type, vt: Type, m: map<Value, Value>, kb: map<Value, Bytes>, vb: map<Value, Bytes>,
                   ks: seq<Value>, buf: Bytes, lo: nat, off: nat)
    requires lo <= off && m.Keys == kb.Keys == vb.Keys && ks != [] && forall k :: k in ks ==> k in m
    requires EntryReadsBack(read, kt, vt, ks[0], kb[ks[0]], m[ks[0]], vb[ks[0]], buf, lo)
    requires StrictlySortedBy(ks, kb) && At(buf, off, Layout(ks, kb, vb))
    ensures var mid, end := off + |kb[ks[0]]|, off + |kb[ks[0]]| + |vb[ks[0]]|;
            && read(kt, off) == Done(ks[0], mid) && read(vt, mid) == Done(m[ks[0]], end) && end != off
            && mid <= |buf| && buf[off..mid] == kb[ks[0]] && At(buf, end, Layout(ks[1..], kb, vb))
            && |Layout(ks, kb, vb)| == end - off + |Layout(ks[1..], kb, vb)|
    ensures StrictlySortedBy(ks[1..], kb) && (ks[1..] != [] ==> Less(kb[ks[0]], kb[ks[1..][0]]))
  {
    LayoutCons(ks, kb, vb, buf, off);
    StrictTail(ks, kb);
    assert |ks| > 1 ==> Less(kb[ks[0]], kb[ks[1]]);
  }

  lemma DecEntriesEncMap(read: Reader, write: Writer, kt: Type, vt: Type, m: map<Value, Value>, buf: Bytes, off: nat)
    requires Bounded(read, |buf|) && EncMap(write, kt, vt, m).Some? && At(buf, off, EncMap(write, kt, vt, m).value)
    requires Injective(KeyBytes(write, kt, m))
    requires forall k :: k in m
               ==> EntryReadsBack(read, kt, vt, k, write(kt, k).value, m[k], write(vt, m[k]).value, buf, off)
    ensures var r := DecEntries(read, kt, vt, |m|, None, buf, off);
            r.Done? && r.end == off + |EncMap(write, kt, vt, m).value| && ToMap(r.value) == m
  {
    var kb, vb := KeyBytes(write, kt, m), ValueBytes(write, vt, m);
    var ks := SortedKeys(kb);
    SortedKeysAre(kb);
    SortedIsStrict(ks, kb);
    forall k | k in ks ensures EntryReadsBack(read, kt, vt, k, kb[k], m[k], vb[k], buf, off) {
      assert k in m;
    }
    DecEntriesLayout(read, kt, vt, m, kb, vb, ks, None, buf, off, off);
    ToMapOfEntries(ks, m);
  }

  lemma DecEncScalar(t: Type, v: Value, buf: Bytes, off: nat)
    requires EncScalar(t, v).Some? && At(buf, off, EncScalar(t, v).value)
    ensures DecScalar(t, buf, off) == Done(v, off + |EncScalar(t, v).value|)
  {
    match t {
      case Bool =>
      case Uint(w) => IntAtInverts(buf, off, w, v.n);
      case Int(w) =>
        SignedRoundTrip(w, v.i);
        IntAtInverts(buf, off, w, ToUnsigned(w, v.i));
      case String =>
        Pow256Values();
        AtConcat(buf, off, BigEndian(2, |v.s|), v.s);
        IntAtInverts(buf, off, 2, |v.s|);
    }
  }

  /** Wherever the bytes of a value stand, that value is read there, and it ends where they end. */
  lemma {:induction false} DecEnc(env: Env, stack: set<Type>, t: Type, v: Value, buf: Bytes, off: nat)
    requires env.WellFormed() && Enc(env, stack, t, v).Some? && At(buf, off, Enc(env, stack, t, v).value)
    ensures Dec(env, stack, t, buf, off) == Done(v, off + |Enc(env, stack, t, v).value|)
    decreases v, 3
  {
    match t {
      case Ptr(e) => DecEnc(env, stack, e, v.target, buf, off);
      case Interface(name) => DecEncInterface(env, stack, name, v, buf, off);
      case Slice(e) => DecEncSlice(env, stack, e, v, buf, off);
      case Array(n, e) =>
        LightRepeat(env, e, n);
        DecEncAll(env, stack, Repeat(e, n), v, v.elts, false, buf, off, env.Weight(e));
      case Struct(name) => DecEncAll(env, stack, env.Fields(name), v, v.fields, false, buf, off, env.Rank(name));
      case Map(kt, vt) => DecEncMap(env, stack, kt, vt, v, buf, off);
      case _ => DecEncScalar(t, v, buf, off);
    }
  }

  lemma {:induction false} DecEncInterface(env: Env, stack: set<Type>, name: string, v: Value, buf: Bytes, off: nat)
    requires env.WellFormed() && Enc(env, stack, Interface(name), v).Some?
    requires At(buf, off, Enc(env, stack, Interface(name), v).value)
    ensures Dec(env, stack, Interface(name), buf, off) == Done(v, off + |Enc(env, stack, Interface(name), v).value|)
    decreases v, 2
  {
    AtConcat(buf, off, BigEndian(4, env.ids[v.dynamic]), Enc(env, stack + {v.dynamic}, v.dynamic, v.value).value);
    IntAtInverts(buf, off, 4, env.ids[v.dynamic]);
    DecEnc(env, stack + {v.dynamic}, v.dynamic, v.value, buf, off + 4);
  }

  lemma {:induction false} DecEncSlice(env: Env, stack: set<Type>, e: Type, v: Value, buf: Bytes, off: nat)
    requires env.WellFormed() && Enc(env, stack, Slice(e), v).Some? && At(buf, off, Enc(env, stack, Slice(e), v).value)
    ensures Dec(env, stack, Slice(e), buf, off) == Done(v, off + |Enc(env, stack, Slice(e), v).value|)
    decreases v, 2
  {
    var n := |v.elts|;
    LengthAt(buf, off, n, EncAll(PartsOf(env, stack, v), Repeat(e, n), v.elts, true).value);
    LightRepeat(env, e, n);
    DecEncAll(env, stack, Repeat(e, n), v, v.elts, true, buf, off + 4, env.Weight(e));
  }

  lemma {:induction false} DecEncMap(env: Env, stack: set<Type>, kt: Type, vt: Type, v: Value, buf: Bytes, off: nat)
    requires env.WellFormed() && Enc(env, stack, Map(kt, vt), v).Some?
             && At(buf, off, Enc(env, stack, Map(kt, vt), v).value)
    ensures Dec(env, stack, Map(kt, vt), buf, off) == Done(v, off + |Enc(env, stack, Map(kt, vt), v).value|)
    decreases v, 2
  {
    var entries := MapAt(env, stack, kt, vt, v, buf, off);
    DecMap(env, stack, kt, vt, v, entries, buf, off, off + 4);
  }

  /** A written map is its length and its entries. */
  lemma MapAt(env: Env, stack: set<Type>, kt: Type, vt: Type, v: Value, buf: Bytes, off: nat) returns (entries: Bytes)
    requires Enc(env, stack, Map(kt, vt), v).Some? && At(buf, off, Enc(env, stack, Map(kt, vt), v).value)
    ensures v.MapV? && |v.m| <= MaxInt32 && EncMap(PartsOf(env, stack, v), kt, vt, v.m) == Some(entries)
    ensures off + 4 <= |buf| && IntAt(buf, off, 4) == |v.m| && At(buf, off + 4, entries)
    ensures |Enc(env, stack, Map(kt, vt), v).value| == 4 + |entries|
  {
    entries := EncMap(PartsOf(env, stack, v), kt, vt, v.m).value;
    LengthAt(buf, off, |v.m|, entries);
  }

  /** Its entries, which begin at `start`, are read back. */
  lemma {:induction false} DecMap(env: Env, stack: set<Type>, kt: Type, vt: Type, v: Value, entries: Bytes, buf: Bytes,
                                  off: nat, start: nat)
    requires env.WellFormed() && v.MapV? && EncMap(PartsOf(env, stack, v), kt, vt, v.m) == Some(entries)
    requires start == off + 4 <= |buf| && IntAt(buf, off, 4) == |v.m| <= MaxInt32 && At(buf, start, entries)
    ensures Dec(env, stack, Map(kt, vt), buf, off) == Done(v, start + |entries|)
    decreases v, 2, 0
  {
    DecEncEntries(env, stack, kt, vt, v, entries, buf, start);
    DecMapIs(env, stack, kt, vt, buf, off, start, |v.m|);
    AsMapIs(DecEntries(From(env, stack, buf, start, Max(env.Weight(kt), env.Weight(vt))), kt, vt, |v.m|, None, buf,
                       start), v, start + |entries|);
  }

  lemma AsMapIs(es: Parse<seq<(Value, Value)>>, v: Value, end: nat)
    requires es.Done? && es.end == end && v.MapV? && ToMap(es.value) == v.m
    ensures AsMap(es) == Done(v, end)
  {
  }

  lemma DecMapIs(env: Env, stack: set<Type>, kt: Type, vt: Type, buf: Bytes, off: nat, start: nat, n: nat)
    requires start == off + 4 <= |buf| && IntAt(buf, off, 4) == n <= MaxInt32
    ensures Dec(env, stack, Map(kt, vt), buf, off) ==
            AsMap(DecEntries(From(env, stack, buf, start, Max(env.Weight(kt), env.Weight(vt))), kt, vt, n, None, buf,
                             start))
  {
  }

  lemma {:induction false} DecEncAll(env: Env, stack: set<Type>, ts: seq<Type>, v: Value, vs: seq<Value>,
                                     nonEmpty: bool,
                                     buf: Bytes, off: nat, w: nat)
    requires env.WellFormed() && |ts| == |vs| && env.Light(ts, w) && forall i :: 0 <= i < |ts| ==> vs[i] < v
    requires EncAll(PartsOf(env, stack, v), ts, vs, nonEmpty).Some?
    requires At(buf, off, EncAll(PartsOf(env, stack, v), ts, vs, nonEmpty).value)
    ensures DecAll(From(env, stack, buf, off, w), ts, off, nonEmpty) ==
            Done(vs, off + |EncAll(PartsOf(env, stack, v), ts, vs, nonEmpty).value|)
    decreases v, 0
  {
    var read, write := From(env, stack, buf, off, w), PartsOf(env, stack, v);
    forall i | 0 <= i < |vs| ensures PartReads(env, read, write, ts[i], vs[i], buf, off, w) {
      if write(ts[i], vs[i]).Some? {
        PartReadsBack(env, stack, ts[i], v, vs[i], buf, off, w);
        if env.Eats(ts[i]) { EncEats(env, stack, ts[i], vs[i]); }
      }
    }
    DecAllEncAll(env, read, write, ts, vs, nonEmpty, buf, off, off, w);
  }

  lemma {:induction false} PartReadsBack(env: Env, stack: set<Type>, t: Type, v: Value, x: Value, buf: Bytes, lo: nat,
                                         w: nat)
    requires env.WellFormed() && lo <= |buf| && x < v && PartsOf(env, stack, v)(t, x).Some?
    ensures ReadsBack(From(env, stack, buf, lo, w), t, x, PartsOf(env, stack, v)(t, x).value, buf,
                      if env.Weight(t) <= w then lo else lo + 1)
    decreases x, 4
  {
    var b := Enc(env, stack, t, x).value;
    var from := if env.Weight(t) <= w then lo else lo + 1;
    forall o: nat | from <= o && At(buf, o, b) ensures From(env, stack, buf, lo, w)(t, o) == Done(x, o + |b|) {
      DecEnc(env, stack, t, x, buf, o);
    }
  }

  lemma {:induction false} EntryPartsReadBack(env: Env, stack: set<Type>, kt: Type, vt: Type, v: Value, k: Value,
                                              buf: Bytes, lo: nat)
    requires env.WellFormed() && lo <= |buf| && v.MapV? && Encodable(PartsOf(env, stack, v), kt, vt, v.m) && k in v.m
    ensures var write := PartsOf(env, stack, v);
            EntryReadsBack(From(env, stack, buf, lo, Max(env.Weight(kt), env.Weight(vt))), kt, vt,
                           k, write(kt, k).value, v.m[k], write(vt, v.m[k]).value, buf, lo)
    decreases v, 0
  {
    var w := Max(env.Weight(kt), env.Weight(vt));
    PartReadsBack(env, stack, kt, v, k, buf, lo, w);
    PartReadsBack(env, stack, vt, v, v.m[k], buf, lo, w);
  }

  /** Two keys written alike would read back alike, so distinct keys are written differently. */
  lemma {:induction false} KeyBytesInjective(env: Env, stack: set<Type>, kt: Type, v: Value)
    requires env.WellFormed() && v.MapV? && forall k :: k in v.m ==> PartsOf(env, stack, v)(kt, k).Some?
    ensures Injective(KeyBytes(PartsOf(env, stack, v), kt, v.m))
    decreases v, 0
  {
    var kb := KeyBytes(PartsOf(env, stack, v), kt, v.m);
    forall a, b | a in kb && b in kb && kb[a] == kb[b] ensures a == b {
      DecEnc(env, stack, kt, a, kb[a], 0);
      DecEnc(env, stack, kt, b, kb[b], 0);
    }
  }

  lemma {:induction false} DecEncEntries(env: Env, stack: set<Type>, kt: Type, vt: Type, v: Value, entries: Bytes,
                                         buf: Bytes, off: nat)
    requires env.WellFormed() && v.MapV? && EncMap(PartsOf(env, stack, v), kt, vt, v.m) == Some(entries)
    requires At(buf, off, entries)
    ensures var r := DecEntries(From(env, stack, buf, off, Max(env.Weight(kt), env.Weight(vt))), kt, vt, |v.m|, None,
                                buf, off);
            r.Done? && r.end == off + |entries| && ToMap(r.value) == v.m
    decreases v, 1
  {
    var w := Max(env.Weight(kt), env.Weight(vt));
    var read, write := From(env, stack, buf, off, w), PartsOf(env, stack, v);
    assert Encodable(write, kt, vt, v.m);
    KeyBytesInjective(env, stack, kt, v);
    forall k | k in v.m ensures EntryReadsBack(read, kt, vt, k, write(kt, k).value, v.m[k], write(vt, v.m[k]).value,
                                               buf, off) {
      EntryPartsReadBack(env, stack, kt, vt, v, k, buf, off);
    }
    DecEntriesEncMap(read, write, kt, vt, v.m, buf, off);
  }

  function Firsts<K, V>(es: seq<(K, V)>): seq<K> {
    seq(|es|, i requires 0 <= i < |es| => es[i].0)
  }

  lemma {:induction false} ToMapDomain<K(!new), V(!new)>(es: seq<(K, V)>)
    ensures forall k :: k in ToMap(es) <==> k in Firsts(es)
  {
    if es != [] {
      var init := es[..|es| - 1];
      ToMapDomain(init);
      assert Firsts(es) == Firsts(init) + [es[|es| - 1].0];
    }
  }

  lemma {:induction false} ToMapDistinct<K(!new), V(!new)>(es: seq<(K, V)>)
    requires NoDuplicates(Firsts(es))
    ensures |ToMap(es)| == |es|
    ensures forall i :: 0 <= i < |es| ==> es[i].0 in ToMap(es) && ToMap(es)[es[i].0] == es[i].1
  {
    if es != [] {
      var init, last := es[..|es| - 1], es[|es| - 1];
      assert Firsts(es) == Firsts(init) + [last.0];
      forall i, j | 0 <= i < j < |init| ensures Firsts(init)[i] != Firsts(init)[j] {
        assert Firsts(es)[i] != Firsts(es)[j];
      }
      ToMapDistinct(init);
      ToMapDomain(init);
      forall i | 0 <= i < |init| ensures es[i].0 != last.0 { assert Firsts(es)[i] != Firsts(es)[|es| - 1]; }
      assert last.0 !in ToMap(init);
      assert ToMap(es).Keys == ToMap(init).Keys + {last.0};
      forall i | 0 <= i < |es| ensures es[i].0 in ToMap(es) && ToMap(es)[es[i].0] == es[i].1 {
        if i < |init| { assert init[i] == es[i]; }
      }
    }
  }

  lemma ToMapOfEntries<K(!new), V(!new)>(ks: seq<K>, m: map<K, V>)
    requires Lists(ks, m.Keys)
    ensures ToMap(Entries(ks, m)) == m
  {
    var es := Entries(ks, m);
    assert Firsts(es) == ks;
    ToMapDomain(es);
    ToMapDistinct(es);
    SameEntries(ks, es, ToMap(es), m);
  }

  lemma SameEntries<K(!new), V>(ks: seq<K>, es: seq<(K, V)>, r: map<K, V>, m: map<K, V>)
    requires |es| == |ks| && (forall k :: k in r <==> k in ks) && (forall k :: k in m <==> k in ks)
    requires forall i :: 0 <= i < |ks| ==> es[i] == (ks[i], m[ks[i]]) && r[es[i].0] == es[i].1
    ensures r == m
  {
    forall k | k in m ensures r[k] == m[k] {
      var i :| 0 <= i < |ks| && ks[i] == k;
      assert es[i] == (k, m[k]);
    }
  }

  // ---------- what is read writes back ----------

  lemma SignedWriteBack(w: Width, n: nat)
    requires n < Pow256(w)
    ensures InRange(w, ToSigned(w, n)) && ToUnsigned(w, ToSigned(w, n)) == n
  {
    assert Pow256(w) == 256 * Pow256(w - 1);
  }

  lemma IntAtWriteBack(buf: Bytes, off: nat, w: nat)
    requires off + w <= |buf|
    ensures IntAt(buf, off, w) < Pow256(w) && BigEndian(w, IntAt(buf, off, w)) == buf[off..off + w]
  {
    BigEndianInverts(buf[off..off + w]);
  }

  /** Whatever `read` finds, `write` writes as the bytes it was found in. */
  ghost predicate WritesBack(read: Reader, write: Writer, t: Type, buf: Bytes)
    requires Bounded(read, |buf|)
  {
    forall o: nat :: read(t, o).Done? ==> write(t, read(t, o).value) == Some(buf[o..read(t, o).end])
  }

  lemma {:induction false} EncAllDecAll(read: Reader, write: Writer, ts: seq<Type>, buf: Bytes, off: nat,
                                        nonEmpty: bool)
    requires Bounded(read, |buf|) && off <= |buf| && DecAll(read, ts, off, nonEmpty).Done?
    requires forall i :: 0 <= i < |ts| ==> WritesBack(read, write, ts[i], buf)
    ensures var r := DecAll(read, ts, off, nonEmpty);
            off <= r.end <= |buf| && EncAll(write, ts, r.value, nonEmpty) == Some(buf[off..r.end])
  {
    if ts != [] {
      var v := read(ts[0], off);
      assert WritesBack(read, write, ts[0], buf);
      EncAllDecAll(read, write, ts[1..], buf, v.end, nonEmpty);
      var r := DecAll(read, ts, off, nonEmpty);
      assert r.value[1..] == DecAll(read, ts[1..], v.end, nonEmpty).value;
      assert buf[off..r.end] == buf[off..v.end] + buf[v.end..r.end];
    }
  }

  lemma {:induction false} EncAllCongruent(a: Writer, b: Writer, ts: seq<Type>, vs: seq<Value>, nonEmpty: bool)
    requires |ts| == |vs| && forall i :: 0 <= i < |vs| ==> a(ts[i], vs[i]) == b(ts[i], vs[i])
    ensures EncAll(a, ts, vs, nonEmpty) == EncAll(b, ts, vs, nonEmpty)
  {
    if vs != [] { EncAllCongruent(a, b, ts[1..], vs[1..], nonEmpty); }
  }

  /** The entry can be written and is not empty; its key follows `prev`. */
  ghost predicate EntryWritable(write: Writer, kt: Type, vt: Type, prev: Option<Bytes>, e: (Value, Value)) {
    && write(kt, e.0).Some? && write(vt, e.1).Some? && |write(kt, e.0).value| + |write(vt, e.1).value| > 0
    && (prev.Some? ==> Less(prev.value, write(kt, e.0).value))
  }

  ghost predicate EntriesWritable(write: Writer, kt: Type, vt: Type, prev: Option<Bytes>, es: seq<(Value, Value)>) {
    && (forall i :: 0 <= i < |es| ==> EntryWritable(write, kt, vt, prev, es[i]))
    && (forall i, j :: 0 <= i < j < |es| ==> Less(write(kt, es[i].0).value, write(kt, es[j].0).value))
  }

  ghost function EntryBytes(write: Writer, kt: Type, vt: Type, es: seq<(Value, Value)>): Bytes
    requires forall i :: 0 <= i < |es| ==> write(kt, es[i].0).Some? && write(vt, es[i].1).Some?
  {
    if es == [] then []
    else write(kt, es[0].0).value + write(vt, es[0].1).value + EntryBytes(write, kt, vt, es[1..])
  }

  lemma EntriesWritableCons(write: Writer, kt: Type, vt: Type, prev: Option<Bytes>, e: (Value, Value),
                            es: seq<(Value, Value)>)
    requires EntryWritable(write, kt, vt, prev, e)
    requires EntriesWritable(write, kt, vt, Some(write(kt, e.0).value), es)
    ensures EntriesWritable(write, kt, vt, prev, [e] + es)
  {
    var all := [e] + es;
    var b := write(kt, e.0).value;
    forall i | 0 <= i < |all| ensures EntryWritable(write, kt, vt, prev, all[i]) {
      if i > 0 {
        assert EntryWritable(write, kt, vt, Some(b), es[i - 1]);
        if prev.Some? { LessTransitive(prev.value, b, write(kt, all[i].0).value); }
      }
    }
    forall i, j | 0 <= i < j < |all| ensures Less(write(kt, all[i].0).value, write(kt, all[j].0).value) {
      assert EntryWritable(write, kt, vt, Some(b), es[j - 1]);
      if i > 0 { assert Less(write(kt, es[i - 1].0).value, write(kt, es[j - 1].0).value); }
    }
  }

  lemma {:induction false} EntriesWriteBack(read: Reader, write: Writer, kt: Type, vt: Type, n: nat,
                                            prev: Option<Bytes>,
                                            buf: Bytes, off: nat)
    requires Bounded(read, |buf|) && off <= |buf| && WritesBack(read, write, kt, buf)
             && WritesBack(read, write, vt, buf)
    requires DecEntries(read, kt, vt, n, prev, buf, off).Done?
    ensures var r := DecEntries(read, kt, vt, n, prev, buf, off);
            && off <= r.end <= |buf| && EntriesWritable(write, kt, vt, prev, r.value)
            && EntryBytes(write, kt, vt, r.value) == buf[off..r.end]
    decreases n
  {
    if n > 0 {
      var k := read(kt, off);
      var x := read(vt, k.end);
      var rest := DecEntries(read, kt, vt, n - 1, Some(buf[off..k.end]), buf, x.end);
      EntriesWriteBack(read, write, kt, vt, n - 1, Some(buf[off..k.end]), buf, x.end);
      EntriesWritableCons(write, kt, vt, prev, (k.value, x.value), rest.value);
      assert ([(k.value, x.value)] + rest.value)[1..] == rest.value;
      Spliced(buf, off, x.end, rest.end);
      Spliced(buf, off, k.end, x.end);
    }
  }

  lemma {:induction false} LayoutOfEntries(write: Writer, kt: Type, vt: Type, es: seq<(Value, Value)>,
                                           kb: map<Value, Bytes>, vb: map<Value, Bytes>)
    requires forall i :: 0 <= i < |es| ==>
               && es[i].0 in kb && es[i].0 in vb
               && write(kt, es[i].0) == Some(kb[es[i].0]) && write(vt, es[i].1) == Some(vb[es[i].0])
    ensures forall k :: k in Firsts(es) ==> k in kb && k in vb
    ensures Layout(Firsts(es), kb, vb) == EntryBytes(write, kt, vt, es)
  {
    if es != [] {
      LayoutOfEntries(write, kt, vt, es[1..], kb, vb);
      assert Firsts(es)[1..] == Firsts(es[1..]);
    }
  }

  lemma EntriesDistinct(write: Writer, kt: Type, vt: Type, es: seq<(Value, Value)>)
    requires EntriesWritable(write, kt, vt, None, es)
    ensures NoDuplicates(Firsts(es))
  {
    forall i, j | 0 <= i < j < |es| ensures Firsts(es)[i] != Firsts(es)[j] {
      assert Less(write(kt, es[i].0).value, write(kt, es[j].0).value);
      LessIrreflexive(write(kt, es[i].0).value);
    }
  }

  lemma EntriesToMap(write: Writer, kt: Type, vt: Type, es: seq<(Value, Value)>)
    requires EntriesWritable(write, kt, vt, None, es)
    ensures var m := ToMap(es);
            && Lists(Firsts(es), m.Keys) && |m| == |es| && Encodable(write, kt, vt, m)
            && (forall i :: 0 <= i < |es| ==> es[i].0 in m && m[es[i].0] == es[i].1)
  {
    EntriesDistinct(write, kt, vt, es);
    ToMapDomain(es);
    ToMapDistinct(es);
    EntriesEncodable(write, kt, vt, es, ToMap(es));
  }

  lemma EntriesEncodable(write: Writer, kt: Type, vt: Type, es: seq<(Value, Value)>, m: map<Value, Value>)
    requires forall i :: 0 <= i < |es| ==> EntryWritable(write, kt, vt, None, es[i])
    requires forall k :: k in m <==> k in Firsts(es)
    requires forall i :: 0 <= i < |es| ==> es[i].0 in m && m[es[i].0] == es[i].1
    ensures Encodable(write, kt, vt, m)
  {
    forall k | k in m
      ensures write(kt, k).Some? && write(vt, m[k]).Some? && |write(kt, k).value| + |write(vt, m[k]).value| > 0
    {
      assert k in Firsts(es);
      var i :| 0 <= i < |es| && es[i].0 == k;
      assert EntryWritable(write, kt, vt, None, es[i]);
    }
  }

  /** Entries in strictly increasing order of their key bytes are written in that very order once
      they have been put into a map, and none is lost. */
  lemma EncMapOfEntries(write: Writer, kt: Type, vt: Type, es: seq<(Value, Value)>)
    requires EntriesWritable(write, kt, vt, None, es)
    ensures |ToMap(es)| == |es| && EncMap(write, kt, vt, ToMap(es)) == Some(EntryBytes(write, kt, vt, es))
  {
    var ks, m := Firsts(es), ToMap(es);
    EntriesToMap(write, kt, vt, es);
    assert SortedKeys(KeyBytes(write, kt, m)) == ks by { SortedListing(write, kt, ks, m); }
    LayoutOfEntries(write, kt, vt, es, KeyBytes(write, kt, m), ValueBytes(write, vt, m));
  }

  lemma SortedListing(write: Writer, kt: Type, ks: seq<Value>, m: map<Value, Value>)
    requires Lists(ks, m.Keys) && forall k :: k in m ==> write(kt, k).Some?
    requires forall i, j :: 0 <= i < j < |ks| ==>
               write(kt, ks[i]).Some? && write(kt, ks[j]).Some? && Less(write(kt, ks[i]).value, write(kt, ks[j]).value)
    ensures SortedKeys(KeyBytes(write, kt, m)) == ks
  {
    var kb := KeyBytes(write, kt, m);
    assert forall k :: k in ks ==> k in kb;
    assert StrictlySortedBy(ks, kb);
    forall a, b | a in kb && b in kb && kb[a] == kb[b] ensures a == b {
      var i :| 0 <= i < |ks| && ks[i] == a;
      var j :| 0 <= j < |ks| && ks[j] == b;
      LessIrreflexive(kb[a]);
    }
    SortedKeysAre(kb);
    SortedIsStrict(SortedKeys(kb), kb);
    SortedListingUnique(SortedKeys(kb), ks, kb);
  }

  lemma SameBytes(a: Writer, b: Writer, kt: Type, vt: Type, m: map<Value, Value>)
    requires Encodable(a, kt, vt, m) && Encodable(b, kt, vt, m)
    requires forall k :: k in m ==> a(kt, k) == b(kt, k) && a(vt, m[k]) == b(vt, m[k])
    ensures KeyBytes(a, kt, m) == KeyBytes(b, kt, m)
    ensures ValueBytes(a, vt, m) == ValueBytes(b, vt, m)
  {
    var ka, kb := KeyBytes(a, kt, m), KeyBytes(b, kt, m);
    forall k | k in m ensures ka[k] == kb[k] {}
    var va, vb := ValueBytes(a, vt, m), ValueBytes(b, vt, m);
    forall k | k in m ensures va[k] == vb[k] {}
  }

  lemma EncMapCongruent(a: Writer, b: Writer, kt: Type, vt: Type, m: map<Value, Value>)
    requires forall k :: k in m ==> a(kt, k) == b(kt, k) && a(vt, m[k]) == b(vt, m[k])
    ensures EncMap(a, kt, vt, m) == EncMap(b, kt, vt, m)
  {
    assert Encodable(a, kt, vt, m) <==> Encodable(b, kt, vt, m);
    if Encodable(a, kt, vt, m) {
      SameBytes(a, b, kt, vt, m);
    }
  }

  ghost function Whole(env: Env, stack: set<Type>): Writer {
    (t: Type, x: Value) => Enc(env, stack, t, x)
  }

  /** Whatever is read is written as exactly the bytes it was read from. */
  lemma {:induction false} EncDec(env: Env, stack: set<Type>, t: Type, buf: Bytes, off: nat)
    requires env.WellFormed() && off <= |buf| && Dec(env, stack, t, buf, off).Done?
    ensures var r := Dec(env, stack, t, buf, off); Enc(env, stack, t, r.value) == Some(buf[off..r.end])
    decreases |buf| - off, env.Weight(t), 3
  {
    match t {
      case Ptr(e) => EncDec(env, stack, e, buf, off);
      case Interface(name) => EncDecInterface(env, stack, name, buf, off);
      case Slice(e) => EncDecSlice(env, stack, e, buf, off);
      case Array(n, e) =>
        if n > 0 {
          EncDecAll(env, stack, Repeat(e, n), buf, off, env.Weight(e), false, Dec(env, stack, t, buf, off).value);
        } else {
          assert buf[off..off] == [] && Repeat(e, n) == [];
        }
      case Struct(name) =>
        EncDecAll(env, stack, env.Fields(name), buf, off, env.Rank(name), false, Dec(env, stack, t, buf, off).value);
      case Map(kt, vt) => EncDecMap(env, stack, kt, vt, buf, off);
      case _ => EncDecScalar(t, buf, off);
    }
  }

  lemma Spliced(buf: Bytes, off: nat, mid: nat, end: nat)
    requires off <= mid <= end <= |buf|
    ensures buf[off..end] == buf[off..mid] + buf[mid..end]
  {
  }

  lemma {:induction false} EncDecInterface(env: Env, stack: set<Type>, name: string, buf: Bytes, off: nat)
    requires env.WellFormed() && off <= |buf| && Dec(env, stack, Interface(name), buf, off).Done?
    ensures var r := Dec(env, stack, Interface(name), buf, off);
            Enc(env, stack, Interface(name), r.value) == Some(buf[off..r.end])
    decreases |buf| - off, 0, 2
  {
    var r := Dec(env, stack, Interface(name), buf, off);
    var ct := r.value.dynamic;
    IntAtWriteBack(buf, off, 4);
    EncDec(env, stack + {ct}, ct, buf, off + 4);
    Spliced(buf, off, off + 4, r.end);
  }

  lemma {:induction false} EncDecSlice(env: Env, stack: set<Type>, e: Type, buf: Bytes, off: nat)
    requires env.WellFormed() && off <= |buf| && Dec(env, stack, Slice(e), buf, off).Done?
    ensures var r := Dec(env, stack, Slice(e), buf, off); Enc(env, stack, Slice(e), r.value) == Some(buf[off..r.end])
    decreases |buf| - off, 0, 2
  {
    var r := Dec(env, stack, Slice(e), buf, off);
    IntAtWriteBack(buf, off, 4);
    EncDecAll(env, stack, Repeat(e, IntAt(buf, off, 4)), buf, off + 4, env.Weight(e), true, r.value);
    Spliced(buf, off, off + 4, r.end);
  }

  lemma {:induction false} EncDecMap(env: Env, stack: set<Type>, kt: Type, vt: Type, buf: Bytes, off: nat)
    requires env.WellFormed() && off <= |buf| && Dec(env, stack, Map(kt, vt), buf, off).Done?
    ensures var r := Dec(env, stack, Map(kt, vt), buf, off);
            Enc(env, stack, Map(kt, vt), r.value) == Some(buf[off..r.end])
    decreases |buf| - off, 0, 2
  {
    var r := Dec(env, stack, Map(kt, vt), buf, off);
    IntAtWriteBack(buf, off, 4);
    EncDecEntries(env, stack, kt, vt, IntAt(buf, off, 4), buf, off + 4, r.value);
    Spliced(buf, off, off + 4, r.end);
  }

  lemma EncDecScalar(t: Type, buf: Bytes, off: nat)
    requires off <= |buf| && DecScalar(t, buf, off).Done?
    ensures var r := DecScalar(t, buf, off); EncScalar(t, r.value) == Some(buf[off..r.end])
  {
    match t {
      case Bool => assert buf[off..off + 1] == [buf[off]];
      case Uint(w) => EncDecUint(w, buf, off);
      case Int(w) => EncDecInt(w, buf, off);
      case String => EncDecString(buf, off);
    }
  }

  lemma EncDecUint(w: Width, buf: Bytes, off: nat)
    requires off + w <= |buf|
    ensures EncScalar(Uint(w), UintV(IntAt(buf, off, w))) == Some(buf[off..off + w])
  {
    IntAtWriteBack(buf, off, w);
  }

  lemma EncDecInt(w: Width, buf: Bytes, off: nat)
    requires off + w <= |buf|
    ensures EncScalar(Int(w), IntV(ToSigned(w, IntAt(buf, off, w)))) == Some(buf[off..off + w])
  {
    IntAtWriteBack(buf, off, w);
    SignedWriteBack(w, IntAt(buf, off, w));
  }

  lemma EncDecString(buf: Bytes, off: nat)
    requires off <= |buf| && DecScalar(String, buf, off).Done?
    ensures var r := DecScalar(String, buf, off); EncScalar(String, r.value) == Some(buf[off..r.end])
  {
    Pow256Values();
    IntAtWriteBack(buf, off, 2);
    Spliced(buf, off, off + 2, off + 2 + IntAt(buf, off, 2));
  }

  lemma {:induction false} FromWritesBack(env: Env, stack: set<Type>, t: Type, buf: Bytes, lo: nat, w: nat)
    requires env.WellFormed() && lo <= |buf|
    ensures WritesBack(From(env, stack, buf, lo, w), Whole(env, stack), t, buf)
    decreases |buf| - lo, w, 4
  {
    var read := From(env, stack, buf, lo, w);
    forall o: nat | read(t, o).Done? ensures Whole(env, stack)(t, read(t, o).value) == Some(buf[o..read(t, o).end]) {
      EncDec(env, stack, t, buf, o);
    }
  }

  lemma {:induction false} EncDecAll(env: Env, stack: set<Type>, ts: seq<Type>, buf: Bytes, off: nat, w: nat,
                                     nonEmpty: bool, v: Value)
    requires env.WellFormed() && off <= |buf|
    requires DecAll(From(env, stack, buf, off, w), ts, off, nonEmpty).Done?
    requires forall i :: 0 <= i < |ts| ==> DecAll(From(env, stack, buf, off, w), ts, off, nonEmpty).value[i] < v
    ensures var r := DecAll(From(env, stack, buf, off, w), ts, off, nonEmpty);
            off <= r.end <= |buf| && EncAll(PartsOf(env, stack, v), ts, r.value, nonEmpty) == Some(buf[off..r.end])
    decreases |buf| - off, w, 5
  {
    var read := From(env, stack, buf, off, w);
    var vs := DecAll(read, ts, off, nonEmpty).value;
    forall i | 0 <= i < |ts| ensures WritesBack(read, Whole(env, stack), ts[i], buf) {
      FromWritesBack(env, stack, ts[i], buf, off, w);
    }
    EncAllDecAll(read, Whole(env, stack), ts, buf, off, nonEmpty);
    forall i | 0 <= i < |vs| ensures PartsOf(env, stack, v)(ts[i], vs[i]) == Whole(env, stack)(ts[i], vs[i]) {
      assert vs[i] < v;
    }
    EncAllCongruent(PartsOf(env, stack, v), Whole(env, stack), ts, vs, nonEmpty);
  }

  lemma {:induction false} EncDecEntries(env: Env, stack: set<Type>, kt: Type, vt: Type, n: nat, buf: Bytes, off: nat,
                                         v: Value)
    requires env.WellFormed() && off <= |buf|
    requires var r := DecEntries(From(env, stack, buf, off, Max(env.Weight(kt), env.Weight(vt))), kt, vt, n, None, buf,
                                 off);
             r.Done? && v == MapV(ToMap(r.value))
    ensures var r := DecEntries(From(env, stack, buf, off, Max(env.Weight(kt), env.Weight(vt))), kt, vt, n, None, buf,
                                off);
            && off <= r.end <= |buf| && |v.m| == n
            && EncMap(PartsOf(env, stack, v), kt, vt, v.m) == Some(buf[off..r.end])
    decreases |buf| - off, Max(env.Weight(kt), env.Weight(vt)), 5
  {
    var w := Max(env.Weight(kt), env.Weight(vt));
    var read, write := From(env, stack, buf, off, w), Whole(env, stack);
    FromWritesBack(env, stack, kt, buf, off, w);
    FromWritesBack(env, stack, vt, buf, off, w);
    EntriesWriteBack(read, write, kt, vt, n, None, buf, off);
    EncMapOfEntries(write, kt, vt, DecEntries(read, kt, vt, n, None, buf, off).value);
    EncMapCongruent(PartsOf(env, stack, v), write, kt, vt, v.m);
  }

  // ---------- the two directions together ----------

  /** Types may contain themselves: a list that is linked by pointers, with a byte in every link. */
  lemma LinkedIsRanked(env: Env, name: string)
    requires env.structs == map[name := StructType([Uint(1), Ptr(Struct(name))], 0, true)]
    ensures env.Ranked()
  {
    var fields := env.structs[name].fields;
    assert env.Eats(fields[0]);
  }

  /** Or through an array of no elements. */
  lemma EmptyArrayIsRanked(env: Env, name: string)
    requires env.structs == map[name := StructType([Array(0, Ptr(Struct(name)))], 0, false)]
    ensures env.Ranked()
  {
  }

  /** Unmarshal accepts a byte string as a value if and only if that value marshals to exactly that
      byte string: the round trip and the uniqueness of the accepted encoding. */
  lemma UnmarshalIffMarshal(env: Env, t: Type, b: Bytes, v: Value)
    requires env.WellFormed()
    ensures Unmarshal(env, t, b) == Some(v) <==> Marshal(env, t, v) == Some(b)
  {
    if Unmarshal(env, t, b) == Some(v) {
      EncDec(env, {}, t, b, 0);
      assert b[0..|b|] == b;
    }
    if Marshal(env, t, v) == Some(b) {
      assert b[0..|b|] == b;
      DecEnc(env, {}, t, v, b, 0);
    }
  }

  /** No encoding is a proper prefix of another encoding of the same type. */
  lemma PrefixFree(env: Env, stack: set<Type>, t: Type, v: Value, w: Value)
    requires env.WellFormed() && Enc(env, stack, t, v).Some? && Enc(env, stack, t, w).Some?
    requires Enc(env, stack, t, v).value <= Enc(env, stack, t, w).value
    ensures v == w
  {
    var a, b := Enc(env, stack, t, v).value, Enc(env, stack, t, w).value;
    assert b[0..|a|] == a && b[0..|b|] == b;
    DecEnc(env, stack, t, v, b, 0);
    DecEnc(env, stack, t, w, b, 0);
  }
}
