/** Byte strings: fixed-width big-endian integers, the order of bytes.Compare, and the listing of
    a finite set of keys in the order of the byte strings attached to them. */
module ByteStrings {
  type Byte = x: int | 0 <= x < 256
  type Bytes = seq<Byte>

  function Max(a: int, b: int): int { if a < b then b else a }

  // ---------- big-endian integers ----------

  function Pow256(w: nat): (p: nat)
    ensures p > 0
  {
    if w == 0 then 1 else 256 * Pow256(w - 1)
  }

  /** The low `w` bytes of `n`, most significant first. */
  function BigEndian(w: nat, n: nat): (s: Bytes)
    ensures |s| == w
  {
    if w == 0 then [] else BigEndian(w - 1, n / 256) + [n % 256]
  }

  function FromBigEndian(s: Bytes): nat {
    if s == [] then 0 else FromBigEndian(s[..|s| - 1]) * 256 + s[|s| - 1]
  }

  lemma {:induction false} FromBigEndianInverts(w: nat, n: nat)
    requires n < Pow256(w)
    ensures FromBigEndian(BigEndian(w, n)) == n
  {
    if w > 0 {
      var s := BigEndian(w, n);
      assert s[..|s| - 1] == BigEndian(w - 1, n / 256);
      FromBigEndianInverts(w - 1, n / 256);
    }
  }

  lemma {:induction false} BigEndianInverts(s: Bytes)
    ensures FromBigEndian(s) < Pow256(|s|)
    ensures BigEndian(|s|, FromBigEndian(s)) == s
  {
    if s != [] {
      var hi := s[..|s| - 1];
      BigEndianInverts(hi);
      assert s == hi + [s[|s| - 1]];
      assert FromBigEndian(s) / 256 == FromBigEndian(hi);
    }
  }

  /** A pair of 16-bit integers written one after the other reads as one 32-bit integer. */
  lemma {:induction false} BigEndianPair(hi: nat, lo: nat)
    requires lo < 65536
    ensures BigEndian(2, hi) + BigEndian(2, lo) == BigEndian(4, hi * 65536 + lo)
  {
    var n := hi * 65536 + lo;
    assert n / 256 == hi * 256 + lo / 256;
    assert n % 256 == lo % 256;
    assert (n / 256) / 256 == hi;
    assert (n / 256) % 256 == lo / 256;
    assert BigEndian(4, n) == BigEndian(3, n / 256) + [n % 256];
    assert BigEndian(3, n / 256) == BigEndian(2, hi) + [lo / 256];
    assert BigEndian(2, lo) == BigEndian(1, lo / 256) + [lo % 256];
    assert BigEndian(1, lo / 256) == BigEndian(0, lo / 256 / 256) + [lo / 256];
  }

  /** Each byte in its place, the most significant one first. */
  lemma {:induction false} BigEndianAt(w: nat, n: nat, i: nat)
    requires i < w
    ensures BigEndian(w, n)[i] == n / Pow256(w - 1 - i) % 256
  {
    if i < w - 1 {
      BigEndianAt(w - 1, n / 256, i);
      DivideTwice(n, Pow256(w - 2 - i));
    }
  }

  lemma DivideTwice(n: nat, p: nat)
    requires p > 0
    ensures n / 256 / p == n / (256 * p)
  {
    var d := 256 * p;
    var q, r := n / d, n % d;
    assert n == 256 * (q * p) + r;
    assert n / 256 == q * p + r / 256;
    Quotient(n / 256, p, q, r / 256);
  }

  lemma Quotient(n: nat, p: nat, q: nat, r: nat)
    requires r < p && n == q * p + r
    ensures n / p == q
  {
    var d := n / p;
    assert n == d * p + n % p;
    assert (d - q) * p == r - n % p;
    assert d - q >= 1 ==> (d - q) * p >= p;
    assert d - q <= -1 ==> (d - q) * p + p <= 0;
  }

  // ---------- the order of bytes.Compare ----------

  /** `a` sorts strictly before `b`. */
  predicate Less(a: Bytes, b: Bytes) {
    b != [] && (a == [] || a[0] < b[0] || (a[0] == b[0] && Less(a[1..], b[1..])))
  }

  /** `a` and `b` have a common beginning, after which `a` ends or has the smaller byte. */
  ghost predicate Precedes(a: Bytes, b: Bytes) { exists i: nat :: PrecedesAt(a, b, i) }

  ghost predicate PrecedesAt(a: Bytes, b: Bytes, i: nat) {
    i <= |a| && i < |b| && a[..i] == b[..i] && (i == |a| || a[i] < b[i])
  }

  /** The order is that of the first bytes that differ. */
  lemma {:induction false} LessIffPrecedes(a: Bytes, b: Bytes)
    ensures Less(a, b) <==> Precedes(a, b)
  {
    if b != [] && (a == [] || a[0] < b[0]) {
      assert PrecedesAt(a, b, 0);
    } else if a != [] && b != [] && a[0] == b[0] {
      LessIffPrecedes(a[1..], b[1..]);
      if Less(a[1..], b[1..]) {
        var i: nat :| PrecedesAt(a[1..], b[1..], i);
        assert a[..i + 1] == [a[0]] + a[1..][..i] && b[..i + 1] == [b[0]] + b[1..][..i];
        assert PrecedesAt(a, b, i + 1);
      }
      if i: nat :| PrecedesAt(a, b, i) {
        assert i > 0 && a[1..][..i - 1] == a[..i][1..] && b[1..][..i - 1] == b[..i][1..];
        assert PrecedesAt(a[1..], b[1..], i - 1);
      }
    } else {
      forall i: nat ensures !PrecedesAt(a, b, i) {
        if 0 < i <= |a| && i <= |b| { assert a[..i][0] == a[0] && b[..i][0] == b[0]; }
      }
    }
  }

  lemma {:induction false} LessAppend(s: Bytes, t: Bytes, x: Byte, y: Byte)
    requires |s| == |t|
    ensures Less(s + [x], t + [y]) <==> Less(s, t) || (s == t && x < y)
  {
    if s != [] {
      assert (s + [x])[1..] == s[1..] + [x] && (t + [y])[1..] == t[1..] + [y];
      assert s == t <==> s[0] == t[0] && s[1..] == t[1..] by { assert s == [s[0]] + s[1..] && t == [t[0]] + t[1..]; }
      LessAppend(s[1..], t[1..], x, y);
    }
  }

  /** Numbers of one width sort like their bytes. */
  lemma {:induction false} BigEndianLess(w: nat, a: nat, b: nat)
    requires a < Pow256(w) && b < Pow256(w)
    ensures Less(BigEndian(w, a), BigEndian(w, b)) <==> a < b
  {
    if w > 0 {
      BigEndianLess(w - 1, a / 256, b / 256);
      LessAppend(BigEndian(w - 1, a / 256), BigEndian(w - 1, b / 256), a % 256, b % 256);
      if BigEndian(w - 1, a / 256) == BigEndian(w - 1, b / 256) {
        FromBigEndianInverts(w - 1, a / 256);
        FromBigEndianInverts(w - 1, b / 256);
      }
    }
  }

  lemma {:induction false} LessTransitive(a: Bytes, b: Bytes, c: Bytes)
    requires Less(a, b) && Less(b, c)
    ensures Less(a, c)
  {
    if a != [] && a[0] == b[0] == c[0] {
      LessTransitive(a[1..], b[1..], c[1..]);
    }
  }

  lemma {:induction false} LessIrreflexive(a: Bytes)
    ensures !Less(a, a)
  {
    if a != [] { LessIrreflexive(a[1..]); }
  }

  lemma {:induction false} LessTotal(a: Bytes, b: Bytes)
    ensures Less(a, b) || Less(b, a) || a == b
  {
    if a != [] && b != [] && a[0] == b[0] {
      LessTotal(a[1..], b[1..]);
      if a[1..] == b[1..] {
        assert a == [a[0]] + a[1..] && b == [b[0]] + b[1..];
      }
    }
  }

  predicate LessEq(a: Bytes, b: Bytes) { !Less(b, a) }

  lemma LessEqTransitive(a: Bytes, b: Bytes, c: Bytes)
    requires LessEq(a, b) && LessEq(b, c)
    ensures LessEq(a, c)
  {
    if Less(c, a) {
      LessTotal(a, b);
      if Less(a, b) { LessTransitive(c, a, b); }
    }
  }

  // ---------- keys in the order of their byte strings ----------

  ghost predicate NoDuplicates<K>(s: seq<K>) {
    forall i, j :: 0 <= i < j < |s| ==> s[i] != s[j]
  }

  /** `ks` lists exactly the keys of `kb`, each once. */
  ghost predicate Lists<K(!new)>(ks: seq<K>, keys: set<K>) {
    NoDuplicates(ks) && forall k :: k in ks <==> k in keys
  }

  ghost predicate SortedBy<K>(ks: seq<K>, kb: map<K, Bytes>)
    requires forall k :: k in ks ==> k in kb
  {
    forall i, j :: 0 <= i < j < |ks| ==> LessEq(kb[ks[i]], kb[ks[j]])
  }

  ghost predicate StrictlySortedBy<K>(ks: seq<K>, kb: map<K, Bytes>)
    requires forall k :: k in ks ==> k in kb
  {
    forall i, j :: 0 <= i < j < |ks| ==> Less(kb[ks[i]], kb[ks[j]])
  }

  ghost predicate Injective<K(!new)>(kb: map<K, Bytes>) {
    forall a, b :: a in kb && b in kb && kb[a] == kb[b] ==> a == b
  }

  lemma {:induction false} LeastKey<K(!new)>(kb: map<K, Bytes>) returns (least: K)
    requires kb != map[]
    ensures Least(least, kb)
    decreases |kb|
  {
    var k :| k in kb;
    LessIrreflexive(kb[k]);
    var rest := kb - {k};
    assert rest.Keys == kb.Keys - {k};
    if rest == map[] {
      assert kb.Keys == {k} + rest.Keys;
      least := k;
    } else {
      var other := LeastKey(rest);
      LessTotal(kb[other], kb[k]);
      LessIrreflexive(kb[other]);
      least := if Less(kb[other], kb[k]) then other else k;
      assert LessEq(kb[least], kb[other]) && LessEq(kb[least], kb[k]) by {
        if Less(kb[k], kb[other]) && Less(kb[other], kb[k]) { LessTransitive(kb[k], kb[other], kb[k]); }
      }
      forall x | x in kb ensures LessEq(kb[least], kb[x]) {
        if x in rest { LessEqTransitive(kb[least], kb[other], kb[x]); }
      }
    }
  }

  ghost predicate Least<K(!new)>(least: K, kb: map<K, Bytes>) {
    least in kb && forall k :: k in kb ==> LessEq(kb[least], kb[k])
  }

  /** The keys of `kb` sorted by the byte strings they map to. */
  ghost function SortedKeys<K(!new)>(kb: map<K, Bytes>): seq<K>
    decreases |kb|
  {
    if kb == map[] then []
    else
      assert exists k :: Least(k, kb) by { var k := LeastKey(kb); }
      var k :| Least(k, kb);
      assert (kb - {k}).Keys == kb.Keys - {k};
      [k] + SortedKeys(kb - {k})
  }

  lemma {:induction false} SortedKeysAre<K(!new)>(kb: map<K, Bytes>)
    ensures Lists(SortedKeys(kb), kb.Keys) && |SortedKeys(kb)| == |kb| && SortedBy(SortedKeys(kb), kb)
    decreases |kb|
  {
    if kb != map[] {
      assert exists k :: Least(k, kb) by { var k := LeastKey(kb); }
      var k :| Least(k, kb) && SortedKeys(kb) == [k] + SortedKeys(kb - {k});
      assert (kb - {k}).Keys == kb.Keys - {k};
      SortedKeysAre(kb - {k});
      SortedCons(k, SortedKeys(kb - {k}), kb);
    }
  }

  lemma SortedCons<K(!new)>(k: K, ks: seq<K>, kb: map<K, Bytes>)
    requires Least(k, kb)
    requires Lists(ks, kb.Keys - {k}) && SortedBy(ks, kb - {k})
    ensures Lists([k] + ks, kb.Keys) && SortedBy([k] + ks, kb)
  {
    var all := [k] + ks;
    forall x ensures x in all <==> x in kb.Keys { assert x in all <==> x == k || x in ks; }
    forall i, j | 0 <= i < j < |all| ensures all[i] != all[j] && LessEq(kb[all[i]], kb[all[j]]) {
      assert all[j] == ks[j - 1] && ks[j - 1] in ks;
      if i > 0 { assert all[i] == ks[i - 1]; }
    }
  }

  lemma SortedIsStrict<K(!new)>(ks: seq<K>, kb: map<K, Bytes>)
    requires Lists(ks, kb.Keys) && SortedBy(ks, kb) && Injective(kb)
    ensures StrictlySortedBy(ks, kb)
  {
    forall i, j | 0 <= i < j < |ks| ensures Less(kb[ks[i]], kb[ks[j]]) {
      LessTotal(kb[ks[i]], kb[ks[j]]);
    }
  }

  /** A strictly sorted listing of a set of keys is unique. */
  lemma {:induction false} SortedListingUnique<K(!new)>(a: seq<K>, b: seq<K>, kb: map<K, Bytes>)
    requires forall k :: k in a ==> k in kb
    requires forall k :: k in a <==> k in b
    requires StrictlySortedBy(a, kb) && StrictlySortedBy(b, kb)
    ensures a == b
  {
    if a == [] {
      assert forall i :: 0 <= i < |b| ==> b[i] in a;
    } else {
      assert a[0] in b;
      assert b[0] in a;
      if a[0] != b[0] {
        var i :| 0 < i < |b| && b[i] == a[0];
        var j :| 0 < j < |a| && a[j] == b[0];
        LessTransitive(kb[a[0]], kb[b[0]], kb[a[0]]);
        LessIrreflexive(kb[a[0]]);
        assert false;
      }
      StrictTail(a, kb);
      StrictTail(b, kb);
      SortedListingUnique(a[1..], b[1..], kb);
      assert a == [a[0]] + a[1..] && b == [b[0]] + b[1..];
    }
  }

  lemma StrictTail<K(!new)>(a: seq<K>, kb: map<K, Bytes>)
    requires a != [] && forall k :: k in a ==> k in kb
    requires StrictlySortedBy(a, kb)
    ensures StrictlySortedBy(a[1..], kb)
    ensures forall k :: k in a[1..] <==> k in a && k != a[0]
  {
    LessIrreflexive(kb[a[0]]);
    forall k | k in a && k != a[0] ensures k in a[1..] {
      var i :| 0 <= i < |a| && a[i] == k;
      assert a[1..][i - 1] == k;
    }
    forall k | k in a[1..] ensures k != a[0] {
      var i :| 0 <= i < |a[1..]| && a[1..][i] == k;
      assert a[i + 1] == k;
    }
  }

  lemma ListsRemove<K(!new)>(s: seq<K>, i: nat, keys: set<K>)
    requires Lists(s, keys) && i < |s|
    ensures Lists(s[..i] + s[i + 1..], keys - {s[i]})
  {
    var rest := s[..i] + s[i + 1..];
    forall k ensures k in rest <==> k in keys - {s[i]} {
      if k in keys - {s[i]} {
        var j :| 0 <= j < |s| && s[j] == k;
        assert rest[if j < i then j else j - 1] == k;
      }
    }
  }

  lemma {:induction false} ListsLength<K(!new)>(s: seq<K>, keys: set<K>)
    requires Lists(s, keys)
    ensures |s| == |keys|
    decreases |s|
  {
    if s == [] {
      assert keys == {};
    } else {
      ListsRemove(s, 0, keys);
      assert s[0] in s;
      ListsLength(s[..0] + s[1..], keys - {s[0]});
    }
  }

  /** The length of all the byte strings of the listed keys together. */
  ghost function Total<K>(ks: seq<K>, kb: map<K, Bytes>): nat
    requires forall k :: k in ks ==> k in kb
  {
    if ks == [] then 0 else |kb[ks[0]]| + Total(ks[1..], kb)
  }

  lemma {:induction false} TotalConcat<K>(a: seq<K>, b: seq<K>, kb: map<K, Bytes>)
    requires forall k :: k in a + b ==> k in kb
    ensures (forall k :: k in a ==> k in kb) && (forall k :: k in b ==> k in kb)
    ensures Total(a + b, kb) == Total(a, kb) + Total(b, kb)
  {
    assert forall k :: k in a || k in b ==> k in a + b;
    if a == [] {
      assert a + b == b;
    } else {
      TotalConcat(a[1..], b, kb);
      assert (a + b)[1..] == a[1..] + b;
    }
  }

  lemma TotalRemove<K>(s: seq<K>, i: nat, kb: map<K, Bytes>)
    requires i < |s| && forall k :: k in s ==> k in kb
    ensures (forall k :: k in s[..i] + s[i + 1..] ==> k in kb)
    ensures Total(s, kb) == |kb[s[i]]| + Total(s[..i] + s[i + 1..], kb)
  {
    assert s == s[..i] + s[i..] && s[i..][1..] == s[i + 1..];
    TotalConcat(s[..i], s[i..], kb);
    forall k | k in s[..i] + s[i + 1..] ensures k in kb { assert k in s[..i] || k in s[i + 1..]; }
    TotalConcat(s[..i], s[i + 1..], kb);
  }

  /** In whatever order the keys are listed. */
  lemma {:induction false} TotalPermutation<K(!new)>(a: seq<K>, b: seq<K>, keys: set<K>, kb: map<K, Bytes>)
    requires Lists(a, keys) && Lists(b, keys) && forall k :: k in keys ==> k in kb
    ensures Total(a, kb) == Total(b, kb)
    decreases |a|
  {
    ListsLength(a, keys);
    ListsLength(b, keys);
    if a != [] {
      assert a[0] in b;
      var i :| 0 <= i < |b| && b[i] == a[0];
      ListsRemove(a, 0, keys);
      ListsRemove(b, i, keys);
      TotalRemove(a, 0, kb);
      TotalRemove(b, i, kb);
      TotalPermutation(a[..0] + a[1..], b[..i] + b[i + 1..], keys - {a[0]}, kb);
    }
  }

  // ---------- sorted sequences ----------

  ghost predicate Sorted(bs: seq<Bytes>) {
    forall i, j :: 0 <= i < j < |bs| ==> LessEq(bs[i], bs[j])
  }

  function InsertAt<T>(s: seq<T>, k: nat, x: T): seq<T>
    requires k <= |s|
  {
    s[..k] + [x] + s[k..]
  }

  lemma InsertSorted(bs: seq<Bytes>, k: nat, x: Bytes)
    requires k <= |bs| && Sorted(bs) && (k > 0 ==> LessEq(bs[k - 1], x)) && forall j :: k <= j < |bs| ==> Less(x, bs[j])
    ensures Sorted(InsertAt(bs, k, x))
  {
    var r := InsertAt(bs, k, x);
    forall i, j | 0 <= i < j < |r| ensures LessEq(r[i], r[j]) {
      if i == k {
        LessAsymmetric(x, bs[j - 1]);
      } else if j == k && i < k - 1 {
        LessEqTransitive(bs[i], bs[k - 1], x);
      }
    }
  }

  lemma LessAsymmetric(a: Bytes, b: Bytes)
    requires Less(a, b)
    ensures !Less(b, a)
  {
    LessIrreflexive(a);
    if Less(b, a) { LessTransitive(a, b, a); }
  }
}
