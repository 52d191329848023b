/** HTTP routes and their aliases (api/server/router.go): a route of a base is also a route of its
    aliases, of their aliases, and so on. */
module Router {
  import opened Basics

  type Base = nat
  type Endpoint = nat
  type Handler = nat

  datatype Error = AlreadyReserved | EndpointExists | UnknownBaseURL | UnknownEndpoint

  type Routes = map<Base, map<Endpoint, Handler>>

  function At(routes: Routes, b: Base, e: Endpoint): Option<Handler> {
    if b in routes && e in routes[b] then Some(routes[b][e]) else None
  }

  function AliasesOf(aliases: map<Base, seq<Base>>, b: Base): seq<Base> { if b in aliases then aliases[b] else [] }

  function Put(routes: Routes, b: Base, e: Endpoint, h: Handler): Routes {
    routes[b := (if b in routes then routes[b] else map[])[e := h]]
  }

  // ---------- what adding one endpoint does ----------

  /** The base has the endpoint now and had it not before. */
  ghost predicate New(before: Routes, after: Routes, b: Base, e: Endpoint) { At(before, b, e).None?
                                                                            && At(after, b, e).Some? }

  /** Only the endpoint is added, with the handler, and nothing is lost. */
  ghost predicate Adds(before: Routes, after: Routes, e: Endpoint, h: Handler) {
    && (forall b, x :: x != e ==> At(after, b, x) == At(before, b, x))
    && (forall b :: At(before, b, e).Some? ==> At(after, b, e) == At(before, b, e))
    && (forall b :: New(before, after, b, e) ==> At(after, b, e) == Some(h))
  }

  /** The aliases of a base to which the endpoint was added have it, too. */
  ghost predicate Propagates(aliases: map<Base, seq<Base>>, before: Routes, after: Routes, e: Endpoint, b: Base) {
    New(before, after, b, e) ==> forall a :: a in AliasesOf(aliases, b) ==> At(after, a, e).Some?
  }

  /** A path from base to alias, to an alias of that, and so on, along which the endpoint was added. */
  ghost predicate IsPath(aliases: map<Base, seq<Base>>, before: Routes, after: Routes, e: Endpoint, p: seq<Base>) {
    && p != [] && (forall i :: 0 <= i < |p| ==> New(before, after, p[i], e))
    && (forall i :: 0 <= i < |p| - 1 ==> p[i + 1] in AliasesOf(aliases, p[i]))
  }

  /** The endpoint was added to `b` because it was added to `from`. */
  ghost predicate Reached(aliases: map<Base, seq<Base>>, before: Routes, after: Routes, e: Endpoint, from: Base,
                          b: Base) {
    exists p :: IsPath(aliases, before, after, e, p) && p[0] == from && p[|p| - 1] == b
  }

  ghost predicate ReachedFrom(aliases: map<Base, seq<Base>>, before: Routes, after: Routes, e: Endpoint,
                              bases: seq<Base>, b: Base) {
    exists x :: x in bases && Reached(aliases, before, after, e, x, b)
  }

  /** The effect of forceAddRouter. */
  ghost predicate IsAdded(aliases: map<Base, seq<Base>>, before: Routes, after: Routes, base: Base, e: Endpoint,
                          h: Handler) {
    && Adds(before, after, e, h) && At(after, base, e).Some?
    && (forall b :: Propagates(aliases, before, after, e, b))
    && (forall b :: New(before, after, b, e) ==> Reached(aliases, before, after, e, base, b))
  }

  /** A base keeps what it has while more is added. */
  lemma AddsTwice(a: Routes, b: Routes, c: Routes, e: Endpoint, h: Handler)
    requires Adds(a, b, e, h) && Adds(b, c, e, h)
    ensures Adds(a, c, e, h)
  {
  }

  lemma ReachedSelf(aliases: map<Base, seq<Base>>, before: Routes, after: Routes, e: Endpoint, b: Base)
    requires New(before, after, b, e)
    ensures Reached(aliases, before, after, e, b, b)
  {
    var p := [b];
    assert IsPath(aliases, before, after, e, p) && p[0] == b && p[|p| - 1] == b;
  }

  lemma ReachedMore(aliases: map<Base, seq<Base>>, a: Routes, c: Routes, a': Routes, c': Routes, e: Endpoint,
                    from: Base, b: Base)
    requires Reached(aliases, a, c, e, from, b) && forall x :: New(a, c, x, e) ==> New(a', c', x, e)
    ensures Reached(aliases, a', c', e, from, b)
  {
    var p :| IsPath(aliases, a, c, e, p) && p[0] == from && p[|p| - 1] == b;
    assert IsPath(aliases, a', c', e, p);
  }

  lemma ReachedVia(aliases: map<Base, seq<Base>>, before: Routes, after: Routes, e: Endpoint, base: Base, alias: Base,
                   b: Base)
    requires New(before, after, base, e) && alias in AliasesOf(aliases, base)
             && Reached(aliases, before, after, e, alias, b)
    ensures Reached(aliases, before, after, e, base, b)
  {
    var p :| IsPath(aliases, before, after, e, p) && p[0] == alias && p[|p| - 1] == b;
    var q := [base] + p;
    assert forall i :: 0 < i < |q| ==> q[i] == p[i - 1];
    assert IsPath(aliases, before, after, e, q) && q[0] == base && q[|q| - 1] == b;
  }

  /** The base before the last one of a path. */
  lemma LastStep(aliases: map<Base, seq<Base>>, before: Routes, after: Routes, e: Endpoint, from: Base, b: Base)
    returns (x: Base)
    requires Reached(aliases, before, after, e, from, b) && from != b
    ensures New(before, after, x, e) && b in AliasesOf(aliases, x)
  {
    var p :| IsPath(aliases, before, after, e, p) && p[0] == from && p[|p| - 1] == b;
    x := p[|p| - 2];
  }

  /** The same for several bases that get the endpoint. */
  ghost predicate AreAdded(aliases: map<Base, seq<Base>>, before: Routes, after: Routes, bases: seq<Base>, e: Endpoint,
                           h: Handler) {
    && Adds(before, after, e, h) && (forall b :: b in bases ==> At(after, b, e).Some?)
    && (forall b :: Propagates(aliases, before, after, e, b))
    && (forall b :: New(before, after, b, e) ==> ReachedFrom(aliases, before, after, e, bases, b))
  }

  lemma OneMoreAdded(aliases: map<Base, seq<Base>>, a: Routes, mid: Routes, c: Routes, bases: seq<Base>, base: Base,
                     e: Endpoint, h: Handler)
    requires AreAdded(aliases, a, mid, bases, e, h) && IsAdded(aliases, mid, c, base, e, h)
    ensures AreAdded(aliases, a, c, bases + [base], e, h)
  {
    AddsTwice(a, mid, c, e, h);
    forall b ensures Propagates(aliases, a, c, e, b) {
      assert Propagates(aliases, a, mid, e, b) && Propagates(aliases, mid, c, e, b);
    }
    forall b | New(a, c, b, e) ensures ReachedFrom(aliases, a, c, e, bases + [base], b) {
      if New(a, mid, b, e) {
        var x :| x in bases && Reached(aliases, a, mid, e, x, b);
        ReachedMore(aliases, a, mid, a, c, e, x, b);
        assert x in bases + [base];
      } else {
        ReachedMore(aliases, mid, c, a, c, e, base, b);
        assert base in bases + [base];
      }
    }
  }

  lemma OneAdded(aliases: map<Base, seq<Base>>, before: Routes, after: Routes, base: Base, e: Endpoint, h: Handler)
    requires IsAdded(aliases, before, after, base, e, h)
    ensures AreAdded(aliases, before, after, [base], e, h)
  {
    assert base in [base];
  }

  /** The base gets the endpoint, and then its aliases do. */
  lemma PutAdded(aliases: map<Base, seq<Base>>, a: Routes, mid: Routes, c: Routes, base: Base, e: Endpoint, h: Handler)
    requires At(a, base, e).None? && mid == Put(a, base, e, h)
    requires AreAdded(aliases, mid, c, AliasesOf(aliases, base), e, h)
    ensures IsAdded(aliases, a, c, base, e, h)
  {
    forall b ensures At(mid, b, e) == if b == base then Some(h) else At(a, b, e) {}
    forall b, x | x != e ensures At(mid, b, x) == At(a, b, x) {}
    AddsTwice(a, mid, c, e, h);
    forall b ensures Propagates(aliases, a, c, e, b) { assert Propagates(aliases, mid, c, e, b); }
    forall b | New(a, c, b, e) ensures Reached(aliases, a, c, e, base, b) {
      ReachedPut(aliases, a, mid, c, base, e, b);
    }
  }

  lemma ReachedPut(aliases: map<Base, seq<Base>>, a: Routes, mid: Routes, c: Routes, base: Base, e: Endpoint, b: Base)
    requires New(a, c, base, e) && New(a, c, b, e) && forall x :: New(mid, c, x, e) ==> New(a, c, x, e)
    requires b != base ==> ReachedFrom(aliases, mid, c, e, AliasesOf(aliases, base), b)
    ensures Reached(aliases, a, c, e, base, b)
  {
    if b == base {
      ReachedSelf(aliases, a, c, e, base);
    } else {
      var alias :| alias in AliasesOf(aliases, base) && Reached(aliases, mid, c, e, alias, b);
      ReachedMore(aliases, mid, c, a, c, e, alias, b);
      ReachedVia(aliases, a, c, e, base, alias, b);
    }
  }

  // ---------- exactly what gets the endpoint ----------

  /** A path along which nobody has the endpoint. */
  ghost predicate IsFree(aliases: map<Base, seq<Base>>, routes: Routes, e: Endpoint, p: seq<Base>) {
    && p != [] && (forall i :: 0 <= i < |p| ==> At(routes, p[i], e).None?)
    && (forall i :: 0 <= i < |p| - 1 ==> p[i + 1] in AliasesOf(aliases, p[i]))
  }

  /** Such a path leads from one of the bases to `b`. */
  ghost predicate FreeFrom(aliases: map<Base, seq<Base>>, routes: Routes, e: Endpoint, bases: seq<Base>, b: Base) {
    exists p :: IsFree(aliases, routes, e, p) && p[0] in bases && p[|p| - 1] == b
  }

  /** The endpoint is added to exactly the bases to which a path leads along which nobody had it. */
  lemma AddedExactly(aliases: map<Base, seq<Base>>, before: Routes, after: Routes, bases: seq<Base>, e: Endpoint,
                     h: Handler, b: Base)
    requires AreAdded(aliases, before, after, bases, e, h)
    ensures New(before, after, b, e) <==> FreeFrom(aliases, before, e, bases, b)
  {
    if New(before, after, b, e) {
      var from :| from in bases && Reached(aliases, before, after, e, from, b);
      var p :| IsPath(aliases, before, after, e, p) && p[0] == from && p[|p| - 1] == b;
      assert IsFree(aliases, before, e, p);
    }
    if FreeFrom(aliases, before, e, bases, b) {
      var p :| IsFree(aliases, before, e, p) && p[0] in bases && p[|p| - 1] == b;
      AddedAlong(aliases, before, after, bases, e, h, p, |p| - 1);
    }
  }

  lemma {:induction false} AddedAlong(aliases: map<Base, seq<Base>>, before: Routes, after: Routes, bases: seq<Base>,
                                      e: Endpoint, h: Handler, p: seq<Base>, i: nat)
    requires AreAdded(aliases, before, after, bases, e, h) && IsFree(aliases, before, e, p) && p[0] in bases && i < |p|
    ensures New(before, after, p[i], e)
  {
    if i > 0 {
      AddedAlong(aliases, before, after, bases, e, h, p, i - 1);
      assert Propagates(aliases, before, after, e, p[i - 1]) && p[i - 1 + 1] in AliasesOf(aliases, p[i - 1]);
    }
  }

  // ---------- exactly when there is an error ----------

  /** The alias stands at place `i` of the list of `b`. */
  ghost predicate Mentions(aliases: map<Base, seq<Base>>, b: Base, i: int, alias: Base) {
    0 <= i < |AliasesOf(aliases, b)| && AliasesOf(aliases, b)[i] == alias
  }

  /** All bases that are asked for are among those that get the endpoint, and so are all aliases of those that get
      it, each by a single mention. */
  ghost predicate IsProper(aliases: map<Base, seq<Base>>, got: iset<Base>, bases: seq<Base>) {
    && (forall i :: 0 <= i < |bases| ==> bases[i] in got)
    && (forall i, j :: 0 <= i < j < |bases| ==> bases[i] != bases[j])
    && (forall b, i, a :: b in got && Mentions(aliases, b, i, a) ==> a in got && a !in bases)
    && (forall b, i, c, j, a ::
          b in got && c in got && Mentions(aliases, b, i, a) && Mentions(aliases, c, j, a) ==> b == c && i == j)
  }

  ghost function Gets(before: Routes, after: Routes, e: Endpoint): iset<Base> { iset b | New(before, after, b, e) }

  /** Those that will get the endpoint, in terms of the routes before. */
  ghost function WillGet(aliases: map<Base, seq<Base>>, routes: Routes, e: Endpoint, bases: seq<Base>): iset<Base> {
    iset b | FreeFrom(aliases, routes, e, bases, b)
  }

  /** The endpoint comes to somebody who has it already, or has just got it. */
  ghost predicate Clashes(aliases: map<Base, seq<Base>>, routes: Routes, e: Endpoint, bases: seq<Base>) {
    !IsProper(aliases, WillGet(aliases, routes, e, bases), bases)
  }

  lemma GetsExactly(aliases: map<Base, seq<Base>>, before: Routes, after: Routes, bases: seq<Base>, e: Endpoint,
                    h: Handler)
    requires AreAdded(aliases, before, after, bases, e, h)
    ensures Gets(before, after, e) == WillGet(aliases, before, e, bases)
  {
    forall b ensures New(before, after, b, e) <==> FreeFrom(aliases, before, e, bases, b) {
      AddedExactly(aliases, before, after, bases, e, h, b);
    }
  }

  /** Whoever gets the endpoint is asked for, or mentioned by one that gets it. */
  lemma IsMentioned(aliases: map<Base, seq<Base>>, before: Routes, after: Routes, bases: seq<Base>, e: Endpoint,
                    h: Handler, b: Base)
    requires AreAdded(aliases, before, after, bases, e, h)
    ensures New(before, after, b, e) ==>
              b in bases || exists c, i :: New(before, after, c, e) && Mentions(aliases, c, i, b)
  {
    if New(before, after, b, e) && b !in bases {
      var from :| from in bases && Reached(aliases, before, after, e, from, b);
      var c := LastStep(aliases, before, after, e, from, b);
      var i :| 0 <= i < |AliasesOf(aliases, c)| && AliasesOf(aliases, c)[i] == b;
      assert Mentions(aliases, c, i, b);
    }
  }

  /** One base more gets the endpoint: this goes well exactly if both parts do. */
  lemma ProperMore(aliases: map<Base, seq<Base>>, a: Routes, mid: Routes, c: Routes, bases: seq<Base>, base: Base,
                   e: Endpoint, h: Handler)
    requires AreAdded(aliases, a, mid, bases, e, h) && IsAdded(aliases, mid, c, base, e, h)
    ensures IsProper(aliases, Gets(a, c, e), bases + [base]) <==>
            IsProper(aliases, Gets(a, mid, e), bases) && IsProper(aliases, Gets(mid, c, e), [base])
  {
    var first, second := Gets(a, mid, e), Gets(mid, c, e);
    assert Gets(a, c, e) == first + second;
    forall b, i, x | b in first && Mentions(aliases, b, i, x) ensures x !in second {
      assert Propagates(aliases, a, mid, e, b) && x in AliasesOf(aliases, b);
    }
    forall b | b in first ensures b in bases || exists d, i :: d in first && Mentions(aliases, d, i, b) {
      IsMentioned(aliases, a, mid, bases, e, h, b);
    }
    forall b | b in bases ensures b !in second { assert At(mid, b, e).Some?; }
    if IsProper(aliases, first, bases) && IsProper(aliases, second, [base]) {
      ProperBoth(aliases, first, second, bases, base);
    }
    if IsProper(aliases, first + second, bases + [base]) {
      ProperFirst(aliases, first, second, bases, base);
      ProperSecond(aliases, first, second, bases, base);
    }
  }

  lemma ProperBoth(aliases: map<Base, seq<Base>>, first: iset<Base>, second: iset<Base>, bases: seq<Base>, base: Base)
    requires first !! second && IsProper(aliases, first, bases) && IsProper(aliases, second, [base])
    requires forall b :: b in bases ==> b !in second
    ensures IsProper(aliases, first + second, bases + [base])
  {
    assert [base][0] in second;
    forall b, i, x | b in first + second && Mentions(aliases, b, i, x)
      ensures x in first + second && x !in bases + [base] {
      assert b in first ==> x in first && x !in bases;
      assert b in second ==> x in second && x !in [base];
    }
    forall b, i, d, j, x | b in first + second && d in first + second && Mentions(aliases, b, i, x)
                           && Mentions(aliases, d, j, x) ensures b == d && i == j {
      assert (b in first ==> x in first) && (d in first ==> x in first);
      assert (b in second ==> x in second) && (d in second ==> x in second);
    }
  }

  lemma ProperFirst(aliases: map<Base, seq<Base>>, first: iset<Base>, second: iset<Base>, bases: seq<Base>, base: Base)
    requires forall b, i, x :: b in first && Mentions(aliases, b, i, x) ==> x !in second
    requires (forall b :: b in bases ==> b !in second) && IsProper(aliases, first + second, bases + [base])
    ensures IsProper(aliases, first, bases)
  {
    var all := bases + [base];
    assert forall i :: 0 <= i < |bases| ==> all[i] == bases[i];
    forall b, i, x | b in first && Mentions(aliases, b, i, x) ensures x in first && x !in bases {
      assert x in first + second && x !in all;
    }
  }

  lemma ProperSecond(aliases: map<Base, seq<Base>>, first: iset<Base>, second: iset<Base>, bases: seq<Base>, base: Base)
    requires first !! second && IsProper(aliases, first + second, bases + [base])
    requires forall b :: b in first ==> b in bases || exists d, i :: d in first && Mentions(aliases, d, i, b)
    ensures IsProper(aliases, second, [base])
  {
    var all := bases + [base];
    assert all[|bases|] == base && forall i :: 0 <= i < |bases| ==> all[i] == bases[i];
    assert forall i :: 0 <= i < |bases| ==> bases[i] != all[|bases|];
    assert base in second;
    forall b, i, x | b in second && Mentions(aliases, b, i, x) ensures x in second && x !in [base] {
      assert x in first + second && x !in all;
    }
  }

  /** A base that gets the endpoint hands it on: this goes well exactly if that goes well for its aliases. */
  lemma ProperPut(aliases: map<Base, seq<Base>>, got: iset<Base>, base: Base)
    requires base !in got
    ensures IsProper(aliases, got + iset{base}, [base]) <==> IsProper(aliases, got, AliasesOf(aliases, base))
  {
    var list := AliasesOf(aliases, base);
    if IsProper(aliases, got, list) { ProperAbove(aliases, got, base); }
    if IsProper(aliases, got + iset{base}, [base]) { ProperBelow(aliases, got, base); }
  }

  lemma ProperAbove(aliases: map<Base, seq<Base>>, got: iset<Base>, base: Base)
    requires base !in got && IsProper(aliases, got, AliasesOf(aliases, base))
    ensures IsProper(aliases, got + iset{base}, [base])
  {
    var list, all := AliasesOf(aliases, base), got + iset{base};
    forall b, i, x | b in all && Mentions(aliases, b, i, x) ensures x in all && x !in [base] {
      if b == base { assert list[i] in got; }
    }
    forall b, i, d, j, x | b in all && d in all && Mentions(aliases, b, i, x) && Mentions(aliases, d, j, x)
      ensures b == d && i == j {
      assert (b == base ==> list[i] == x) && (d == base ==> list[j] == x);
    }
  }

  lemma ProperBelow(aliases: map<Base, seq<Base>>, got: iset<Base>, base: Base)
    requires base !in got && IsProper(aliases, got + iset{base}, [base])
    ensures IsProper(aliases, got, AliasesOf(aliases, base))
  {
    var list, all := AliasesOf(aliases, base), got + iset{base};
    forall i | 0 <= i < |list| ensures list[i] in got { assert Mentions(aliases, base, i, list[i]); }
    forall i, j | 0 <= i < j < |list| ensures list[i] != list[j] {
      assert Mentions(aliases, base, i, list[i]) && Mentions(aliases, base, j, list[j]);
    }
    forall b, i, x | b in got && Mentions(aliases, b, i, x) ensures x in got && x !in list {
      assert x in all && x !in [base];
      if x in list {
        var j :| 0 <= j < |list| && list[j] == x;
        assert Mentions(aliases, base, j, x);
      }
    }
  }

  lemma GetsPut(a: Routes, mid: Routes, c: Routes, base: Base, e: Endpoint, h: Handler)
    requires At(a, base, e).None? && mid == Put(a, base, e, h) && Adds(mid, c, e, h)
    ensures base !in Gets(mid, c, e) && Gets(a, c, e) == Gets(mid, c, e) + iset{base}
  {
    forall b ensures At(mid, b, e) == if b == base then Some(h) else At(a, b, e) {}
  }

  /** The first `k` of the bases have got the endpoint; an error is reported exactly if not all went well. */
  ghost predicate SoFar(aliases: map<Base, seq<Base>>, before: Routes, after: Routes, bases: seq<Base>, k: nat,
                        e: Endpoint, h: Handler, r: Option<Error>) {
    && k <= |bases| && AreAdded(aliases, before, after, bases[..k], e, h)
    && r == ErrorIf(!IsProper(aliases, Gets(before, after, e), bases[..k]))
  }

  lemma SoFarNone(aliases: map<Base, seq<Base>>, routes: Routes, bases: seq<Base>, e: Endpoint, h: Handler)
    ensures SoFar(aliases, routes, routes, bases, 0, e, h, None)
  {
  }

  lemma SoFarNext(aliases: map<Base, seq<Base>>, a: Routes, mid: Routes, c: Routes, bases: seq<Base>, k: nat,
                  e: Endpoint, h: Handler, r: Option<Error>, inner: Option<Error>)
    requires SoFar(aliases, a, mid, bases, k, e, h, r) && k < |bases|
    requires IsAdded(aliases, mid, c, bases[k], e, h) && inner == ErrorIf(Clashes(aliases, mid, e, [bases[k]]))
    ensures SoFar(aliases, a, c, bases, k + 1, e, h, if r.None? then inner else r)
  {
    assert bases[..k + 1] == bases[..k] + [bases[k]];
    OneAdded(aliases, mid, c, bases[k], e, h);
    GetsExactly(aliases, mid, c, [bases[k]], e, h);
    OneMoreAdded(aliases, a, mid, c, bases[..k], bases[k], e, h);
    ProperMore(aliases, a, mid, c, bases[..k], bases[k], e, h);
  }

  lemma SoFarAll(aliases: map<Base, seq<Base>>, before: Routes, after: Routes, bases: seq<Base>, e: Endpoint,
                 h: Handler, r: Option<Error>)
    requires SoFar(aliases, before, after, bases, |bases|, e, h, r)
    ensures AreAdded(aliases, before, after, bases, e, h) && r == ErrorIf(Clashes(aliases, before, e, bases))
  {
    assert bases[..|bases|] == bases;
    GetsExactly(aliases, before, after, bases, e, h);
  }

  lemma ClashPut(aliases: map<Base, seq<Base>>, a: Routes, mid: Routes, c: Routes, base: Base, e: Endpoint, h: Handler)
    requires At(a, base, e).None? && mid == Put(a, base, e, h)
    requires AreAdded(aliases, mid, c, AliasesOf(aliases, base), e, h)
    ensures IsAdded(aliases, a, c, base, e, h)
    ensures Clashes(aliases, a, e, [base]) <==> Clashes(aliases, mid, e, AliasesOf(aliases, base))
  {
    PutAdded(aliases, a, mid, c, base, e, h);
    OneAdded(aliases, a, c, base, e, h);
    GetsPut(a, mid, c, base, e, h);
    GetsExactly(aliases, a, c, [base], e, h);
    GetsExactly(aliases, mid, c, AliasesOf(aliases, base), e, h);
    ProperPut(aliases, Gets(mid, c, e), base);
  }

  lemma Present(aliases: map<Base, seq<Base>>, routes: Routes, base: Base, e: Endpoint)
    requires At(routes, base, e).Some?
    ensures Clashes(aliases, routes, e, [base])
  {
    assert forall p :: IsFree(aliases, routes, e, p) ==> p[|p| - 1] != base;
    assert [base][0] !in WillGet(aliases, routes, e, [base]);
  }

  function ErrorIf(wrong: bool): Option<Error> { if wrong then Some(EndpointExists) else None }

  // ---------- what holds between bases and aliases ----------

  /** A base that has the endpoint shares it with its aliases. */
  ghost predicate Shared(aliases: map<Base, seq<Base>>, routes: Routes, e: Endpoint) {
    forall b, a :: At(routes, b, e).Some? && a in AliasesOf(aliases, b) ==> At(routes, a, e).Some?
  }

  /** A clean alias, one without routes of its own, has exactly the handlers of its base. */
  ghost predicate Mirrors(aliases: map<Base, seq<Base>>, clean: set<Base>, routes: Routes, e: Endpoint) {
    forall b, a :: a in clean && a in AliasesOf(aliases, b) ==> At(routes, a, e) == At(routes, b, e)
  }

  /** The reserved routes are the aliases; each has one base. */
  ghost predicate IsForest(aliases: map<Base, seq<Base>>, reserved: set<Base>) {
    && (forall b, a :: a in AliasesOf(aliases, b) ==> a in reserved)
    && (forall b, c, a :: a in AliasesOf(aliases, b) && a in AliasesOf(aliases, c) ==> b == c)
  }

  /** Adding an endpoint to bases that are not clean aliases keeps bases and aliases together. It is
      enough that the shares hold for the aliases there were before, if the new ones are served. */
  lemma AddedShared(aliases: map<Base, seq<Base>>, older: map<Base, seq<Base>>, a: Routes, c: Routes, bases: seq<Base>,
                    e: Endpoint, h: Handler)
    requires AreAdded(aliases, a, c, bases, e, h) && Shared(older, a, e)
    requires forall b, x :: x in AliasesOf(aliases, b) ==> x in AliasesOf(older, b) || x in bases
    ensures Shared(aliases, c, e)
  {
    forall b, x | At(c, b, e).Some? && x in AliasesOf(aliases, b) ensures At(c, x, e).Some? {
      assert Propagates(aliases, a, c, e, b);
    }
  }

  lemma AddedMirrors(aliases: map<Base, seq<Base>>, reserved: set<Base>, clean: set<Base>, a: Routes, c: Routes,
                     bases: seq<Base>, e: Endpoint, h: Handler)
    requires AreAdded(aliases, a, c, bases, e, h) && IsForest(aliases, reserved) && Mirrors(aliases, clean, a, e)
    requires forall x :: x in bases ==> x !in clean
    ensures Mirrors(aliases, clean, c, e)
  {
    forall b, x | x in clean && x in AliasesOf(aliases, b) ensures At(c, x, e) == At(c, b, e) {
      assert At(a, x, e) == At(a, b, e);
      assert Propagates(aliases, a, c, e, b);
      if New(a, c, x, e) {
        var from :| from in bases && Reached(aliases, a, c, e, from, x);
        var y := LastStep(aliases, a, c, e, from, x);
        assert y == b;
      }
    }
  }

  // ---------- the router ----------

  class Table {
    var reservedRoutes: set<Base>
    var aliases: map<Base, seq<Base>>
    var routes: Routes

    ghost predicate AliasesReserved()
      reads this
    {
      forall b, a :: a in AliasesOf(aliases, b) ==> a in reservedRoutes
    }

    /** The bases that can still get the endpoint. */
    ghost function Lacking(bases: seq<Base>, e: Endpoint): set<Base>
      reads this
    {
      set b | b in reservedRoutes + (set x | x in bases) && At(routes, b, e).None?
    }

    /** Adds the endpoint to the base and to everything that is an alias of it, directly or not, even if
        aliases form cycles: each deeper call finds one base less without the endpoint. */
    method ForceAddRouter(base: Base, e: Endpoint, h: Handler) returns (r: Option<Error>)
      requires AliasesReserved()
      modifies this`routes
      ensures IsAdded(aliases, old(routes), routes, base, e, h)
      ensures At(old(routes), base, e).Some? ==> routes == old(routes)
      ensures r == ErrorIf(Clashes(aliases, old(routes), e, [base]))
      decreases Lacking([base], e), 0
    {
      if At(routes, base, e).Some? {
        Present(aliases, routes, base, e);
        return Some(EndpointExists);
      }
      ghost var before := Lacking([base], e);
      assert base in [base] && base in before;
      routes := Put(routes, base, e, h);
      ghost var mid := routes;
      assert Lacking(AliasesOf(aliases, base), e) < before;
      r := AddToAll(AliasesOf(aliases, base), e, h);
      ClashPut(aliases, old(routes), mid, routes, base, e, h);
    }

    /** Adds the endpoint to several bases, in this order. */
    method AddToAll(list: seq<Base>, e: Endpoint, h: Handler) returns (r: Option<Error>)
      requires AliasesReserved()
      modifies this`routes
      ensures AreAdded(aliases, old(routes), routes, list, e, h)
      ensures r == ErrorIf(Clashes(aliases, old(routes), e, list))
      decreases Lacking(list, e), 1
    {
      r := None;
      ghost var before := Lacking(list, e);
      SoFarNone(aliases, routes, list, e, h);
      for k := 0 to |list|
        invariant SoFar(aliases, old(routes), routes, list, k, e, h, r)
      {
        ghost var mid := routes;
        assert list[k] in list;
        StillLacking(list[k], list, e, old(routes), before, h, k, r);
        var inner := ForceAddRouter(list[k], e, h);
        SoFarNext(aliases, old(routes), mid, routes, list, k, e, h, r, inner);
        if r.None? { r := inner; }
      }
      SoFarAll(aliases, old(routes), routes, list, e, h, r);
    }

    lemma StillLacking(base: Base, list: seq<Base>, e: Endpoint, older: Routes, before: set<Base>, h: Handler, k: nat,
                       r: Option<Error>)
      requires base in list && SoFar(aliases, older, routes, list, k, e, h, r)
      requires before == set b | b in reservedRoutes + (set x | x in list) && At(older, b, e).None?
      ensures Lacking([base], e) <= before
    {
    }

    // ---------- AddRouter and AddAlias ----------

    /** The aliases that had no routes when they became aliases. */
    ghost var clean: set<Base>

    ghost predicate Valid()
      reads this
    {
      && IsForest(aliases, reservedRoutes) && clean <= reservedRoutes
      && (forall e :: Shared(aliases, routes, e) && Mirrors(aliases, clean, routes, e))
    }

    constructor ()
      ensures Valid() && routes == map[] && aliases == map[] && reservedRoutes == clean == {}
    {
      reservedRoutes, aliases, routes, clean := {}, map[], map[], {};
    }

    method GetHandler(base: Base, e: Endpoint) returns (h: Option<Handler>, error: Option<Error>)
      ensures h == At(routes, base, e)
      ensures error == if h.Some? then None else if base in routes then Some(UnknownEndpoint) else Some(UnknownBaseURL)
    {
      if base !in routes { return None, Some(UnknownBaseURL); }
      if e !in routes[base] { return None, Some(UnknownEndpoint); }
      return Some(routes[base][e]), None;
    }

    /** A route of a base that is not an alias. */
    method AddRouter(base: Base, e: Endpoint, h: Handler) returns (r: Option<Error>)
      requires Valid()
      modifies this`routes
      ensures Valid()
      ensures base in reservedRoutes ==> r == Some(AlreadyReserved) && routes == old(routes)
      ensures base !in reservedRoutes ==> IsAdded(aliases, old(routes), routes, base, e, h)
      ensures base !in reservedRoutes ==> r == ErrorIf(Clashes(aliases, old(routes), e, [base]))
      ensures At(old(routes), base, e).Some? ==> routes == old(routes)
    {
      if base in reservedRoutes { return Some(AlreadyReserved); }
      r := ForceAddRouter(base, e, h);
      OneAdded(aliases, old(routes), routes, base, e, h);
      RouteShared(aliases, reservedRoutes, clean, old(routes), routes, base, e, h);
    }

    /** New aliases of a base get all its routes; if one of them is an alias already, nothing happens. */
    method AddAlias(base: Base, list: seq<Base>) returns (r: Option<Error>)
      requires Valid()
      modifies this
      ensures Valid()
      ensures (exists a :: a in list && a in old(reservedRoutes)) ==> r == Some(AlreadyReserved) && unchanged(this)
      ensures !(exists a :: a in list && a in old(reservedRoutes)) ==>
                && aliases == old(aliases)[base := AliasesOf(old(aliases), base) + list]
                && reservedRoutes == old(reservedRoutes) + (set a | a in list)
                && clean == old(clean) + (set a | a in list && HasNone(old(routes), a))
                && r == ErrorIf(AnyClashes(aliases, old(routes), base, list, {}))
                && (forall b, e :: At(old(routes), b, e).Some? ==> At(routes, b, e) == At(old(routes), b, e))
                && forall b, e ::
                     New(old(routes), routes, b, e) ==> IsServed(aliases, old(routes), routes, base, list, b, e)
    {
      for i := 0 to |list|
        invariant forall j :: 0 <= j < i ==> list[j] !in reservedRoutes
        invariant unchanged(this)
      {
        if list[i] in reservedRoutes { return Some(AlreadyReserved); }
      }
      reservedRoutes := reservedRoutes + set a | a in list;
      aliases := aliases[base := AliasesOf(aliases, base) + list];
      clean := clean + set a | a in list && HasNone(routes, a);
      NewAliases(old(aliases), old(reservedRoutes), old(clean), aliases, reservedRoutes, clean, routes, base, list);
      r := ServeAliases(base, list, old(aliases), old(reservedRoutes), old(clean));
    }

    /** Gives the routes of the base to its new aliases. */
    method ServeAliases(base: Base, list: seq<Base>, ghost older: map<Base, seq<Base>>, ghost olderReserved: set<Base>,
                        ghost olderClean: set<Base>)
      returns (r: Option<Error>)
      requires AliasesReserved() && IsForest(older, olderReserved) && olderClean <= olderReserved
      requires forall j :: 0 <= j < |list| ==> list[j] !in olderReserved
      requires aliases == older[base := AliasesOf(older, base) + list]
               && clean == olderClean + (set a | a in list && HasNone(routes, a))
      requires forall e :: Shared(older, routes, e) && Mirrors(older, olderClean, routes, e)
      requires forall e :: At(routes, base, e).None?
                 ==> Shared(aliases, routes, e) && Mirrors(aliases, clean, routes, e)
      modifies this`routes
      ensures forall e :: Shared(aliases, routes, e) && Mirrors(aliases, clean, routes, e)
      ensures forall b, e :: At(old(routes), b, e).Some? ==> At(routes, b, e) == At(old(routes), b, e)
      ensures forall b, e :: New(old(routes), routes, b, e) ==> IsServed(aliases, old(routes), routes, base, list, b, e)
      ensures r == ErrorIf(AnyClashes(aliases, old(routes), base, list, {}))
    {
      r := None;
      var endpoints := if base in routes then routes[base] else map[];
      var left := endpoints.Keys;
      ghost var before := routes;
      while left != {}
        invariant left <= endpoints.Keys && AliasesReserved()
        invariant AreServed(aliases, clean, before, routes, base, list, left)
        invariant r == ErrorIf(AnyClashes(aliases, before, base, list, left))
        decreases left
      {
        var e :| e in left;
        ghost var mid := routes;
        var inner := AddToAll(list, e, endpoints[e]);
        NextServed(older, olderReserved, olderClean, aliases, clean, before, mid, routes, base, list, e, endpoints[e],
                   left);
        NextClashes(aliases, before, mid, base, list, e, left);
        left := left - {e};
        if r.None? { r := inner; }
      }
    }
  }

  /** The endpoints of the base, but for those that are left, have been given to its new aliases. */
  ghost predicate AreServed(aliases: map<Base, seq<Base>>, clean: set<Base>, before: Routes, after: Routes, base: Base,
                            list: seq<Base>, left: set<Endpoint>) {
    && (forall e, b :: e in left ==> At(after, b, e) == At(before, b, e))
    && (forall e :: e !in left ==> Shared(aliases, after, e) && Mirrors(aliases, clean, after, e))
    && (forall b, e :: At(before, b, e).Some? ==> At(after, b, e) == At(before, b, e))
    && (forall b, e :: New(before, after, b, e) ==> IsServed(aliases, before, after, base, list, b, e))
  }

  /** One of these endpoints has come to somebody who had it. */
  ghost predicate AnyClashes(aliases: map<Base, seq<Base>>, routes: Routes, base: Base, list: seq<Base>,
                             left: set<Endpoint>) {
    HasOther(Clashing(aliases, routes, base, list), left)
  }

  ghost function Clashing(aliases: map<Base, seq<Base>>, routes: Routes, base: Base, list: seq<Base>): iset<Endpoint> {
    iset e | At(routes, base, e).Some? && Clashes(aliases, routes, e, list)
  }

  ghost predicate HasOther(endpoints: iset<Endpoint>, left: set<Endpoint>) { exists e :: e in endpoints && e !in left }

  lemma OneLess(endpoints: iset<Endpoint>, left: set<Endpoint>, e: Endpoint)
    requires e in left
    ensures HasOther(endpoints, left - {e}) <==> HasOther(endpoints, left) || e in endpoints
  {
    if x :| x in endpoints && x !in left { assert x !in left - {e}; }
  }

  lemma NextServed(older: map<Base, seq<Base>>, olderReserved: set<Base>, olderClean: set<Base>,
                   aliases: map<Base, seq<Base>>, clean: set<Base>, before: Routes, mid: Routes, after: Routes,
                   base: Base, list: seq<Base>, e: Endpoint, h: Handler, left: set<Endpoint>)
    requires IsForest(older, olderReserved) && olderClean <= olderReserved
    requires forall j :: 0 <= j < |list| ==> list[j] !in olderReserved
    requires aliases == older[base := AliasesOf(older, base) + list]
             && clean == olderClean + (set a | a in list && HasNone(before, a))
    requires forall x :: Shared(older, before, x) && Mirrors(older, olderClean, before, x)
    requires AreServed(aliases, clean, before, mid, base, list, left) && e in left && At(before, base, e) == Some(h)
    requires AreAdded(aliases, mid, after, list, e, h)
    ensures AreServed(aliases, clean, before, after, base, list, left - {e})
  {
    EndpointShared(older, olderReserved, olderClean, aliases, clean, before, mid, after, base, list, e, h);
    OthersKept(aliases, clean, mid, after, e, h);
    EndpointServed(aliases, before, mid, after, base, list, e, h);
  }

  lemma NextClashes(aliases: map<Base, seq<Base>>, before: Routes, mid: Routes, base: Base, list: seq<Base>,
                    e: Endpoint, left: set<Endpoint>)
    requires e in left && At(before, base, e).Some? && forall b :: At(mid, b, e) == At(before, b, e)
    ensures AnyClashes(aliases, before, base, list, left - {e}) <==>
            AnyClashes(aliases, before, base, list, left) || Clashes(aliases, mid, e, list)
  {
    SameWillGet(aliases, before, mid, e, list);
    OneLess(Clashing(aliases, before, base, list), left, e);
  }

  lemma SameWillGet(aliases: map<Base, seq<Base>>, a: Routes, c: Routes, e: Endpoint, bases: seq<Base>)
    requires forall b :: At(c, b, e) == At(a, b, e)
    ensures WillGet(aliases, c, e, bases) == WillGet(aliases, a, e, bases)
  {
    forall b ensures FreeFrom(aliases, c, e, bases, b) <==> FreeFrom(aliases, a, e, bases, b) {
      StillFree(aliases, a, c, e, bases, b);
      StillFree(aliases, c, a, e, bases, b);
    }
  }

  lemma StillFree(aliases: map<Base, seq<Base>>, a: Routes, c: Routes, e: Endpoint, bases: seq<Base>, b: Base)
    requires forall x :: At(c, x, e) == At(a, x, e)
    ensures FreeFrom(aliases, a, e, bases, b) ==> FreeFrom(aliases, c, e, bases, b)
  {
    if FreeFrom(aliases, a, e, bases, b) {
      var p :| IsFree(aliases, a, e, p) && p[0] in bases && p[|p| - 1] == b;
      assert IsFree(aliases, c, e, p);
    }
  }

  /** The other endpoints are not touched. */
  lemma OthersKept(aliases: map<Base, seq<Base>>, clean: set<Base>, a: Routes, c: Routes, e: Endpoint, h: Handler)
    requires Adds(a, c, e, h)
    ensures forall x :: x != e && Shared(aliases, a, x) ==> Shared(aliases, c, x)
    ensures forall x :: x != e && Mirrors(aliases, clean, a, x) ==> Mirrors(aliases, clean, c, x)
  {
    forall x | x != e && Shared(aliases, a, x) ensures Shared(aliases, c, x) {
      forall b, y | At(c, b, x).Some? && y in AliasesOf(aliases, b)
        ensures At(c, y, x).Some? { assert At(c, b, x) == At(a, b, x); }
    }
    forall x | x != e && Mirrors(aliases, clean, a, x) ensures Mirrors(aliases, clean, c, x) {
      forall b, y | y in clean && y in AliasesOf(aliases, b)
        ensures At(c, y, x) == At(c, b, x) { assert At(a, y, x) == At(a, b, x); }
    }
  }

  /** A route of a base that is no alias keeps all bases and aliases together. */
  lemma RouteShared(aliases: map<Base, seq<Base>>, reserved: set<Base>, clean: set<Base>, a: Routes, c: Routes,
                    base: Base, e: Endpoint, h: Handler)
    requires AreAdded(aliases, a, c, [base], e, h) && IsForest(aliases, reserved) && clean <= reserved
    requires base !in reserved && forall x :: Shared(aliases, a, x) && Mirrors(aliases, clean, a, x)
    ensures forall x :: Shared(aliases, c, x) && Mirrors(aliases, clean, c, x)
  {
    AddedShared(aliases, aliases, a, c, [base], e, h);
    AddedMirrors(aliases, reserved, clean, a, c, [base], e, h);
    OthersKept(aliases, clean, a, c, e, h);
  }

  /** A new route of new aliases is one of the base, with its handler, and is theirs because it was given to
      one of them. */
  ghost predicate IsServed(aliases: map<Base, seq<Base>>, before: Routes, after: Routes, base: Base, list: seq<Base>,
                           b: Base, e: Endpoint) {
    && At(before, base, e).Some? && At(after, b, e) == At(before, base, e)
    && ReachedFrom(aliases, before, after, e, list, b)
  }

  lemma EndpointServed(aliases: map<Base, seq<Base>>, before: Routes, mid: Routes, after: Routes, base: Base,
                       list: seq<Base>, e: Endpoint, h: Handler)
    requires forall b, x :: New(before, mid, b, x) ==> IsServed(aliases, before, mid, base, list, b, x)
    requires (forall b :: At(mid, b, e) == At(before, b, e)) && At(before, base, e) == Some(h)
             && AreAdded(aliases, mid, after, list, e, h)
    ensures forall b, x :: New(before, after, b, x) ==> IsServed(aliases, before, after, base, list, b, x)
  {
    forall b, x | New(before, after, b, x) ensures IsServed(aliases, before, after, base, list, b, x) {
      if x == e {
        assert New(mid, after, b, e);
        var from :| from in list && Reached(aliases, mid, after, e, from, b);
        ReachedMore(aliases, mid, after, before, after, e, from, b);
      } else {
        assert New(before, mid, b, x) && IsServed(aliases, before, mid, base, list, b, x);
        var from :| from in list && Reached(aliases, before, mid, x, from, b);
        ReachedMore(aliases, before, mid, before, after, x, from, b);
      }
    }
  }

  predicate HasNone(routes: Routes, b: Base) { b !in routes || routes[b] == map[] }

  /** Before any route is added for new aliases, everything holds but for the endpoints of their base. */
  lemma NewAliases(aliases: map<Base, seq<Base>>, reserved: set<Base>, clean: set<Base>,
                   aliases': map<Base, seq<Base>>, reserved': set<Base>, clean': set<Base>, routes: Routes, base: Base,
                     list: seq<Base>)
    requires IsForest(aliases, reserved) && clean <= reserved
             && forall e :: Shared(aliases, routes, e) && Mirrors(aliases, clean, routes, e)
    requires forall j :: 0 <= j < |list| ==> list[j] !in reserved
    requires aliases' == aliases[base := AliasesOf(aliases, base) + list] && reserved' == reserved + (set a | a in list)
    requires clean' == clean + (set a | a in list && HasNone(routes, a))
    ensures IsForest(aliases', reserved') && clean' <= reserved'
    ensures forall e :: At(routes, base, e).None?
              ==> Shared(aliases', routes, e) && Mirrors(aliases', clean', routes, e)
  {
    ForestGrows(aliases, reserved, aliases', reserved', base, list);
    forall e | At(routes, base, e).None? ensures Shared(aliases', routes, e) && Mirrors(aliases', clean', routes, e) {
      NothingToServe(aliases, reserved, clean, aliases', clean', routes, base, list, e);
    }
  }

  lemma MoreAliases(aliases: map<Base, seq<Base>>, base: Base, list: seq<Base>, b: Base, a: Base)
    ensures a in AliasesOf(aliases[base := AliasesOf(aliases, base) + list], b) <==>
            a in AliasesOf(aliases, b) || (b == base && a in list)
  {
  }

  lemma ForestGrows(aliases: map<Base, seq<Base>>, reserved: set<Base>, aliases': map<Base, seq<Base>>,
                    reserved': set<Base>, base: Base, list: seq<Base>)
    requires IsForest(aliases, reserved) && forall j :: 0 <= j < |list| ==> list[j] !in reserved
    requires aliases' == aliases[base := AliasesOf(aliases, base) + list] && reserved' == reserved + (set a | a in list)
    ensures IsForest(aliases', reserved')
  {
    forall b, a | a in AliasesOf(aliases', b) ensures a in reserved' { MoreAliases(aliases, base, list, b, a); }
    forall b, c, a | a in AliasesOf(aliases', b) && a in AliasesOf(aliases', c) ensures b == c {
      MoreAliases(aliases, base, list, b, a);
      MoreAliases(aliases, base, list, c, a);
    }
  }

  lemma NothingToServe(aliases: map<Base, seq<Base>>, reserved: set<Base>, clean: set<Base>,
                       aliases': map<Base, seq<Base>>, clean': set<Base>,
                       routes: Routes, base: Base, list: seq<Base>, e: Endpoint)
    requires IsForest(aliases, reserved) && clean <= reserved && Shared(aliases, routes, e)
             && Mirrors(aliases, clean, routes, e)
    requires forall j :: 0 <= j < |list| ==> list[j] !in reserved
    requires aliases' == aliases[base := AliasesOf(aliases, base) + list]
    requires clean' == clean + (set a | a in list && HasNone(routes, a)) && At(routes, base, e).None?
    ensures Shared(aliases', routes, e) && Mirrors(aliases', clean', routes, e)
  {
    forall b, a | At(routes, b, e).Some? && a in AliasesOf(aliases', b)
      ensures At(routes, a, e).Some? { MoreAliases(aliases, base, list, b, a); }
    forall b, a | a in clean' && a in AliasesOf(aliases', b)
      ensures At(routes, a, e) == At(routes, b, e) { MoreAliases(aliases, base, list, b, a); }
  }

  /** Once the new aliases have an endpoint of their base, everything holds for it. */
  lemma EndpointShared(aliases: map<Base, seq<Base>>, reserved: set<Base>, clean: set<Base>,
                       aliases': map<Base, seq<Base>>, clean': set<Base>,
                       before: Routes, a: Routes, c: Routes, base: Base, list: seq<Base>, e: Endpoint, h: Handler)
    requires IsForest(aliases, reserved) && clean <= reserved && Shared(aliases, before, e)
             && Mirrors(aliases, clean, before, e)
    requires forall j :: 0 <= j < |list| ==> list[j] !in reserved
    requires aliases' == aliases[base := AliasesOf(aliases, base) + list]
    requires clean' == clean + (set a | a in list && HasNone(before, a))
    requires (forall b :: At(a, b, e) == At(before, b, e)) && At(before, base, e) == Some(h)
    requires AreAdded(aliases', a, c, list, e, h)
    ensures Shared(aliases', c, e) && Mirrors(aliases', clean', c, e)
  {
    AddedShared(aliases', aliases, a, c, list, e, h);
    forall b, x | x in clean' && x in AliasesOf(aliases', b) ensures At(c, x, e) == At(c, b, e) {
      assert Propagates(aliases', a, c, e, b);
      if x in list {
        assert b == base && (HasNone(before, x) ==> At(a, x, e).None?);
      } else {
        assert x in AliasesOf(aliases, b) && At(a, x, e) == At(a, b, e);
        if New(a, c, x, e) {
          var from :| from in list && Reached(aliases', a, c, e, from, x);
          var y := LastStep(aliases', a, c, e, from, x);
          assert x in AliasesOf(aliases, y) && y == b;
        }
      }
    }
  }

  // ---------- over whole runs ----------

  datatype Call = Route(base: Base, e: Endpoint, h: Handler) | Alias(base: Base, list: seq<Base>)

  datatype Names = Names(aliases: map<Base, seq<Base>>, reserved: set<Base>)

  /** The aliases after the first `k` calls; one that would give a name twice is refused. */
  function NamesAfter(calls: seq<Call>, k: nat): Names
    requires k <= |calls|
  {
    if k == 0 then Names(map[], {}) else Renamed(NamesAfter(calls, k - 1), calls[k - 1])
  }

  function Renamed(names: Names, call: Call): Names {
    if call.Route? || exists a :: a in call.list && a in names.reserved then names
    else Names(names.aliases[call.base := AliasesOf(names.aliases, call.base) + call.list],
               names.reserved + set a | a in call.list)
  }

  /** Call `j` is for a route with the endpoint and is not refused, and aliases lead from its base to `b`. */
  ghost predicate Provides(calls: seq<Call>, j: int, aliases: map<Base, seq<Base>>, b: Base, e: Endpoint) {
    && 0 <= j < |calls| && calls[j].Route? && calls[j].e == e && calls[j].base !in NamesAfter(calls, j).reserved
    && Leads(aliases, calls[j].base, b)
  }

  ghost predicate Leads(aliases: map<Base, seq<Base>>, from: Base, b: Base) {
    exists p :: IsLine(aliases, p) && p[0] == from && p[|p| - 1] == b
  }

  ghost predicate IsLine(aliases: map<Base, seq<Base>>, p: seq<Base>) {
    p != [] && forall i :: 0 <= i < |p| - 1 ==> p[i + 1] in AliasesOf(aliases, p[i])
  }

  lemma LeadsSelf(aliases: map<Base, seq<Base>>, b: Base)
    ensures Leads(aliases, b, b)
  {
    assert IsLine(aliases, [b]) && [b][0] == b && [b][|[b]| - 1] == b;
  }

  /** Aliases that are added later lead at least as far. */
  lemma LeadsMore(older: map<Base, seq<Base>>, aliases: map<Base, seq<Base>>, from: Base, b: Base)
    requires Leads(older, from, b) && forall x, a :: a in AliasesOf(older, x) ==> a in AliasesOf(aliases, x)
    ensures Leads(aliases, from, b)
  {
    var p :| IsLine(older, p) && p[0] == from && p[|p| - 1] == b;
    assert IsLine(aliases, p);
  }

  lemma LeadsOn(aliases: map<Base, seq<Base>>, from: Base, mid: Base, b: Base)
    requires Leads(aliases, from, mid) && Leads(aliases, mid, b)
    ensures Leads(aliases, from, b)
  {
    var p :| IsLine(aliases, p) && p[0] == from && p[|p| - 1] == mid;
    var q :| IsLine(aliases, q) && q[0] == mid && q[|q| - 1] == b;
    var r := p + q[1..];
    forall i | 0 <= i < |r| - 1 ensures r[i + 1] in AliasesOf(aliases, r[i]) {
      if i >= |p| - 1 { assert r[i] == q[i - |p| + 1] && r[i + 1] == q[i - |p| + 2]; }
    }
    assert IsLine(aliases, r) && r[0] == from && r[|r| - 1] == b;
  }

  lemma ReachedLeads(aliases: map<Base, seq<Base>>, before: Routes, after: Routes, e: Endpoint, from: Base, b: Base)
    requires Reached(aliases, before, after, e, from, b)
    ensures Leads(aliases, from, b)
  {
    var p :| IsPath(aliases, before, after, e, p) && p[0] == from && p[|p| - 1] == b;
    assert IsLine(aliases, p);
  }

  /** What is shared is shared all along. */
  lemma {:induction false} SharedAlong(aliases: map<Base, seq<Base>>, routes: Routes, e: Endpoint, p: seq<Base>, i: nat)
    requires Shared(aliases, routes, e) && IsLine(aliases, p) && At(routes, p[0], e).Some? && i < |p|
    ensures At(routes, p[i], e).Some?
  {
    if i > 0 {
      SharedAlong(aliases, routes, e, p, i - 1);
      assert p[i - 1 + 1] in AliasesOf(aliases, p[i - 1]);
    }
  }

  /** Every route comes from one of the first `k` calls, with the handler of that call. */
  ghost predicate AllProvided(calls: seq<Call>, k: nat, aliases: map<Base, seq<Base>>, routes: Routes) {
    forall b, e :: At(routes, b, e).Some? ==> IsProvided(calls, k, aliases, b, e, At(routes, b, e))
  }

  ghost predicate IsProvided(calls: seq<Call>, k: nat, aliases: map<Base, seq<Base>>, b: Base, e: Endpoint,
                             h: Option<Handler>) {
    exists j :: j < k && Provides(calls, j, aliases, b, e) && h == Some(calls[j].h)
  }

  /** The routes that were asked for and not refused are there. */
  ghost predicate AllThere(calls: seq<Call>, k: nat, routes: Routes) {
    forall j :: 0 <= j < k && j < |calls| && calls[j].Route? && calls[j].base !in NamesAfter(calls, j).reserved ==>
      At(routes, calls[j].base, calls[j].e).Some?
  }

  /** After any calls a base has an endpoint if and only if it was added to a base from which aliases lead there,
      whatever came first, the route or the aliases. */
  method Play(calls: seq<Call>) returns (t: Table)
    ensures fresh(t) && t.Valid() && Names(t.aliases, t.reservedRoutes) == NamesAfter(calls, |calls|)
    ensures forall b, e :: At(t.routes, b, e).Some? <==> exists j :: Provides(calls, j, t.aliases, b, e)
    ensures AllProvided(calls, |calls|, t.aliases, t.routes)
  {
    t := new Table();
    for k := 0 to |calls|
      invariant fresh(t) && t.Valid() && Names(t.aliases, t.reservedRoutes) == NamesAfter(calls, k)
      invariant AllProvided(calls, k, t.aliases, t.routes) && AllThere(calls, k, t.routes)
    {
      match calls[k]
      case Route(_, _, _) => PlayRoute(t, calls, k);
      case Alias(_, _) => PlayAlias(t, calls, k);
    }
    forall b, e ensures At(t.routes, b, e).Some? <==> exists j :: Provides(calls, j, t.aliases, b, e) {
      if j :| Provides(calls, j, t.aliases, b, e) { ProvidedThere(calls, j, t.aliases, t.routes, b, e); }
    }
  }

  lemma ProvidedThere(calls: seq<Call>, j: nat, aliases: map<Base, seq<Base>>, routes: Routes, b: Base, e: Endpoint)
    requires Provides(calls, j, aliases, b, e) && AllThere(calls, |calls|, routes) && Shared(aliases, routes, e)
    ensures At(routes, b, e).Some?
  {
    var p :| IsLine(aliases, p) && p[0] == calls[j].base && p[|p| - 1] == b;
    SharedAlong(aliases, routes, e, p, |p| - 1);
  }

  method PlayRoute(t: Table, calls: seq<Call>, k: nat)
    requires k < |calls| && calls[k].Route?
    requires t.Valid() && Names(t.aliases, t.reservedRoutes) == NamesAfter(calls, k)
    requires AllProvided(calls, k, t.aliases, t.routes) && AllThere(calls, k, t.routes)
    modifies t
    ensures t.Valid() && Names(t.aliases, t.reservedRoutes) == NamesAfter(calls, k + 1)
    ensures AllProvided(calls, k + 1, t.aliases, t.routes) && AllThere(calls, k + 1, t.routes)
  {
    ghost var before := t.routes;
    var r := t.AddRouter(calls[k].base, calls[k].e, calls[k].h);
    if calls[k].base in t.reservedRoutes {
      MoreCalls(calls, k, t.aliases, t.routes);
    } else {
      RouteProvided(calls, k, t.aliases, before, t.routes);
    }
  }

  lemma MoreCalls(calls: seq<Call>, k: nat, aliases: map<Base, seq<Base>>, routes: Routes)
    requires k < |calls| && AllProvided(calls, k, aliases, routes)
    ensures AllProvided(calls, k + 1, aliases, routes)
  {
    forall b, e | At(routes, b, e).Some? ensures IsProvided(calls, k + 1, aliases, b, e, At(routes, b, e)) {
      MoreProvided(calls, k, aliases, b, e, At(routes, b, e));
    }
  }

  lemma MoreProvided(calls: seq<Call>, k: nat, aliases: map<Base, seq<Base>>, b: Base, e: Endpoint, h: Option<Handler>)
    requires IsProvided(calls, k, aliases, b, e, h)
    ensures IsProvided(calls, k + 1, aliases, b, e, h)
  {
    var j :| j < k && Provides(calls, j, aliases, b, e) && h == Some(calls[j].h);
    assert j < k + 1;
  }

  lemma RouteProvided(calls: seq<Call>, k: nat, aliases: map<Base, seq<Base>>, a: Routes, c: Routes)
    requires k < |calls| && calls[k].Route? && calls[k].base !in NamesAfter(calls, k).reserved
    requires AllProvided(calls, k, aliases, a) && AllThere(calls, k, a)
    requires IsAdded(aliases, a, c, calls[k].base, calls[k].e, calls[k].h)
    ensures AllProvided(calls, k + 1, aliases, c) && AllThere(calls, k + 1, c)
  {
    forall b, e | At(c, b, e).Some? ensures IsProvided(calls, k + 1, aliases, b, e, At(c, b, e)) {
      if New(a, c, b, e) {
        NewProvided(calls, k, aliases, a, c, b, e);
      } else {
        assert At(a, b, e) == At(c, b, e);
        MoreProvided(calls, k, aliases, b, e, At(c, b, e));
      }
    }
    RouteThere(calls, k, a, c);
  }

  lemma NewProvided(calls: seq<Call>, k: nat, aliases: map<Base, seq<Base>>, a: Routes, c: Routes, b: Base, e: Endpoint)
    requires k < |calls| && calls[k].Route? && calls[k].base !in NamesAfter(calls, k).reserved && New(a, c, b, e)
    requires IsAdded(aliases, a, c, calls[k].base, calls[k].e, calls[k].h)
    ensures IsProvided(calls, k + 1, aliases, b, e, At(c, b, e))
  {
    assert e == calls[k].e;
    ReachedLeads(aliases, a, c, e, calls[k].base, b);
    assert Provides(calls, k, aliases, b, e);
  }

  lemma RouteThere(calls: seq<Call>, k: nat, a: Routes, c: Routes)
    requires k < |calls| && calls[k].Route? && AllThere(calls, k, a) && At(c, calls[k].base, calls[k].e).Some?
    requires forall b, e :: At(a, b, e).Some? ==> At(c, b, e).Some?
    ensures AllThere(calls, k + 1, c)
  {
  }

  method PlayAlias(t: Table, calls: seq<Call>, k: nat)
    requires k < |calls| && calls[k].Alias?
    requires t.Valid() && Names(t.aliases, t.reservedRoutes) == NamesAfter(calls, k)
    requires AllProvided(calls, k, t.aliases, t.routes) && AllThere(calls, k, t.routes)
    modifies t
    ensures t.Valid() && Names(t.aliases, t.reservedRoutes) == NamesAfter(calls, k + 1)
    ensures AllProvided(calls, k + 1, t.aliases, t.routes) && AllThere(calls, k + 1, t.routes)
  {
    ghost var older, before := t.aliases, t.routes;
    var r := t.AddAlias(calls[k].base, calls[k].list);
    if r != Some(AlreadyReserved) {
      AliasProvided(calls, k, older, t.aliases, before, t.routes, calls[k].base, calls[k].list);
    }
    MoreCalls(calls, k, t.aliases, t.routes);
    StillThere(calls, k, before, t.routes);
  }

  lemma StillThere(calls: seq<Call>, k: nat, a: Routes, c: Routes)
    requires k < |calls| && calls[k].Alias? && AllThere(calls, k, a)
    requires forall b, e :: At(a, b, e).Some? ==> At(c, b, e) == At(a, b, e)
    ensures AllThere(calls, k + 1, c)
  {
  }

  lemma AliasProvided(calls: seq<Call>, k: nat, older: map<Base, seq<Base>>, aliases: map<Base, seq<Base>>, a: Routes,
                      c: Routes, base: Base, list: seq<Base>)
    requires k < |calls| && AllProvided(calls, k, older, a)
    requires aliases == older[base := AliasesOf(older, base) + list]
    requires forall b, e :: At(a, b, e).Some? ==> At(c, b, e) == At(a, b, e)
    requires forall b, e :: New(a, c, b, e) ==> IsServed(aliases, a, c, base, list, b, e)
    ensures AllProvided(calls, k, aliases, c)
  {
    forall b, e | At(c, b, e).Some?
      ensures IsProvided(calls, k, aliases, b, e, At(c, b, e)) {
      var from := if New(a, c, b, e) then base else b;
      var j :| j < k && Provides(calls, j, older, from, e) && At(a, from, e) == Some(calls[j].h);
      LeadsMore(older, aliases, calls[j].base, from);
      if New(a, c, b, e) { ServedLeads(aliases, a, c, base, list, b, e); } else { LeadsSelf(aliases, b); }
      LeadsOn(aliases, calls[j].base, from, b);
      assert Provides(calls, j, aliases, b, e);
    }
  }

  lemma ServedLeads(aliases: map<Base, seq<Base>>, a: Routes, c: Routes, base: Base, list: seq<Base>, b: Base,
                    e: Endpoint)
    requires IsServed(aliases, a, c, base, list, b, e) && forall x :: x in list ==> x in AliasesOf(aliases, base)
    ensures Leads(aliases, base, b)
  {
    var x :| x in list && Reached(aliases, a, c, e, x, b);
    ReachedLeads(aliases, a, c, e, x, b);
    var p := [base, x];
    assert IsLine(aliases, p) && p[0] == base && p[|p| - 1] == x;
    LeadsOn(aliases, base, x, b);
  }
}
