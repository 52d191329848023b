/** Health checks and the gauges that count the failing ones (api/health/worker.go). */
module Health {
  import opened Basics

  /** A tag: the two with a meaning of their own, "all" and "application", and any other. Names are
      numbers here. */
  datatype Tag = AllTag | ApplicationTag | Named(id: nat)

  type Name = nat

  datatype Error = RestrictedTag | DuplicateCheck

  /** A result: whether it is an error, how many failures it ends, and the time of the first of them. */
  datatype Result = Result(failing: bool, contiguousFailures: nat, firstFailure: Option<int>)

  const NotYetRun := Result(true, 0, None)

  datatype Check = Check(isApplicationCheck: bool, tags: seq<Tag>)

  // ---------- what the gauges should show ----------

  function NamesOf(tags: map<Tag, set<Name>>, t: Tag): set<Name> { if t in tags then tags[t] else {} }

  /** Those of the checks that fail. */
  ghost function FailingIn(names: set<Name>, results: map<Name, Result>): set<Name> {
    set n | n in names && n in results && results[n].failing
  }

  /** The checks that a query for the tag returns: those with the tag and the application checks. */
  function Queried(tags: map<Tag, set<Name>>, t: Tag): set<Name> { NamesOf(tags, t) + NamesOf(tags, ApplicationTag) }

  ghost function Failing(tags: map<Tag, set<Name>>, results: map<Name, Result>, t: Tag): set<Name> {
    FailingIn(Queried(tags, t), results)
  }

  function Gauge(gauges: map<Tag, int>, t: Tag): int { if t in gauges then gauges[t] else 0 }

  /** Every registered tag counts its failing checks; one that is not registered counts none. */
  ghost predicate IsExact(tags: map<Tag, set<Name>>, results: map<Name, Result>, gauges: map<Tag, int>) {
    forall t :: Gauge(gauges, t) == if t in tags then |Failing(tags, results, t)| else 0
  }

  predicate Repeats(tags: seq<Tag>) { exists i, j :: 0 <= i < j < |tags| && tags[i] == tags[j] }

  /** The checks, their tags and their results belong together. */
  ghost predicate Consistent(checks: map<Name, Check>, tags: map<Tag, set<Name>>, results: map<Name, Result>) {
    && results.Keys == checks.Keys
    && (checks != map[] ==> AllTag in tags)
    && (forall t :: t in tags ==> tags[t] != {})
    && (forall t, n :: t in tags && n in tags[t] ==> n in checks)
    && (forall n :: n in checks ==> AllTag !in checks[n].tags)
    && (forall n, t :: n in checks ==> (n in NamesOf(tags, t) <==> t == AllTag || t in checks[n].tags))
    && (forall n :: n in checks ==> (checks[n].isApplicationCheck <==> ApplicationTag in checks[n].tags))
  }

  // ---------- changes of one check ----------

  function CountOf(tags: seq<Tag>, k: nat, t: Tag): nat
    requires k <= |tags|
  {
    if k == 0 then 0 else CountOf(tags, k - 1, t) + (if tags[k - 1] == t then 1 else 0)
  }

  /** A number of units, one by one. */
  function Times(count: nat, unit: int): int { if count == 0 then 0 else Times(count - 1, unit) + unit }

  /** What a tag gets for each time it is listed. */
  function Unit(tags: map<Tag, set<Name>>, t: Tag, d: int, extra: int): int { d + if |NamesOf(tags, t)| == 1 then extra
                                                                             else 0 }

  lemma {:induction false} CountPositive(tags: seq<Tag>, k: nat, t: Tag)
    requires k <= |tags|
    ensures CountOf(tags, k, t) > 0 <==> exists i :: 0 <= i < k && tags[i] == t
  {
    if k > 0 { CountPositive(tags, k - 1, t); }
  }

  lemma {:induction false} CountOnce(tags: seq<Tag>, k: nat, t: Tag)
    requires k <= |tags|
    ensures CountOf(tags, k, t) <= 1 <==> !exists i, j :: 0 <= i < j < k && tags[i] == t == tags[j]
  {
    if k > 0 {
      CountOnce(tags, k - 1, t);
      CountPositive(tags, k - 1, t);
      if tags[k - 1] == t && CountOf(tags, k - 1, t) > 0 {
        var i :| 0 <= i < k - 1 && tags[i] == t;
        assert 0 <= i < k - 1 < k && tags[i] == t == tags[k - 1];
      }
    }
  }

  /** What a change of one result does to the failing ones of some checks. */
  lemma FailingAfter(names: set<Name>, results: map<Name, Result>, n: Name, r: Result)
    requires n in results
    ensures |FailingIn(names, results[n := r])| == |FailingIn(names, results)|
              + if n in names then (if r.failing then 1 else 0) - (if results[n].failing then 1 else 0) else 0
  {
    var before := FailingIn(names, results);
    FailingSet(names, results, n, r);
    AddOne(before, n);
    RemoveOne(before, n);
  }

  lemma FailingSet(names: set<Name>, results: map<Name, Result>, n: Name, r: Result)
    requires n in results
    ensures FailingIn(names, results[n := r]) ==
            var before := FailingIn(names, results); if n !in names then before else if r.failing then before + {n}
                                                                                     else before - {n}
  {
    var before, after := FailingIn(names, results), FailingIn(names, results[n := r]);
    forall m ensures m in after <==> (if m == n then n in names && r.failing else m in before) {}
  }

  /** What a new check does, which fails until it is run. */
  lemma FailingJoined(names: set<Name>, results: map<Name, Result>, n: Name)
    requires n !in results
    ensures |FailingIn(names + {n}, results[n := NotYetRun])| == |FailingIn(names, results)| + 1
    ensures n !in names ==> FailingIn(names, results[n := NotYetRun]) == FailingIn(names, results)
  {
    FailingWith(names, results, n, FailingIn(names, results), FailingIn(names + {n}, results[n := NotYetRun]));
    AddOne(FailingIn(names, results), n);
  }

  lemma FailingWith(names: set<Name>, results: map<Name, Result>, n: Name, before: set<Name>, after: set<Name>)
    requires n !in results && before == FailingIn(names, results)
    requires after == FailingIn(names + {n}, results[n := NotYetRun])
    ensures after == before + {n} && n !in before
    ensures n !in names ==> FailingIn(names, results[n := NotYetRun]) == before
  {
    forall m ensures m in after <==> m in before || m == n {}
  }

  // ---------- registration ----------

  /** The name is added to each listed tag and to the tag of all. */
  function Tagged(tags: map<Tag, set<Name>>, list: seq<Tag>, k: nat, n: Name): map<Tag, set<Name>>
    requires k <= |list|
  {
    if k == 0 then tags
    else
      var before := Tagged(tags, list, k - 1, n);
      before[list[k - 1] := NamesOf(before, list[k - 1]) + {n}]
  }

  lemma {:induction false} TaggedNames(tags: map<Tag, set<Name>>, list: seq<Tag>, k: nat, n: Name, t: Tag)
    requires k <= |list|
    ensures var listed := exists i :: 0 <= i < k && list[i] == t;
            && (t in Tagged(tags, list, k, n) <==> t in tags || listed)
            && NamesOf(Tagged(tags, list, k, n), t) == if listed then NamesOf(tags, t) + {n} else NamesOf(tags, t)
  {
    if k > 0 { TaggedNames(tags, list, k - 1, n, t); }
  }

  /** When a registration keeps the gauges exact: an application check must not bring new tags while
      application checks fail, any other check must not list a tag twice. */
  predicate KeepsCount(tags: map<Tag, set<Name>>, numFailing: int, list: seq<Tag>) {
    if ApplicationTag in list then numFailing == 0 || forall i :: 0 <= i < |list| ==> list[i] in tags
    else !Repeats(list)
  }

  /** The state before a registration, and the tags after it. */
  ghost predicate Registers(tags: map<Tag, set<Name>>, results: map<Name, Result>, list: seq<Tag>, n: Name,
                            tags': map<Tag, set<Name>>) {
    && n !in results && AllTag !in list
    && (forall t :: t in tags ==> tags[t] != {} && n !in tags[t])
    && (AllTag !in tags ==> results == map[])
    && (forall t :: t in tags' <==> t in tags || t in list || t == AllTag)
    && (forall t :: NamesOf(tags', t) == Joined(tags, list, n, t))
  }

  /** The names of a tag after a registration. */
  function Joined(tags: map<Tag, set<Name>>, list: seq<Tag>, n: Name, t: Tag): set<Name> {
    if t in list || t == AllTag then NamesOf(tags, t) + {n} else NamesOf(tags, t)
  }

  lemma FailingRegistered(tags: map<Tag, set<Name>>, results: map<Name, Result>, list: seq<Tag>, n: Name,
                          tags': map<Tag, set<Name>>, t: Tag)
    requires n !in results && n !in Queried(tags, t)
    requires NamesOf(tags', t) == Joined(tags, list, n, t)
             && NamesOf(tags', ApplicationTag) == Joined(tags, list, n, ApplicationTag)
    ensures |Failing(tags', results[n := NotYetRun], t)| ==
            |Failing(tags, results, t)| + (if t in list || t == AllTag || ApplicationTag in list then 1 else 0)
  {
    QueriedAfter(tags, list, n, tags', t);
    FailingGrown(Queried(tags, t), Queried(tags', t), results, n, t in list || t == AllTag || ApplicationTag in list);
  }

  lemma QueriedAfter(tags: map<Tag, set<Name>>, list: seq<Tag>, n: Name, tags': map<Tag, set<Name>>, t: Tag)
    requires NamesOf(tags', t) == Joined(tags, list, n, t)
             && NamesOf(tags', ApplicationTag) == Joined(tags, list, n, ApplicationTag)
    ensures Queried(tags', t) == if t in list || t == AllTag || ApplicationTag in list then Queried(tags, t) + {n}
                                 else Queried(tags, t)
  {
  }

  lemma FailingGrown(names: set<Name>, names': set<Name>, results: map<Name, Result>, n: Name, joined: bool)
    requires n !in results && n !in names && names' == if joined then names + {n} else names
    ensures |FailingIn(names', results[n := NotYetRun])| == |FailingIn(names, results)| + if joined then 1 else 0
  {
    FailingJoined(names, results, n);
  }

  lemma FailingUnregistered(tags: map<Tag, set<Name>>, results: map<Name, Result>, t: Tag)
    requires t !in tags
    ensures Failing(tags, results, t) == Failing(tags, results, ApplicationTag)
  {
    assert Queried(tags, t) == Queried(tags, ApplicationTag);
  }

  lemma NowRegistered(checks: map<Name, Check>, tags: map<Tag, set<Name>>, results: map<Name, Result>, list: seq<Tag>,
                      n: Name, tags': map<Tag, set<Name>>)
    requires Consistent(checks, tags, results) && n !in checks && AllTag !in list
    requires forall t ::
               (t in tags' <==> t in tags || t in list || t == AllTag) && NamesOf(tags', t) == Joined(tags, list, n, t)
    ensures Registers(tags, results, list, n, tags')
            && (n in NamesOf(tags', ApplicationTag) <==> ApplicationTag in list)
    ensures Consistent(checks[n := Check(ApplicationTag in list, list)], tags', results[n := NotYetRun])
  {
    assert n !in NamesOf(tags, ApplicationTag);
    if AllTag !in tags { assert results == map[]; }
    var checks' := checks[n := Check(ApplicationTag in list, list)];
    assert results[n := NotYetRun].Keys == checks'.Keys;
    forall t, m | t in tags' && m in tags'[t] ensures m in checks' { assert m in NamesOf(tags', t); }
    forall t | t in tags' ensures tags'[t] != {} { assert tags'[t] == Joined(tags, list, n, t); }
    forall m, t | m in checks' ensures m in NamesOf(tags', t) <==> t == AllTag || t in checks'[m].tags {
      if m == n {
        assert n !in NamesOf(tags, t);
      } else {
        assert m in NamesOf(tags, t) <==> t == AllTag || t in checks[m].tags;
      }
    }
  }

  lemma ApplicationRegistered(tags: map<Tag, set<Name>>, results: map<Name, Result>, gauges: map<Tag, int>,
                              list: seq<Tag>, n: Name, tags': map<Tag, set<Name>>, gauges': map<Tag, int>,
                                numFailing: int)
    requires Registers(tags, results, list, n, tags') && IsExact(tags, results, gauges) && ApplicationTag in list
    requires numFailing == |Failing(tags, results, ApplicationTag)|
    requires forall t :: Gauge(gauges', t) == Gauge(gauges, t) + if t in tags' then 1 else 0
    ensures IsExact(tags', results[n := NotYetRun], gauges') <==> KeepsCount(tags, numFailing, list)
  {
    forall t ensures t in tags'
             ==> (Gauge(gauges', t) == |Failing(tags', results[n := NotYetRun], t)| <==> t in tags || numFailing == 0) {
      ApplicationGauge(tags, results, gauges, list, n, tags', gauges', numFailing, t);
    }
    NoneFailing(tags, results);
    ApplicationExact(tags, list, tags', results[n := NotYetRun], gauges', numFailing);
  }

  lemma ApplicationExact(tags: map<Tag, set<Name>>, list: seq<Tag>, tags': map<Tag, set<Name>>,
                         results': map<Name, Result>, gauges': map<Tag, int>,
                         numFailing: int)
    requires forall t :: t in tags' <==> t in tags || t in list || t == AllTag
    requires AllTag in tags || numFailing == 0
    requires forall t :: t in tags'
               ==> (Gauge(gauges', t) == |Failing(tags', results', t)| <==> t in tags || numFailing == 0)
    requires forall t :: t !in tags' ==> Gauge(gauges', t) == 0
    ensures IsExact(tags', results', gauges') <==> numFailing == 0 || forall i :: 0 <= i < |list| ==> list[i] in tags
  {
    if IsExact(tags', results', gauges') && numFailing != 0 {
      forall i | 0 <= i < |list| ensures list[i] in tags { assert list[i] in tags'; }
    }
  }

  lemma ApplicationGauge(tags: map<Tag, set<Name>>, results: map<Name, Result>, gauges: map<Tag, int>,
                         list: seq<Tag>, n: Name, tags': map<Tag, set<Name>>, gauges': map<Tag, int>, numFailing: int,
                           t: Tag)
    requires Registers(tags, results, list, n, tags') && IsExact(tags, results, gauges) && ApplicationTag in list
    requires numFailing == |Failing(tags, results, ApplicationTag)|
    requires Gauge(gauges', t) == Gauge(gauges, t) + if t in tags' then 1 else 0
    ensures t in tags' ==> (Gauge(gauges', t) == |Failing(tags', results[n := NotYetRun], t)|
                            <==> t in tags || numFailing == 0)
  {
    Before(tags, results, gauges, numFailing, t);
    FailingRegistered(tags, results, list, n, tags', t);
  }

  lemma NoneFailing(tags: map<Tag, set<Name>>, results: map<Name, Result>)
    ensures results == map[] ==> Failing(tags, results, ApplicationTag) == {}
  {
  }

  lemma Before(tags: map<Tag, set<Name>>, results: map<Name, Result>, gauges: map<Tag, int>, numFailing: int, t: Tag)
    requires IsExact(tags, results, gauges) && numFailing == |Failing(tags, results, ApplicationTag)|
    ensures |Failing(tags, results, t)| == if t in tags then Gauge(gauges, t) else numFailing
    ensures t !in tags ==> Gauge(gauges, t) == 0
  {
    if t !in tags { FailingUnregistered(tags, results, t); }
  }

  lemma OtherRegistered(tags: map<Tag, set<Name>>, results: map<Name, Result>, gauges: map<Tag, int>,
                        list: seq<Tag>, n: Name, tags': map<Tag, set<Name>>, gauges': map<Tag, int>, numFailing: int)
    requires Registers(tags, results, list, n, tags') && IsExact(tags, results, gauges) && ApplicationTag !in list
    requires numFailing == |Failing(tags, results, ApplicationTag)|
    requires forall t :: Gauge(gauges', t) == Gauge(gauges, t) + (if t == AllTag then 1 else 0)
               + Times(CountOf(list, |list|, t), Unit(tags', t, 1, numFailing))
    ensures IsExact(tags', results[n := NotYetRun], gauges') <==> KeepsCount(tags, numFailing, list)
  {
    forall t ensures t in tags'
             ==> (Gauge(gauges', t) == |Failing(tags', results[n := NotYetRun], t)| <==> CountOf(list, |list|, t) <= 1)
             ensures t !in tags' ==> Gauge(gauges', t) == 0
    {
      OtherGauge(tags, results, gauges, list, n, tags', gauges', numFailing, t, CountOf(list, |list|, t),
                 |Failing(tags', results[n := NotYetRun], t)|);
    }
    OnceEach(list);
    if Repeats(list) {
      var i, j :| 0 <= i < j < |list| && list[i] == list[j];
      assert CountOf(list, |list|, list[i]) > 1 && list[i] in tags';
    }
  }

  lemma OnceEach(list: seq<Tag>)
    ensures Repeats(list) ==>
              forall i, j :: 0 <= i < j < |list| && list[i] == list[j] ==> CountOf(list, |list|, list[i]) > 1
    ensures !Repeats(list) ==> forall t :: CountOf(list, |list|, t) <= 1
  {
    forall t ensures CountOf(list, |list|, t) <= 1
             <==> !exists i, j :: 0 <= i < j < |list| && list[i] == t == list[j] { CountOnce(list, |list|, t); }
    forall i, j | 0 <= i < j < |list| && list[i] == list[j] ensures CountOf(list, |list|, list[i]) > 1 {
      assert list[i] == list[i] == list[j];
    }
  }

  lemma OtherGauge(tags: map<Tag, set<Name>>, results: map<Name, Result>, gauges: map<Tag, int>,
                   list: seq<Tag>, n: Name, tags': map<Tag, set<Name>>, gauges': map<Tag, int>, numFailing: int, t: Tag,
                   count: nat, failing: nat)
    requires Registers(tags, results, list, n, tags') && IsExact(tags, results, gauges) && ApplicationTag !in list
    requires numFailing == |Failing(tags, results, ApplicationTag)|
    requires count == CountOf(list, |list|, t) && failing == |Failing(tags', results[n := NotYetRun], t)|
    requires Gauge(gauges', t)
               == Gauge(gauges, t) + (if t == AllTag then 1 else 0) + Times(count, Unit(tags', t, 1, numFailing))
    ensures t in tags' ==> (Gauge(gauges', t) == failing <==> count <= 1)
    ensures t !in tags' ==> Gauge(gauges', t) == 0
  {
    Before(tags, results, gauges, numFailing, t);
    FailingRegistered(tags, results, list, n, tags', t);
    NoneFailing(tags, results);
    CountPositive(list, |list|, t);
    if t in list { FirstOfTag(tags, n, t); }
    Counted(t in tags, t in list, t == AllTag, Gauge(gauges, t), Gauge(gauges', t), |Failing(tags, results, t)|,
            failing, numFailing, count,
            Unit(tags', t, 1, numFailing));
  }

  lemma FirstOfTag(tags: map<Tag, set<Name>>, n: Name, t: Tag)
    requires t in tags ==> tags[t] != {} && n !in tags[t]
    ensures |NamesOf(tags, t) + {n}| == 1 <==> t !in tags
  {
    AddOne(NamesOf(tags, t), n);
  }

  lemma Counted(registered: bool, listed: bool, all: bool, g: int, g': int, f: int, f': int, numFailing: nat,
                count: nat, unit: nat)
    requires !(listed && all) && (count > 0 <==> listed) && (all && !registered ==> numFailing == 0)
    requires if registered then f == g else g == 0 && f == numFailing
    requires f' == f + if listed || all then 1 else 0
    requires listed ==> unit == 1 + if registered then 0 else numFailing
    requires g' == g + (if all then 1 else 0) + Times(count, unit)
    ensures registered || listed || all ==> (g' == f' <==> count <= 1)
    ensures !registered && !listed && !all ==> g' == 0
  {
    if listed { Multiples(count, unit); } else { Scaled(count, unit); }
  }

  lemma Scaled(count: nat, d: int)
    ensures count == 0 ==> Times(count, d) == 0
    ensures count == 1 ==> Times(count, d) == d
  {
  }

  lemma {:induction false} TimesPositive(count: nat, unit: nat)
    requires count > 0 && unit > 0
    ensures Times(count, unit) > 0
  {
    if count > 1 { TimesPositive(count - 1, unit); }
  }

  lemma {:induction false} TimesZero(count: nat)
    ensures Times(count, 0) == 0
  {
    if count > 0 { TimesZero(count - 1); }
  }

  lemma Multiples(count: nat, unit: nat)
    requires count > 0 && unit > 0
    ensures Times(count, unit) == unit <==> count == 1
  {
    if count > 1 { TimesPositive(count - 1, unit); }
  }

  datatype Metrics = Metrics(gauges: map<Tag, int>, numFailing: int)

  /** What updateMetrics does: an application check counts for every registered tag, any other check for
      each of its tags as often as it lists it, and for the tag of all. A tag that is new with this
      check also gets the failing application checks. */
  ghost predicate IsUpdate(tags: map<Tag, set<Name>>, m: Metrics, m': Metrics, c: Check, healthy: bool,
                           register: bool) {
    var d := if healthy then -1 else 1;
    if c.isApplicationCheck then
      && m'.numFailing == m.numFailing + d
      && forall t :: Gauge(m'.gauges, t) == Gauge(m.gauges, t) + if t in tags then d else 0
    else
      && m'.numFailing == m.numFailing
      && var extra := if register && !healthy then m.numFailing else 0;
         forall t :: Gauge(m'.gauges, t) == Gauge(m.gauges, t) + (if t == AllTag then d else 0)
                     + Times(CountOf(c.tags, |c.tags|, t), Unit(tags, t, d, extra))
  }

  /** A registration as a whole. */
  lemma Registration(tags: map<Tag, set<Name>>, results: map<Name, Result>, m: Metrics, list: seq<Tag>, n: Name,
                     tags': map<Tag, set<Name>>, m': Metrics)
    requires Registers(tags, results, list, n, tags') && IsExact(tags, results, m.gauges)
             && m.numFailing == |Failing(tags, results, ApplicationTag)|
    requires IsUpdate(tags', m, m', Check(ApplicationTag in list, list), false, true)
    ensures IsExact(tags', results[n := NotYetRun], m'.gauges) <==> KeepsCount(tags, m.numFailing, list)
    ensures m'.numFailing == |Failing(tags', results[n := NotYetRun], ApplicationTag)|
  {
    FailingRegistered(tags, results, list, n, tags', ApplicationTag);
    if ApplicationTag in list {
      ApplicationRegistered(tags, results, m.gauges, list, n, tags', m'.gauges, m.numFailing);
    } else {
      OtherRegistered(tags, results, m.gauges, list, n, tags', m'.gauges, m.numFailing);
    }
  }

  // ---------- contiguous failures ----------

  datatype Outcome = Outcome(failed: bool, end: int)

  /** The result of a run, given the one before it. */
  function Next(prev: Result, o: Outcome): Result {
    if o.failed then Result(true, prev.contiguousFailures + 1, if prev.contiguousFailures > 0 then prev.firstFailure
                            else Some(o.end))
    else Result(false, 0, None)
  }

  function ResultOf(outcomes: seq<Outcome>, k: nat): Result
    requires k <= |outcomes|
  {
    if k == 0 then NotYetRun else Next(ResultOf(outcomes, k - 1), outcomes[k - 1])
  }

  /** A result tells how many of the last runs failed, and when the first of these ended. */
  lemma {:induction false} ContiguousFailures(outcomes: seq<Outcome>, k: nat)
    requires k <= |outcomes|
    ensures var r := ResultOf(outcomes, k);
            && r.contiguousFailures <= k
            && (forall i :: k - r.contiguousFailures <= i < k ==> outcomes[i].failed)
            && (r.contiguousFailures < k ==> !outcomes[k - r.contiguousFailures - 1].failed)
            && r.firstFailure == (if r.contiguousFailures > 0 then Some(outcomes[k - r.contiguousFailures].end)
                                  else None)
            && r.failing == (k == 0 || outcomes[k - 1].failed)
  {
    if k > 0 { ContiguousFailures(outcomes, k - 1); }
  }

  // ---------- the worker ----------

  class Worker {
    var checks: map<Name, Check>
    var results: map<Name, Result>
    var numFailingApplicationChecks: int
    var tags: map<Tag, set<Name>>
    var gauges: map<Tag, int>

    ghost predicate Valid()
      reads this
    {
      && Consistent(checks, tags, results)
      && IsExact(tags, results, gauges)
      && numFailingApplicationChecks == |Failing(tags, results, ApplicationTag)|
      && (forall n :: n in checks && !checks[n].isApplicationCheck ==> !Repeats(checks[n].tags))
    }

    constructor ()
      ensures Valid() && checks == map[]
    {
      checks, results, numFailingApplicationChecks, tags := map[], map[], 0, map[];
      gauges := map[AllTag := 0, ApplicationTag := 0];
    }

    // ---------- gauges ----------

    /** Adds to the gauge of every registered tag. */
    method AddToAll(d: int)
      modifies this`gauges
      ensures forall t :: Gauge(gauges, t) == Gauge(old(gauges), t) + if t in tags then d else 0
    {
      var left := tags.Keys;
      while left != {}
        invariant left <= tags.Keys
        invariant forall t :: Gauge(gauges, t) == Gauge(old(gauges), t) + if t in tags && t !in left then d else 0
        decreases left
      {
        var t :| t in left;
        gauges := gauges[t := Gauge(gauges, t) + d];
        left := left - {t};
      }
    }

    /** Adds to the gauge of each listed tag, as often as it is listed; a tag with a single check gets
        `extra` on top. */
    method AddToListed(list: seq<Tag>, d: int, extra: int)
      modifies this`gauges
      ensures forall t :: Gauge(gauges, t)
                == Gauge(old(gauges), t) + Times(CountOf(list, |list|, t), Unit(tags, t, d, extra))
    {
      for k := 0 to |list|
        invariant forall t :: Gauge(gauges, t)
                    == Gauge(old(gauges), t) + Times(CountOf(list, k, t), Unit(tags, t, d, extra))
      {
        var t := list[k];
        gauges := gauges[t := Gauge(gauges, t) + d + if |NamesOf(tags, t)| == 1 then extra else 0];
      }
    }

    method UpdateMetrics(c: Check, healthy: bool, register: bool)
      modifies this`gauges, this`numFailingApplicationChecks
      ensures IsUpdate(tags, Metrics(old(gauges), old(numFailingApplicationChecks)),
                       Metrics(gauges, numFailingApplicationChecks), c, healthy, register)
    {
      var d := if healthy then -1 else 1;
      if c.isApplicationCheck {
        AddToAll(d);
        numFailingApplicationChecks := numFailingApplicationChecks + d;
      } else {
        AddToListed(c.tags, d, if register && !healthy then numFailingApplicationChecks else 0);
        gauges := gauges[AllTag := Gauge(gauges, AllTag) + d];
      }
    }

    // ---------- checks ----------

    /** A new check counts as failing. Whether the gauges stay exact can be told beforehand. */
    method RegisterCheck(name: Name, list: seq<Tag>) returns (r: Option<Error>)
      requires Valid()
      modifies this
      ensures r == if AllTag in list then Some(RestrictedTag) else if name in old(checks) then Some(DuplicateCheck)
                                                                   else None
      ensures r.Some? ==> unchanged(this)
      ensures r.None? ==>
                && checks == old(checks)[name := Check(ApplicationTag in list, list)]
                && results == old(results)[name := NotYetRun]
      ensures r.None? ==> Consistent(checks, tags, results)
      ensures r.None? ==> (IsExact(tags, results, gauges)
                           <==> KeepsCount(old(tags), old(numFailingApplicationChecks), list))
      ensures r.None? && KeepsCount(old(tags), old(numFailingApplicationChecks), list) ==> Valid()
    {
      if AllTag in list { return Some(RestrictedTag); }
      if name in checks { return Some(DuplicateCheck); }
      ghost var before := Metrics(gauges, numFailingApplicationChecks);
      var c := Enroll(name, list);
      UpdateMetrics(c, false, true);
      Registration(old(tags), old(results), before, list, name, tags, Metrics(gauges, numFailingApplicationChecks));
      return None;
    }

    /** The bookkeeping of RegisterCheck. */
    method Enroll(name: Name, list: seq<Tag>) returns (c: Check)
      requires Consistent(checks, tags, results) && name !in checks && AllTag !in list
      modifies this`checks, this`tags, this`results
      ensures c == Check(ApplicationTag in list, list)
      ensures checks == old(checks)[name := c] && results == old(results)[name := NotYetRun]
      ensures Consistent(checks, tags, results) && Registers(old(tags), old(results), list, name, tags)
    {
      var next := AddTags(tags, list, name);
      NowRegistered(checks, tags, results, list, name, next);
      tags := next;
      c := Check(name in NamesOf(tags, ApplicationTag), list);
      checks := checks[name := c];
      results := results[name := NotYetRun];
    }

    static method AddTags(tags: map<Tag, set<Name>>, list: seq<Tag>, name: Name) returns (next: map<Tag, set<Name>>)
      ensures forall t :: (t in next <==> t in tags || t in list || t == AllTag)
                          && NamesOf(next, t) == Joined(tags, list, name, t)
    {
      next := tags;
      for k := 0 to |list|
        invariant next == Tagged(tags, list, k, name)
      {
        next := next[list[k] := NamesOf(next, list[k]) + {name}];
      }
      forall t { TaggedNames(tags, list, |list|, name, t); }
      next := next[AllTag := NamesOf(next, AllTag) + {name}];
    }

    /** The locked part of runCheck. */
    method RunCheck(name: Name, o: Outcome)
      requires Valid() && name in checks
      modifies this`results, this`gauges, this`numFailingApplicationChecks
      ensures Valid() && results == old(results)[name := Next(old(results)[name], o)]
    {
      var prev, c := results[name], checks[name];
      ghost var before := Metrics(gauges, numFailingApplicationChecks);
      if o.failed {
        if !prev.failing { UpdateMetrics(c, false, false); }
      } else if prev.failing {
        UpdateMetrics(c, true, false);
      }
      results := results[name := Next(prev, o)];
      RunMetrics(checks, tags, old(results), results, before, Metrics(gauges, numFailingApplicationChecks), name,
                 Next(prev, o));
    }

    /** The results of the checks with one of the tags, and of the application checks. */
    method Results(query: seq<Tag>) returns (found: map<Name, Result>, healthy: bool)
      ensures forall n :: n in found <==> n in results && IsAsked(tags, query, n)
      ensures forall n :: n in found ==> found[n] == results[n]
      ensures healthy <==> forall n :: n in found ==> !found[n].failing
    {
      var asked := (if query == [] then {AllTag} else set t | t in query) + {ApplicationTag};
      var names := NamesOfAll(tags, asked);
      AskedNames(tags, query, asked, names);
      found := map n | n in names && n in results :: results[n];
      healthy := forall n :: n in found ==> !found[n].failing;
    }
  }

  ghost predicate AreNamesOf(tags: map<Tag, set<Name>>, asked: set<Tag>, names: set<Name>) {
    forall n :: n in names <==> exists t :: t in asked && n in NamesOf(tags, t)
  }

  method NamesOfAll(tags: map<Tag, set<Name>>, asked: set<Tag>) returns (names: set<Name>)
    ensures AreNamesOf(tags, asked, names)
  {
    names := {};
    var left := asked;
    while left != {}
      invariant left <= asked && AreNamesOf(tags, asked - left, names)
      decreases left
    {
      var t :| t in left;
      assert forall u :: u in asked - (left - {t}) <==> u in asked - left || u == t;
      names := names + NamesOf(tags, t);
      left := left - {t};
    }
    assert asked - left == asked;
  }

  lemma AskedNames(tags: map<Tag, set<Name>>, query: seq<Tag>, asked: set<Tag>, names: set<Name>)
    requires asked == (if query == [] then {AllTag} else set t | t in query) + {ApplicationTag}
             && AreNamesOf(tags, asked, names)
    ensures forall n :: n in names <==> IsAsked(tags, query, n)
  {
    forall n ensures n in names <==> IsAsked(tags, query, n) {
      if t :| t in asked && n in NamesOf(tags, t) { assert t == ApplicationTag || Asked(query, t); }
      if t :| Asked(query, t) && n in NamesOf(tags, t) { assert t in asked; }
    }
  }

  /** The check has one of the tags, or is an application check. */
  ghost predicate IsAsked(tags: map<Tag, set<Name>>, query: seq<Tag>, n: Name) {
    n in NamesOf(tags, ApplicationTag) || exists t :: Asked(query, t) && n in NamesOf(tags, t)
  }

  predicate Asked(query: seq<Tag>, t: Tag) { if query == [] then t == AllTag else t in query }

  lemma RunExact(checks: map<Name, Check>, tags: map<Tag, set<Name>>, results: map<Name, Result>,
                 gauges: map<Tag, int>, gauges': map<Tag, int>,
                 n: Name, r: Result, d: int)
    requires Consistent(checks, tags, results) && IsExact(tags, results, gauges) && n in checks
    requires !checks[n].isApplicationCheck ==> !Repeats(checks[n].tags)
    requires d == (if r.failing then 1 else 0) - (if results[n].failing then 1 else 0)
    requires forall t :: Gauge(gauges', t) == Gauge(gauges, t)
               + if checks[n].isApplicationCheck then (if t in tags then d else 0)
                 else (if t == AllTag then d else 0) + Times(CountOf(checks[n].tags, |checks[n].tags|, t), d)
    ensures IsExact(tags, results[n := r], gauges') && Consistent(checks, tags, results[n := r])
    ensures |Failing(tags, results[n := r], ApplicationTag)| == |Failing(tags, results, ApplicationTag)|
              + if checks[n].isApplicationCheck then d else 0
  {
    FailingAfter(Queried(tags, ApplicationTag), results, n, r);
    assert n in NamesOf(tags, ApplicationTag) <==> checks[n].isApplicationCheck;
    forall t ensures Gauge(gauges', t) == if t in tags then |Failing(tags, results[n := r], t)| else 0 {
      RunOne(checks, tags, results, Gauge(gauges, t), Gauge(gauges', t), n, r, d, t);
    }
  }

  /** The gauge of one tag, before and after. */
  lemma RunOne(checks: map<Name, Check>, tags: map<Tag, set<Name>>, results: map<Name, Result>, gauge: int, gauge': int,
               n: Name, r: Result, d: int, t: Tag)
    requires Consistent(checks, tags, results) && n in checks
    requires !checks[n].isApplicationCheck ==> !Repeats(checks[n].tags)
    requires d == (if r.failing then 1 else 0) - (if results[n].failing then 1 else 0)
    requires gauge == if t in tags then |Failing(tags, results, t)| else 0
    requires gauge' == gauge
               + if checks[n].isApplicationCheck then (if t in tags then d else 0)
                 else (if t == AllTag then d else 0) + Times(CountOf(checks[n].tags, |checks[n].tags|, t), d)
    ensures gauge' == if t in tags then |Failing(tags, results[n := r], t)| else 0
  {
    RunGauge(checks, tags, results, n, t);
    Scaled(CountOf(checks[n].tags, |checks[n].tags|, t), d);
    FailingAfter(Queried(tags, t), results, n, r);
  }

  lemma RunMetrics(checks: map<Name, Check>, tags: map<Tag, set<Name>>, results: map<Name, Result>,
                   results': map<Name, Result>, m: Metrics, m': Metrics, n: Name, r: Result)
    requires Consistent(checks, tags, results) && IsExact(tags, results, m.gauges) && n in checks
    requires results' == results[n := r]
    requires !checks[n].isApplicationCheck ==> !Repeats(checks[n].tags)
    requires if r.failing == results[n].failing then m' == m else IsUpdate(tags, m, m', checks[n], !r.failing, false)
    requires m.numFailing == |Failing(tags, results, ApplicationTag)|
    ensures IsExact(tags, results', m'.gauges) && Consistent(checks, tags, results')
    ensures m'.numFailing == |Failing(tags, results', ApplicationTag)|
  {
    var d := (if r.failing then 1 else 0) - (if results[n].failing then 1 else 0);
    var list := checks[n].tags;
    forall t ensures r.failing == results[n].failing
             ==> Times(CountOf(list, |list|, t), d) == 0 { TimesZero(CountOf(list, |list|, t)); }
    RunExact(checks, tags, results, m.gauges, m'.gauges, n, r, d);
  }

  /** A check that is not an application check counts once for each of its tags. */
  lemma RunGauge(checks: map<Name, Check>, tags: map<Tag, set<Name>>, results: map<Name, Result>, n: Name, t: Tag)
    requires Consistent(checks, tags, results) && n in checks
    requires !checks[n].isApplicationCheck ==> !Repeats(checks[n].tags)
    ensures checks[n].isApplicationCheck ==> n in Queried(tags, t)
    ensures !checks[n].isApplicationCheck ==>
              (if t == AllTag then 1 else 0) + CountOf(checks[n].tags, |checks[n].tags|, t)
                == if t in tags && n in Queried(tags, t) then 1 else 0
  {
    var list := checks[n].tags;
    assert n in NamesOf(tags, ApplicationTag) <==> checks[n].isApplicationCheck;
    assert n in NamesOf(tags, t) <==> t == AllTag || t in list;
    CountPositive(list, |list|, t);
    if !checks[n].isApplicationCheck { OnceEach(list); }
  }

  /** While the gauges are exact, the gauge of a registered tag is the number of failing results that the query for
      that tag returns, and zero exactly if the query is healthy. */
  method GaugeTellsHealth(w: Worker, t: Tag) returns (found: map<Name, Result>, healthy: bool)
    requires IsExact(w.tags, w.results, w.gauges)
    ensures t in w.tags ==> Gauge(w.gauges, t) == |set n | n in found && found[n].failing|
    ensures t in w.tags ==> (healthy <==> Gauge(w.gauges, t) == 0)
    ensures t !in w.tags ==> Gauge(w.gauges, t) == 0
  {
    found, healthy := w.Results([t]);
    FoundFailing(w.tags, w.results, t, found);
  }

  lemma FoundFailing(tags: map<Tag, set<Name>>, results: map<Name, Result>, t: Tag, found: map<Name, Result>)
    requires forall n :: n in found <==> n in results && IsAsked(tags, [t], n)
    requires forall n :: n in found ==> found[n] == results[n]
    ensures Failing(tags, results, t) == set n | n in found && found[n].failing
    ensures Failing(tags, results, t) == {} <==> forall n :: n in found ==> !found[n].failing
  {
    forall n ensures IsAsked(tags, [t], n) <==> n in Queried(tags, t) { assert Asked([t], t); }
    var failing := Failing(tags, results, t);
    forall n ensures n in failing <==> n in found && found[n].failing {}
    assert failing == set n | n in found && found[n].failing;
  }

  lemma TagHasCheck(checks: map<Name, Check>, tags: map<Tag, set<Name>>, results: map<Name, Result>, t: Tag)
    returns (n: Name)
    requires Consistent(checks, tags, results) && t in tags
    ensures n in checks && (t == AllTag || t in checks[n].tags)
  {
    n :| n in tags[t];
    assert n in NamesOf(tags, t);
  }

  /** An application check with a tag that is new, registered while another one fails, is counted for
      that tag without the other. */
  method NewTagOfApplicationCheck() returns (w: Worker)
    ensures fresh(w) && !IsExact(w.tags, w.results, w.gauges)
  {
    w := FailingApplicationCheck();
    var list := [ApplicationTag, Named(0)];
    assert list[1] !in w.tags && list[0] == ApplicationTag;
    var r := w.RegisterCheck(2, list);
  }

  method FailingApplicationCheck() returns (w: Worker)
    ensures fresh(w) && w.Valid() && w.checks.Keys == {1} && w.numFailingApplicationChecks != 0 && Named(0) !in w.tags
  {
    w := new Worker();
    var list := [ApplicationTag];
    assert list[0] == ApplicationTag;
    var r := w.RegisterCheck(1, list);
    OnlyApplicationCheck(w.checks, w.tags, w.results);
  }

  lemma OnlyApplicationCheck(checks: map<Name, Check>, tags: map<Tag, set<Name>>, results: map<Name, Result>)
    requires Consistent(checks, tags, results) && checks == map[1 := Check(true, [ApplicationTag])]
             && results == map[1 := NotYetRun]
    ensures Failing(tags, results, ApplicationTag) != {} && Named(0) !in tags
  {
    assert checks[1].tags[0] == ApplicationTag;
    assert 1 in NamesOf(tags, ApplicationTag) && 1 in Failing(tags, results, ApplicationTag);
    if Named(0) in tags { var n := TagHasCheck(checks, tags, results, Named(0)); }
  }

  // ---------- runs ----------

  /** What happens to a worker: a check is registered, or one that is registered has run. */
  datatype Event = Register(name: Name, tags: seq<Tag>) | Ran(name: Name, outcome: Outcome)

  /** Application checks have no other tag, and no other check lists a tag twice. */
  predicate IsPlain(list: seq<Tag>) {
    if ApplicationTag in list then forall i :: 0 <= i < |list| ==> list[i] == ApplicationTag else !Repeats(list)
  }

  lemma PlainKeepsCount(tags: map<Tag, set<Name>>, results: map<Name, Result>, numFailing: int, list: seq<Tag>)
    requires IsPlain(list) && numFailing == |Failing(tags, results, ApplicationTag)|
    ensures KeepsCount(tags, numFailing, list)
  {
    if ApplicationTag !in tags {
      assert Queried(tags, ApplicationTag) == {};
    }
  }

  /** Whatever is registered and run in whatever order, every gauge counts exactly the failing checks of its
      tag, and every result is that of the runs of its check. */
  method Play(events: seq<Event>) returns (w: Worker)
    requires forall k :: 0 <= k < |events| && events[k].Register? ==> IsPlain(events[k].tags)
    ensures fresh(w) && w.Valid()
    ensures w.checks.Keys == Registered(events, |events|) && AreResults(events, |events|, w.results)
  {
    w := new Worker();
    for k := 0 to |events|
      invariant fresh(w) && w.Valid()
      invariant AreResults(events, k, w.results)
    {
      ghost var before := w.results;
      Step(w, events[k]);
      ResultsAfter(events, k, before, w.results);
    }
  }

  /** How a check has run since it was registered. */
  ghost function OutcomesOf(events: seq<Event>, k: nat, n: Name): seq<Outcome>
    requires k <= |events|
  {
    if k == 0 then []
    else
      var e, before := events[k - 1], OutcomesOf(events, k - 1, n);
      if e.Ran? && e.name == n && n in Registered(events, k - 1) then before + [e.outcome] else before
  }

  ghost predicate AreResults(events: seq<Event>, k: nat, results: map<Name, Result>)
    requires k <= |events|
  {
    results.Keys == Registered(events, k) && forall n :: n in results ==> IsResult(events, k, n, results[n])
  }

  ghost predicate IsResult(events: seq<Event>, k: nat, n: Name, r: Result)
    requires k <= |events|
  {
    var outcomes := OutcomesOf(events, k, n); r == ResultOf(outcomes, |outcomes|)
  }

  /** One event on the results. */
  function ResultsWith(results: map<Name, Result>, e: Event): map<Name, Result> {
    match e
    case Register(n, list) => if AllTag in list || n in results then results else results[n := NotYetRun]
    case Ran(n, o) => if n in results then results[n := Next(results[n], o)] else results
  }

  lemma {:induction false} NotRunBefore(events: seq<Event>, k: nat, n: Name)
    requires k <= |events| && n !in Registered(events, k)
    ensures OutcomesOf(events, k, n) == []
  {
    if k > 0 { NotRunBefore(events, k - 1, n); }
  }

  lemma {:induction false} SameResult(a: seq<Outcome>, b: seq<Outcome>, k: nat)
    requires k <= |a| && k <= |b| && forall i :: 0 <= i < k ==> a[i] == b[i]
    ensures ResultOf(a, k) == ResultOf(b, k)
  {
    if k > 0 { SameResult(a, b, k - 1); }
  }

  lemma ResultsAfter(events: seq<Event>, k: nat, before: map<Name, Result>, results: map<Name, Result>)
    requires k < |events| && AreResults(events, k, before) && results == ResultsWith(before, events[k])
    ensures AreResults(events, k + 1, results)
  {
    forall n | n in results ensures IsResult(events, k + 1, n, results[n]) {
      if n in before {
        ResultAfter(events, k, n, before[n]);
      } else {
        NotRunBefore(events, k, n);
      }
    }
  }

  lemma ResultAfter(events: seq<Event>, k: nat, n: Name, r: Result)
    requires k < |events| && IsResult(events, k, n, r) && n in Registered(events, k)
    ensures IsResult(events, k + 1, n, if events[k].Ran? && events[k].name == n then Next(r, events[k].outcome) else r)
  {
    NextResult(OutcomesOf(events, k, n), r, OutcomesOf(events, k + 1, n), events[k], n);
  }

  lemma NextResult(outcomes: seq<Outcome>, r: Result, all: seq<Outcome>, e: Event, n: Name)
    requires r == ResultOf(outcomes, |outcomes|)
    requires all == if e.Ran? && e.name == n then outcomes + [e.outcome] else outcomes
    ensures ResultOf(all, |all|) == if e.Ran? && e.name == n then Next(r, e.outcome) else r
  {
    SameResult(outcomes, all, |outcomes|);
  }

  /** The checks registered by the first `k` events; one that lists the tag of all checks is refused. */
  ghost function Registered(events: seq<Event>, k: nat): set<Name>
    requires k <= |events|
  {
    if k == 0 then {} else Joins(events[k - 1], Registered(events, k - 1))
  }

  function Joins(e: Event, names: set<Name>): set<Name> {
    if e.Register? && AllTag !in e.tags then names + {e.name} else names
  }

  method RegisterPlain(w: Worker, name: Name, list: seq<Tag>)
    requires w.Valid() && IsPlain(list)
    modifies w
    ensures w.Valid()
    ensures w.results == if AllTag in list || name in old(w.checks) then old(w.results)
                         else old(w.results)[name := NotYetRun]
  {
    PlainKeepsCount(w.tags, w.results, w.numFailingApplicationChecks, list);
    var r := w.RegisterCheck(name, list);
  }

  method Step(w: Worker, e: Event)
    requires w.Valid() && (e.Register? ==> IsPlain(e.tags))
    modifies w
    ensures w.Valid() && w.results == ResultsWith(old(w.results), e)
  {
    assert w.results.Keys == w.checks.Keys;
    match e
    case Register(name, list) =>
      RegisterPlain(w, name, list);
    case Ran(name, outcome) =>
      if name in w.checks { w.RunCheck(name, outcome); }
  }
}
