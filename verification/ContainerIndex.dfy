/** The index of accepted containers (indexer/index.go) and its survival of crashes. */
module ContainerIndex {
  import opened Basics

  type ID = nat
  type Payload = nat

  datatype Container = Container(id: ID, bytes: Payload, timestamp: int)

  datatype Error = NumToFetchInvalid | NoneAccepted | StartAfterLast | NoContainerAtIndex | NotFound | Database

  datatype Result<+T> = Ok(value: T) | Err(error: Error)

  /** The database: the next index, the containers by index and their indices by ID. */
  datatype Db = Db(next: Option<nat>, byIndex: map<nat, Container>, byID: map<ID, nat>)

  /** Where an Accept can fail: at one of its three writes, or when they are committed. */
  datatype Failure = Never | PutContainer | PutIndex | PutNext | Commit

  const MAX_FETCHED := 1024

  // ---------- what the database stands for ----------

  ghost predicate Distinct(log: seq<Container>) {
    forall i, j :: 0 <= i < j < |log| ==> log[i].id != log[j].id
  }

  /** The database holds exactly the containers of the log: the two maps are inverse bijections on
      the indices of the log. */
  ghost predicate IsLog(db: Db, log: seq<Container>) {
    && Distinct(log)
    && db.next == (if log == [] then None else Some(|log|))
    && (forall i :: i in db.byIndex <==> 0 <= i < |log|)
    && (forall i :: 0 <= i < |log| ==> db.byIndex[i] == log[i])
    && (forall id :: id in db.byID <==> exists i :: 0 <= i < |log| && log[i].id == id)
    && (forall id :: id in db.byID ==> 0 <= db.byID[id] < |log| && log[db.byID[id]].id == id)
  }

  predicate Has(log: seq<Container>, id: ID) { exists i :: 0 <= i < |log| && log[i].id == id }

  /** A container is appended unless one with its ID was accepted before. */
  function Appended(log: seq<Container>, c: Container): seq<Container> {
    if Has(log, c.id) then log else log + [c]
  }

  /** A database has at most one log. */
  lemma LogIsUnique(db: Db, a: seq<Container>, b: seq<Container>)
    requires IsLog(db, a) && IsLog(db, b)
    ensures a == b
  {
    assert |a| == |b|;
  }

  // ---------- the index ----------

  class Index {
    var baseDB: Db
    /** What is read through the versioned database: the base with everything not yet committed. */
    var vDB: Db
    var nextAcceptedIndex: nat

    /** No write is pending, and the database is a log. */
    ghost predicate Valid(log: seq<Container>)
      reads this
    {
      vDB == baseDB && IsLog(baseDB, log) && nextAcceptedIndex == |log|
    }

    /** A new index, or one restarted after a crash: writes that were not committed are lost. */
    constructor (db: Db, ghost log: seq<Container>)
      requires IsLog(db, log)
      ensures Valid(log) && baseDB == db
    {
      baseDB, vDB := db, db;
      nextAcceptedIndex := if db.next.Some? then db.next.value else 0;
    }

    /** The container is indexed once. Where it fails, the base is as before, so that a restart finds
        the old log; without failure it holds the new one. */
    method Accept(id: ID, bytes: Payload, now: int, failure: Failure, ghost log: seq<Container>) returns (r: Result<()>)
      requires Valid(log)
      modifies this
      ensures r.Ok? <==> Has(log, id) || failure.Never?
      ensures r.Ok? ==> Valid(Appended(log, Container(id, bytes, now)))
      ensures r.Err? ==> baseDB == old(baseDB) && IsLog(baseDB, log)
      ensures Has(log, id) ==> unchanged(this)
    {
      if id in vDB.byID {
        return Ok(());
      }
      ghost var c := Container(id, bytes, now);
      if failure.PutContainer? { return Err(Database); }
      vDB := vDB.(byIndex := vDB.byIndex[nextAcceptedIndex := Container(id, bytes, now)]);
      if failure.PutIndex? { return Err(Database); }
      vDB := vDB.(byID := vDB.byID[id := nextAcceptedIndex]);
      nextAcceptedIndex := nextAcceptedIndex + 1;
      if failure.PutNext? { return Err(Database); }
      vDB := vDB.(next := Some(nextAcceptedIndex));
      if failure.Commit? { return Err(Database); }
      baseDB := vDB;
      LogGrows(old(baseDB), log, c, baseDB);
      return Ok(());
    }

    method GetContainerByIndex(index: nat, ghost log: seq<Container>) returns (r: Result<Container>)
      requires Valid(log)
      ensures r == if index < |log| then Ok(log[index]) else Err(NoContainerAtIndex)
    {
      if nextAcceptedIndex == 0 || index > nextAcceptedIndex - 1 { return Err(NoContainerAtIndex); }
      if index !in vDB.byIndex { return Err(Database); }
      return Ok(vDB.byIndex[index]);
    }

    /** The containers from `startIndex` on, at most `numToFetch`. Only where the last index wraps around
        does it return as many containers as asked for with nothing in them. */
    method GetContainerRange(startIndex: nat, numToFetch: nat, ghost log: seq<Container>)
      returns (r: Result<seq<Container>>)
      requires Valid(log) && |log| < 0x1_0000_0000_0000_0000
      ensures r == if numToFetch == 0 || numToFetch > MAX_FETCHED then Err(NumToFetchInvalid)
                   else if log == [] then Err(NoneAccepted)
                   else if startIndex >= |log| then Err(StartAfterLast)
                   else if startIndex + numToFetch > 0x1_0000_0000_0000_0000 then Ok(Zeros(numToFetch))
                   else Ok(log[startIndex..if startIndex + numToFetch < |log| then startIndex + numToFetch else |log|])
    {
      if numToFetch == 0 || numToFetch > MAX_FETCHED { return Err(NumToFetchInvalid); }
      if nextAcceptedIndex == 0 { return Err(NoneAccepted); }
      var lastAcceptedIndex := nextAcceptedIndex - 1;
      if startIndex > lastAcceptedIndex { return Err(StartAfterLast); }
      var end := (startIndex + numToFetch - 1) % 0x1_0000_0000_0000_0000;
      var lastIndex := if end < lastAcceptedIndex then end else lastAcceptedIndex;
      var length := RangeLength(startIndex, lastIndex, numToFetch);
      var containers := Fetch(startIndex, lastIndex, length, log);
      return Ok(containers);
    }

    /** Fills a slice of the given length with the containers of the range, if there is one. */
    method Fetch(startIndex: nat, lastIndex: nat, length: nat, ghost log: seq<Container>)
      returns (containers: seq<Container>)
      requires Valid(log) && startIndex <= |log|
               && (startIndex <= lastIndex ==> lastIndex < |log| && length == lastIndex + 1 - startIndex)
      ensures containers == if startIndex <= lastIndex then log[startIndex..lastIndex + 1] else Zeros(length)
    {
      containers := Zeros(length);
      var n := 0;
      while startIndex + n <= lastIndex
        invariant n <= length && (n > 0 ==> startIndex + n <= lastIndex + 1)
        invariant startIndex + n <= |log| && containers == log[startIndex..startIndex + n] + Zeros(length - n)
      {
        var c := GetContainerByIndex(startIndex + n, log);
        Filled(log, startIndex, n, length, containers);
        containers := containers[n := c.value];
        n := n + 1;
      }
    }

    method GetIndex(id: ID, ghost log: seq<Container>) returns (r: Result<nat>)
      requires Valid(log)
      ensures r.Ok? <==> Has(log, id)
      ensures r.Ok? ==> r.value < |log| && log[r.value].id == id
      ensures r.Err? ==> r.error == NotFound
    {
      if id !in vDB.byID { return Err(NotFound); }
      return Ok(vDB.byID[id]);
    }

    method GetContainerByID(id: ID, ghost log: seq<Container>) returns (r: Result<Container>)
      requires Valid(log)
      ensures r.Ok? <==> Has(log, id)
      ensures r.Ok? ==> r.value in log && r.value.id == id
      ensures r.Err? ==> r.error == NotFound
    {
      if id !in vDB.byID { return Err(NotFound); }
      var index := vDB.byID[id];
      if index !in vDB.byIndex { return Err(Database); }
      return Ok(vDB.byIndex[index]);
    }

    method GetLastAccepted(ghost log: seq<Container>) returns (r: Result<Container>)
      requires Valid(log)
      ensures r == if log == [] then Err(NoneAccepted) else Ok(log[|log| - 1])
    {
      if nextAcceptedIndex == 0 { return Err(NoneAccepted); }
      r := GetContainerByIndex(nextAcceptedIndex - 1, log);
    }
  }

  // ---------- ranges ----------

  function Zeros(n: nat): (s: seq<Container>)
    ensures |s| == n && forall i :: 0 <= i < n ==> s[i] == Container(0, 0, 0)
  {
    seq(n, _ => Container(0, 0, 0))
  }

  /** The int with the low 64 bits of a number. */
  function ToInt64(x: int): int {
    var m := x % 0x1_0000_0000_0000_0000;
    if m < 0x8000_0000_0000_0000 then m else m - 0x1_0000_0000_0000_0000
  }

  /** The length of a range comes out right on int, for indices beyond its values too. */
  method RangeLength(start: nat, last: nat, ghost num: nat) returns (length: nat)
    requires start < 0x1_0000_0000_0000_0000 && 1 <= num <= MAX_FETCHED
    requires if start + num <= 0x1_0000_0000_0000_0000 then start <= last < start + num
             else last == start + num - 1 - 0x1_0000_0000_0000_0000
    ensures length == if start <= last then last - start + 1 else num
  {
    length := ToInt64(ToInt64(last) - ToInt64(start) + 1);
  }

  lemma Filled(log: seq<Container>, start: nat, n: nat, length: nat, containers: seq<Container>)
    requires start + n < |log| && n < length && containers == log[start..start + n] + Zeros(length - n)
    ensures containers[n := log[start + n]] == log[start..start + n + 1] + Zeros(length - (n + 1))
  {
  }

  lemma LogGrows(db: Db, log: seq<Container>, c: Container, next: Db)
    requires IsLog(db, log) && !Has(log, c.id)
    requires next == Db(Some(|log| + 1), db.byIndex[|log| := c], db.byID[c.id := |log|])
    ensures IsLog(next, log + [c])
  {
    var all := log + [c];
    forall id ensures id in next.byID <==> exists i :: 0 <= i < |all| && all[i].id == id {
      if i :| 0 <= i < |log| && log[i].id == id { assert all[i].id == id; }
      if id == c.id { assert all[|log|].id == id; }
    }
  }

  // ---------- all runs ----------

  /** What happens to an index: an Accept that returns without error, one that does not, or a crash in
      between; after the latter two the node starts again. */
  datatype Event = Accepted(c: Container) | Failed(c: Container, at: Failure) | Restarted

  function LogOf(events: seq<Event>): seq<Container> {
    if events == [] then []
    else
      var before := LogOf(events[..|events| - 1]);
      match events[|events| - 1]
      case Accepted(c) => Appended(before, c)
      case Failed(_, _) => before
      case Restarted => before
  }

  /** Plays the events on real indices; each restart sees only what was committed. */
  method Play(events: seq<Event>) returns (index: Index)
    ensures fresh(index) && index.Valid(LogOf(events))
  {
    index := new Index(Db(None, map[], map[]), []);
    for i := 0 to |events|
      invariant fresh(index) && index.Valid(LogOf(events[..i]))
    {
      assert events[..i + 1][..i] == events[..i];
      ghost var log := LogOf(events[..i]);
      match events[i] {
        case Accepted(c) =>
          var r := index.Accept(c.id, c.bytes, c.timestamp, Never, log);
        case Failed(c, at) =>
          if at.Never? {
            index := new Index(index.baseDB, log);
          } else {
            var r := index.Accept(c.id, c.bytes, c.timestamp, at, log);
            index := new Index(index.baseDB, log);
          }
        case Restarted =>
          index := new Index(index.baseDB, log);
      }
    }
    assert events[..|events|] == events;
  }

  /** The first event that accepts a container with this ID. */
  ghost predicate FirstAccepted(events: seq<Event>, k: nat, c: Container) {
    && k < |events| && events[k] == Accepted(c)
    && forall j :: 0 <= j < k && events[j].Accepted? ==> events[j].c.id != c.id
  }

  /** The places of the first acceptances. */
  function Firsts(events: seq<Event>): seq<nat> {
    if events == [] then []
    else
      var n := |events| - 1;
      var before := Firsts(events[..n]);
      if events[n].Accepted? && !Has(LogOf(events[..n]), events[n].c.id) then before + [n] else before
  }

  /** The log lists the accepted containers, each once, in the order in which they were first accepted. */
  lemma {:induction false} LogIsFirstAcceptances(events: seq<Event>)
    ensures Distinct(LogOf(events)) && |Firsts(events)| == |LogOf(events)|
    ensures forall i :: 0 <= i < |LogOf(events)| ==> FirstAccepted(events, Firsts(events)[i], LogOf(events)[i])
    ensures forall i, j :: 0 <= i < j < |LogOf(events)| ==> Firsts(events)[i] < Firsts(events)[j]
    ensures forall k :: 0 <= k < |events| && events[k].Accepted? ==> Has(LogOf(events), events[k].c.id)
  {
    if events != [] {
      var n := |events| - 1;
      var before, log := LogOf(events[..n]), LogOf(events);
      LogIsFirstAcceptances(events[..n]);
      assert forall k :: 0 <= k < n ==> events[..n][k] == events[k];
      forall i | 0 <= i < |log| ensures FirstAccepted(events, Firsts(events)[i], log[i]) {
        if i < |before| { assert FirstAccepted(events[..n], Firsts(events[..n])[i], before[i]); }
      }
      forall k | 0 <= k < |events| && events[k].Accepted? ensures Has(log, events[k].c.id) {
        if k < n {
          var i :| 0 <= i < |before| && before[i].id == events[k].c.id;
          assert log[i] == before[i];
        } else if !Has(before, events[n].c.id) {
          assert log[|before|] == events[n].c;
        }
      }
    }
  }
}
