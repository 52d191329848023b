/** One direction of the shared memory of two chains (chains/atomic/state.go): elements by key,
    markers for keys that were removed before they were put, and for every trait the list of the
    keys whose elements carry it. */
module AtomicState {
  import opened ByteStrings

  datatype Element = Element(key: Bytes, value: Bytes, traits: seq<Bytes>)

  /** dbElement; a marker is an element that is not present. */
  datatype DbElement = Present(value: Bytes, traits: seq<Bytes>) | Marker

  datatype Error = NotFound | DuplicatePut | DuplicateRemove

  datatype Result<+T> = Ok(value: T) | Err(error: Error)

  // ---------- lists of keys (database/linkeddb): head first, without repetition ----------

  function ListPut(l: seq<Bytes>, key: Bytes): seq<Bytes> {
    if key in l then l else [key] + l
  }

  function ListDelete(l: seq<Bytes>, key: Bytes): (r: seq<Bytes>)
    ensures forall k :: k in r <==> k in l && k != key
  {
    if l == [] then []
    else if l[0] == key then ListDelete(l[1..], key)
    else [l[0]] + ListDelete(l[1..], key)
  }

  lemma {:induction false} ListDeleteKeepsDistinct(l: seq<Bytes>, key: Bytes)
    requires NoDuplicates(l)
    ensures NoDuplicates(ListDelete(l, key))
  {
    if l != [] {
      ListDeleteKeepsDistinct(l[1..], key);
      var r := ListDelete(l[1..], key);
      assert l[0] !in l[1..];
      if l[0] != key {
        var all := [l[0]] + r;
        forall i, j | 0 <= i < j < |all| ensures all[i] != all[j] {
          assert all[j] == r[j - 1] && r[j - 1] in r;
        }
      }
    }
  }

  type Index = map<Bytes, seq<Bytes>>

  function KeysOf(index: Index, t: Bytes): seq<Bytes> {
    if t in index then index[t] else []
  }

  /** The index with `key` added under each of the traits, or deleted from each of them; an empty
      list leaves nothing in the database. */
  function AddToIndex(index: Index, traits: seq<Bytes>, key: Bytes): Index {
    map t | t in index.Keys + (set x | x in traits) :: if t in traits then ListPut(KeysOf(index, t), key) else index[t]
  }

  function DeleteFromIndex(index: Index, traits: seq<Bytes>, key: Bytes): Index {
    map t | t in index && (t !in traits || ListDelete(index[t], key) != []) ::
      if t in traits then ListDelete(index[t], key) else index[t]
  }

  // ---------- the operations as functions ----------

  datatype Store = Store(values: map<Bytes, DbElement>, index: Index)

  const Empty := Store(map[], map[])

  function SetValue(s: Store, e: Element): Result<Store> {
    if e.key in s.values then
      if s.values[e.key].Marker? then Ok(s.(values := s.values - {e.key})) else Err(DuplicatePut)
    else Ok(Store(s.values[e.key := Present(e.value, e.traits)], AddToIndex(s.index, e.traits, e.key)))
  }

  function RemoveValue(s: Store, key: Bytes): Result<Store> {
    if key !in s.values then Ok(s.(values := s.values[key := Marker]))
    else if s.values[key].Marker? then Err(DuplicateRemove)
    else Ok(Store(s.values - {key}, DeleteFromIndex(s.index, s.values[key].traits, key)))
  }

  function ValueOf(s: Store, key: Bytes): Result<Element> {
    if key !in s.values || s.values[key].Marker? then Err(NotFound)
    else Ok(Element(key, s.values[key].value, s.values[key].traits))
  }

  /** A key is listed under a trait exactly when its element is present and carries that trait; it
      is listed once. */
  ghost predicate Agrees(s: Store) {
    && (forall t, k :: k in KeysOf(s.index, t) <==> k in s.values && s.values[k].Present? && t in s.values[k].traits)
    && (forall t :: t in s.index ==> NoDuplicates(s.index[t]) && s.index[t] != [])
  }

  lemma SetValueAgrees(s: Store, e: Element)
    requires Agrees(s) && SetValue(s, e).Ok?
    ensures Agrees(SetValue(s, e).value)
  {
    if e.key !in s.values {
      var r := SetValue(s, e).value;
      forall t, k
        ensures k in KeysOf(r.index, t) <==> k in r.values && r.values[k].Present? && t in r.values[k].traits
      {
        assert k in KeysOf(s.index, t) <==> k in s.values && s.values[k].Present? && t in s.values[k].traits;
      }
      forall t | t in r.index ensures NoDuplicates(r.index[t]) && r.index[t] != [] {
        assert NoDuplicates(KeysOf(s.index, t));
        assert e.key !in KeysOf(s.index, t);
      }
    }
  }

  lemma RemoveValueAgrees(s: Store, key: Bytes)
    requires Agrees(s) && RemoveValue(s, key).Ok?
    ensures Agrees(RemoveValue(s, key).value)
  {
    var r := RemoveValue(s, key).value;
    if key in s.values {
      var traits := s.values[key].traits;
      forall t, k
        ensures k in KeysOf(r.index, t) <==> k in r.values && r.values[k].Present? && t in r.values[k].traits
      {
        assert k in KeysOf(s.index, t) <==> k in s.values && s.values[k].Present? && t in s.values[k].traits;
        assert key in KeysOf(s.index, t) <==> t in traits;
      }
      forall t | t in r.index ensures NoDuplicates(r.index[t]) && r.index[t] != [] {
        ListDeleteKeepsDistinct(s.index[t], key);
      }
    } else {
      forall t, k
        ensures k in KeysOf(r.index, t) <==> k in r.values && r.values[k].Present? && t in r.values[k].traits
      {
        assert k in KeysOf(s.index, t) <==> k in s.values && s.values[k].Present? && t in s.values[k].traits;
      }
    }
  }

  // ---------- state ----------

  class State {
    var valueDB: map<Bytes, DbElement>
    var indexDB: Index

    ghost function View(): Store
      reads this
    {
      Store(valueDB, indexDB)
    }

    constructor (s: Store)
      ensures View() == s
    {
      valueDB, indexDB := s.values, s.index;
    }

    method Value(key: Bytes) returns (r: Result<Element>)
      ensures r == ValueOf(View(), key)
    {
      if key !in valueDB || valueDB[key].Marker? {
        return Err(NotFound);
      }
      return Ok(Element(key, valueDB[key].value, valueDB[key].traits));
    }

    /** A put of a key whose removal came first cancels with it. */
    method Put(e: Element) returns (r: Result<()>)
      modifies this
      ensures match SetValue(old(View()), e)
              case Ok(s) => r.Ok? && View() == s
              case Err(error) => r == Err(error) && View() == old(View())
    {
      if e.key in valueDB {
        if valueDB[e.key].Marker? {
          valueDB := valueDB - {e.key};
          return Ok(());
        }
        return Err(DuplicatePut);
      }
      ListKey(e.traits, e.key);
      valueDB := valueDB[e.key := Present(e.value, e.traits)];
      return Ok(());
    }

    /** The loop of Put: the key is listed under each of the traits. */
    method ListKey(traits: seq<Bytes>, key: Bytes)
      modifies this`indexDB
      ensures indexDB == AddToIndex(old(indexDB), traits, key)
    {
      AddNone(indexDB, traits[..0], key);
      for i := 0 to |traits|
        invariant indexDB == AddToIndex(old(indexDB), traits[..i], key)
      {
        AddOne(old(indexDB), traits[..i], traits[i], key);
        indexDB := indexDB[traits[i] := ListPut(KeysOf(indexDB, traits[i]), key)];
        assert traits[..i + 1] == traits[..i] + [traits[i]];
      }
      assert traits[..|traits|] == traits;
    }

    method Remove(key: Bytes) returns (r: Result<()>)
      modifies this
      ensures match RemoveValue(old(View()), key)
              case Ok(s) => r.Ok? && View() == s
              case Err(error) => r == Err(error) && View() == old(View())
    {
      if key !in valueDB {
        valueDB := valueDB[key := Marker];
        return Ok(());
      }
      if valueDB[key].Marker? {
        return Err(DuplicateRemove);
      }
      var traits := valueDB[key].traits;
      for i := 0 to |traits|
        invariant valueDB == old(valueDB) && indexDB == DeleteFromIndex(old(indexDB), traits[..i], key)
      {
        var l := ListDelete(KeysOf(indexDB, traits[i]), key);
        DeleteOne(old(indexDB), traits[..i], traits[i], key);
        indexDB := if l == [] then indexDB - {traits[i]} else indexDB[traits[i] := l];
        assert traits[..i + 1] == traits[..i] + [traits[i]];
      }
      assert traits[..|traits|] == traits;
      valueDB := valueDB - {key};
      return Ok(());
    }
  }

  lemma {:induction false} ListDeleteTwice(l: seq<Bytes>, key: Bytes)
    ensures ListDelete(ListDelete(l, key), key) == ListDelete(l, key)
  {
    if l != [] { ListDeleteTwice(l[1..], key); }
  }

  lemma AddNone(index: Index, traits: seq<Bytes>, key: Bytes)
    requires traits == []
    ensures AddToIndex(index, traits, key) == index
  {
    assert AddToIndex(index, traits, key).Keys == index.Keys;
  }

  lemma AddOne(index: Index, traits: seq<Bytes>, t: Bytes, key: Bytes)
    ensures var before := AddToIndex(index, traits, key);
            AddToIndex(index, traits + [t], key) == before[t := ListPut(KeysOf(before, t), key)]
  {
    var before := AddToIndex(index, traits, key);
    var a, b := AddToIndex(index, traits + [t], key), before[t := ListPut(KeysOf(before, t), key)];
    forall x ensures x in a <==> x in b { assert x in traits + [t] <==> x in traits || x == t; }
    forall x | x in a ensures a[x] == b[x] { assert x in traits + [t] <==> x in traits || x == t; }
  }

  lemma DeleteOne(index: Index, traits: seq<Bytes>, t: Bytes, key: Bytes)
    ensures var before := DeleteFromIndex(index, traits, key);
            var l := ListDelete(KeysOf(before, t), key);
            DeleteFromIndex(index, traits + [t], key) == if l == [] then before - {t} else before[t := l]
  {
    var before := DeleteFromIndex(index, traits, key);
    ListDeleteTwice(KeysOf(index, t), key);
    var l := ListDelete(KeysOf(before, t), key);
    assert l == ListDelete(KeysOf(index, t), key);
    var a, b := DeleteFromIndex(index, traits + [t], key), if l == [] then before - {t} else before[t := l];
    forall x ensures x in a <==> x in b { assert x in traits + [t] <==> x in traits || x == t; }
    forall x | x in a ensures a[x] == b[x] { assert x in traits + [t] <==> x in traits || x == t; }
  }
}
