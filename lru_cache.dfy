/** `DataStructures::LRUCache<Key, Value>`: a map from keys to nodes of a
    doubly linked list, most recently used at the head. The list is modelled
    by the keys along it from head to tail (`order`), the nodes' values by a
    map from key to value, and the C++ comparison `cacheMap.size() >=
    capacity` converts `capacity` to `size_t`, so a negative capacity never
    evicts. */
module LruCache {
  import opened Wrappers

  /** The state of a cache: the keys of the list from head to tail, the value
      held for each key, and the capacity. */
  datatype Cache<K(==, !new), V> = Cache(order: seq<K>, values: map<K, V>, capacity: int)

  predicate Distinct<K(==)>(s: seq<K>)
  {
    forall i, j :: 0 <= i < j < |s| ==> s[i] != s[j]
  }

  /** The list and the map hold the same keys, each once, and a positive
      capacity bounds their number. */
  ghost predicate Coherent<K(!new), V>(c: Cache<K, V>)
  {
    && Distinct(c.order)
    && (forall k :: k in c.values <==> k in c.order)
    && |c.values| == |c.order|
    && (c.capacity > 0 ==> |c.order| <= c.capacity)
  }

  /** A key in front of a list that does not hold it keeps the keys
      distinct. */
  lemma DistinctCons<K>(a: K, s: seq<K>)
    requires Distinct(s) && a !in s
    ensures Distinct([a] + s)
  {
    forall i, j | 0 <= i < j < |[a] + s| ensures ([a] + s)[i] != ([a] + s)[j] {
      assert ([a] + s)[j] == s[j - 1] && s[j - 1] in s;
      if i > 0 {
        assert ([a] + s)[i] == s[i - 1];
      }
    }
  }

  /** The list with the node of x unlinked (`removeNode`). */
  function Without<K(==, !new)>(s: seq<K>, x: K): (r: seq<K>)
    ensures forall y :: y in r <==> y in s && y != x
    ensures Distinct(s) ==> Distinct(r)
    ensures Distinct(s) && x in s ==> |r| == |s| - 1
    ensures x !in s ==> r == s
  {
    if |s| == 0 then []
    else if s[0] == x then
      assert x in s[1..] ==> !Distinct(s) by {
        if x in s[1..] {
          var k :| 0 <= k < |s[1..]| && s[1..][k] == x;
          assert s[0] == s[k + 1];
        }
      }
      Without(s[1..], x)
    else
      var rest := Without(s[1..], x);
      assert Distinct(s) ==> Distinct(rest) && s[0] !in rest by {
        if Distinct(s) {
          assert Distinct(s[1..]);
        }
      }
      if Distinct(s) then DistinctCons(s[0], rest); [s[0]] + rest else [s[0]] + rest
  }

  /** A new key finds the cache full: `put` then evicts the tail. */
  predicate Full<K(==, !new), V>(c: Cache<K, V>, key: K)
  {
    key !in c.values && c.capacity > 0 && |c.values| >= c.capacity
  }

  /** The state after `put(key, value)`. An existing node of key is removed,
      or, for a new key in a full cache, the tail node; then a node for key
      goes to the head and the map points key at it. */
  function AfterPut<K(==, !new), V>(c: Cache<K, V>, key: K, value: V): (r: Cache<K, V>)
    requires Coherent(c) && c.capacity != 0
  {
    if key in c.values then
      Cache([key] + Without(c.order, key), c.values[key := value], c.capacity)
    else if Full(c, key) then
      var victim := c.order[|c.order| - 1];
      Cache([key] + c.order[..|c.order| - 1], (c.values - {victim})[key := value], c.capacity)
    else
      Cache([key] + c.order, c.values[key := value], c.capacity)
  }

  /** What `get(key, value)` reports: false (None) for an absent key,
      otherwise true with the node's value. */
  function Lookup<K(==, !new), V>(c: Cache<K, V>, key: K): Option<V>
  {
    if key in c.values then Some(c.values[key]) else None
  }

  /** The state after `get(key, value)` with the evident intent: a present
      key moves to the head and keeps its value; an absent key changes
      nothing. */
  function AfterGet<K(==, !new), V>(c: Cache<K, V>, key: K): (r: Cache<K, V>)
  {
    if key in c.values then Cache([key] + Without(c.order, key), c.values, c.capacity) else c
  }

  /** The state after `get(key, value)` as written: `removeNode(node)` also
      erases key from the map and frees the node, and `addToHead(node)` then
      links the freed node back at the head; the map no longer knows key. */
  function AfterGetAsWritten<K(==, !new), V>(c: Cache<K, V>, key: K): (r: Cache<K, V>)
  {
    if key in c.values then Cache([key] + Without(c.order, key), c.values - {key}, c.capacity) else c
  }

  // ---------------------------------------------------------------------
  // Properties of put
  // ---------------------------------------------------------------------

  /** `put` on a present key: its node moves to the head with the new
      value; the keys and their number stay. */
  lemma PutPresent<K(!new), V>(c: Cache<K, V>, key: K, value: V)
    requires Coherent(c) && c.capacity != 0 && key in c.values
    ensures Coherent(AfterPut(c, key, value)) && |AfterPut(c, key, value).order| == |c.order|
  {
    DistinctCons(key, Without(c.order, key));
  }

  /** `put` of a new key into a full cache: the tail leaves, the new key
      enters at the head, and the number of entries stays. */
  lemma PutEvicting<K(!new), V>(c: Cache<K, V>, key: K, value: V)
    requires Coherent(c) && c.capacity != 0 && Full(c, key)
    ensures Coherent(AfterPut(c, key, value)) && |AfterPut(c, key, value).order| == |c.order|
  {
    var r := AfterPut(c, key, value);
    var n := |c.order|;
    var victim := c.order[n - 1];
    var front := c.order[..n - 1];
    assert c.order == front + [victim];
    assert victim !in front;
    var rest := c.values - {victim};
    assert rest.Keys == c.values.Keys - {victim};
    assert |rest| == |c.values| - 1 by {
      assert |rest.Keys| == |c.values.Keys| - 1;
    }
    assert Distinct(front);
    DistinctCons(key, front);
  }

  /** `put` of a new key into a cache with room: one more entry. */
  lemma PutGrowing<K(!new), V>(c: Cache<K, V>, key: K, value: V)
    requires Coherent(c) && c.capacity != 0 && key !in c.values && !Full(c, key)
    ensures Coherent(AfterPut(c, key, value)) && |AfterPut(c, key, value).order| == |c.order| + 1
  {
    DistinctCons(key, c.order);
  }

  /** `put` keeps the list and the map in step and the size within the
      capacity; a present key or a full cache keeps the size, otherwise it
      grows by one. */
  lemma PutCoherent<K(!new), V>(c: Cache<K, V>, key: K, value: V)
    requires Coherent(c) && c.capacity != 0
    ensures Coherent(AfterPut(c, key, value))
    ensures |AfterPut(c, key, value).order| == if key in c.values || Full(c, key) then |c.order| else |c.order| + 1
  {
    if key in c.values {
      PutPresent(c, key, value);
    } else if Full(c, key) {
      PutEvicting(c, key, value);
    } else {
      PutGrowing(c, key, value);
    }
  }

  /** After `put(key, value)`, key is the most recently used entry and `get`
      finds value. */
  lemma PutThenGet<K(!new), V>(c: Cache<K, V>, key: K, value: V)
    requires Coherent(c) && c.capacity != 0
    ensures AfterPut(c, key, value).order[0] == key
    ensures Lookup(AfterPut(c, key, value), key) == Some(value)
  {
  }

  /** `put` leaves every other entry as it was, except that a new key in a
      full cache evicts exactly the least recently used entry, the tail. */
  lemma PutKeepsOthers<K(!new), V>(c: Cache<K, V>, key: K, value: V, other: K)
    requires Coherent(c) && c.capacity != 0 && other != key
    ensures other in AfterPut(c, key, value).values ==> Lookup(AfterPut(c, key, value), other) == Lookup(c, other)
    ensures (other in c.values && other !in AfterPut(c, key, value).values)
            <==> (Full(c, key) && other == c.order[|c.order| - 1])
  {
    if Full(c, key) {
      assert c.order[|c.order| - 1] in c.order;
    }
  }

  /** A cache that has been filled stays full: with a positive capacity it
      never holds more entries than the capacity, and a put into a full
      cache leaves it exactly full. */
  lemma PutBounded<K(!new), V>(c: Cache<K, V>, key: K, value: V)
    requires Coherent(c) && c.capacity > 0
    ensures |AfterPut(c, key, value).values| <= c.capacity
    ensures |c.values| == c.capacity ==> |AfterPut(c, key, value).values| == c.capacity
  {
    PutCoherent(c, key, value);
  }

  // ---------------------------------------------------------------------
  // Properties of get
  // ---------------------------------------------------------------------

  /** `get` keeps the list and the map in step, the entries and their
      values, and moves a present key to the head. */
  lemma GetCoherent<K(!new), V>(c: Cache<K, V>, key: K)
    requires Coherent(c)
    ensures Coherent(AfterGet(c, key))
    ensures AfterGet(c, key).values == c.values
    ensures key in c.values ==> AfterGet(c, key).order[0] == key
  {
    if key in c.values {
      DistinctCons(key, Without(c.order, key));
    }
  }

  /** With the evident intent, a `get` does not change what later gets
      report: a second get of the same key finds the same value. */
  lemma GetTwice<K(!new), V>(c: Cache<K, V>, key: K)
    requires Coherent(c)
    ensures Lookup(AfterGet(c, key), key) == Lookup(c, key)
    ensures forall k :: Lookup(AfterGet(c, key), k) == Lookup(c, k)
  {
  }

  /** As written, `get` erases the key it finds: the first call reports the
      value, a second call on the same key reports false, and the list keeps
      a node the map no longer knows, so the state is no longer coherent. */
  lemma GetAsWrittenForgets<K(!new), V>(c: Cache<K, V>, key: K)
    requires Coherent(c) && key in c.values
    ensures Lookup(c, key) == Some(c.values[key])
    ensures Lookup(AfterGetAsWritten(c, key), key) == None
    ensures !Coherent(AfterGetAsWritten(c, key))
  {
    var r := AfterGetAsWritten(c, key);
    assert key in r.order && key !in r.values;
  }

  /** The same on a concrete run: `put(1, 10)` into an empty cache of
      capacity 2, then `get(1)` twice. As written the second get fails; with
      the evident intent it reports 10 again. */
  lemma GetAfterPutExample()
    ensures var c := AfterPut(Cache([], map[], 2), 1, 10);
      && Lookup(c, 1) == Some(10)
      && Lookup(AfterGetAsWritten(c, 1), 1) == None
      && Lookup(AfterGet(c, 1), 1) == Some(10)
  {
    var c := AfterPut(Cache([], map[], 2), 1, 10);
    assert c.values == map[1 := 10];
  }

  /** The cache object: the list as `order`, the map with the nodes' values
      as `values`. */
  class LRUCache<K(==, !new), V> {
    var order: seq<K>
    var values: map<K, V>
    var capacity: int

    function State(): Cache<K, V>
      reads this
    {
      Cache(order, values, capacity)
    }

    ghost predicate Valid()
      reads this
    {
      Coherent(State())
    }

    /** `LRUCache(cap)`: an empty list between the two sentinels. */
    constructor (cap: int)
      ensures Valid() && State() == Cache([], map[], cap)
    {
      order := [];
      values := map[];
      capacity := cap;
    }

    /** `put(key, value)`. A zero capacity makes the C++ code unlink the head
        sentinel, whose `prev` is null, so callers must not use one. */
    method Put(key: K, value: V)
      requires Valid() && capacity != 0
      modifies this
      ensures Valid() && State() == AfterPut(old(State()), key, value)
    {
      PutCoherent(State(), key, value);
      if key in values {
        order := [key] + Without(order, key);
      } else if capacity > 0 && |values| >= capacity {
        var victim := order[|order| - 1];
        values := values - {victim};
        order := [key] + order[..|order| - 1];
      } else {
        order := [key] + order;
      }
      values := values[key := value];
    }

    /** `get(key, value)` with the evident intent: None for an absent key,
        otherwise the value, and the key moves to the head. */
    method Get(key: K) returns (r: Option<V>)
      requires Valid()
      modifies this
      ensures Valid() && State() == AfterGet(old(State()), key)
      ensures r == Lookup(old(State()), key)
    {
      GetCoherent(State(), key);
      if key !in values {
        return None;
      }
      r := Some(values[key]);
      order := [key] + Without(order, key);
    }

    /** `get(key, value)` as written: the key also leaves the map. */
    method GetAsWritten(key: K) returns (r: Option<V>)
      modifies this
      ensures State() == AfterGetAsWritten(old(State()), key)
      ensures r == Lookup(old(State()), key)
    {
      if key !in values {
        return None;
      }
      r := Some(values[key]);
      order := [key] + Without(order, key);
      values := values - {key};
    }
  }
}
