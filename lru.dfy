/**
 * The fixed-size least-recently-used cache the constraint cache is built on
 * (`lru.Cache` of hashicorp/golang-lru v2), described by its observable
 * behaviour rather than by its linked eviction list.
 *
 * A cache is a value: `items` maps each cached key to its value, `order`
 * lists the same keys from the least to the most recently used, and `size`
 * is the capacity fixed when the cache was created.
 */
module Lru {

  import opened Common

  /** Slot numbers are the only keys the source uses. */
  type Key = uint64

  datatype Cache<V> = Cache(order: seq<Key>, items: map<Key, V>, size: nat)

  /** No key occurs twice in `s`. */
  predicate Distinct(s: seq<Key>) {
    forall i, j :: 0 <= i < j < |s| ==> s[i] != s[j]
  }

  /**
   * The cache's invariant: a positive capacity that is never exceeded, and
   * the recency list holding exactly the cached keys, each once.
   */
  predicate Valid<V>(c: Cache<V>) {
    0 < c.size && |c.order| <= c.size && Distinct(c.order) &&
    forall k :: k in c.order <==> k in c.items
  }

  /** `lru.New(size)` for a positive size: an empty cache of that capacity. */
  function New<V>(size: nat): (c: Cache<V>)
    requires 0 < size
    ensures Valid(c) && c.size == size
    ensures forall k :: k !in c.items
  {
    Cache([], map[], size)
  }

  /** `s` without the key `k`, the other keys keeping their order. */
  function Remove(s: seq<Key>, k: Key): (r: seq<Key>)
    ensures forall x :: x in r <==> x in s && x != k
    ensures Distinct(s) ==> Distinct(r)
    ensures Distinct(s) && k in s ==> |r| == |s| - 1
    ensures k !in s ==> r == s
  {
    if s == [] then []
    else
      var rest := Remove(s[1..], k);
      if s[0] == k then rest
      else
        assert s[0] !in s[1..] ==> forall j :: 0 <= j < |rest| ==> s[0] != rest[j];
        [s[0]] + rest
  }

  /** The last (most recently used) key of a non-empty recency list. */
  function Newest(s: seq<Key>): Key
    requires s != []
  {
    s[|s| - 1]
  }

  /**
   * The recency effect of `Get(k)`: a cached key becomes the most recently
   * used one; a missing key changes nothing.
   */
  function Touch<V>(c: Cache<V>, k: Key): (r: Cache<V>)
    ensures r.items == c.items && r.size == c.size
    ensures k in c.items ==> r.order != [] && Newest(r.order) == k
    ensures k !in c.items ==> r == c
  {
    if k in c.items then c.(order := Remove(c.order, k) + [k]) else c
  }

  /**
   * `Add(k, v)`: a cached key gets the new value and becomes the most
   * recently used; a new key is pushed as the most recently used and, when
   * that makes the cache hold more than `size` keys, the least recently used
   * key is evicted.
   */
  function Add<V>(c: Cache<V>, k: Key, v: V): (r: Cache<V>)
    ensures r.size == c.size
    ensures k in r.items ==> r.items[k] == v
    ensures 0 < c.size ==> r.order != [] && Newest(r.order) == k
  {
    if k in c.items then
      c.(order := Remove(c.order, k) + [k], items := c.items[k := v])
    else
      var order := c.order + [k];
      var items := c.items[k := v];
      if |order| > c.size then c.(order := order[1..], items := items - {order[0]})
      else c.(order := order, items := items)
  }

  /** Whether `Add(k, _)` evicts a key: `k` is new and the cache is full. */
  predicate Evicts<V>(c: Cache<V>, k: Key) {
    k !in c.items && |c.order| + 1 > c.size
  }

  /**
   * A write through a value the cache already holds (a Go map is a
   * reference, so mutating the map `Get` returned mutates the cached one):
   * the value changes in place and the recency order does not.
   */
  function Update<V>(c: Cache<V>, k: Key, v: V): (r: Cache<V>)
    ensures r.order == c.order && r.size == c.size
    ensures k in c.items ==> k in r.items
    ensures k in r.items ==> r.items[k] == v
    ensures k !in c.items ==> r == c
  {
    if k in c.items then c.(items := c.items[k := v]) else c
  }

  /**
   * `Values()`: the cached values from the least to the most recently used;
   * every cached key's value is listed, at that key's recency position.
   */
  function Values<V>(c: Cache<V>): (vs: seq<V>)
    requires Valid(c)
    ensures |vs| == |c.order|
    ensures forall k :: k in c.items ==>
      exists i :: 0 <= i < |vs| && c.order[i] == k && vs[i] == c.items[k]
  {
    seq(|c.order|, i requires 0 <= i < |c.order| => c.items[c.order[i]])
  }

  /**
   * `Get` keeps the invariant, the contents and the capacity, and makes a
   * cached key the newest, the other keys keeping their relative order.
   */
  lemma TouchSpec<V>(c: Cache<V>, k: Key)
    requires Valid(c)
    ensures Valid(Touch(c, k))
    ensures Touch(c, k).items == c.items && Touch(c, k).size == c.size
    ensures |Touch(c, k).order| == |c.order|
    ensures k in c.items ==> Newest(Touch(c, k).order) == k
    ensures k in c.items ==>
      exists p :: 0 <= p < |c.order| && c.order[p] == k &&
                  Touch(c, k).order == c.order[..p] + c.order[p + 1..] + [k]
  {
    TouchValid(c, k);
    TouchOrder(c, k);
  }

  /** The invariant half of `TouchSpec`. */
  lemma TouchValid<V>(c: Cache<V>, k: Key)
    requires Valid(c)
    ensures Valid(Touch(c, k))
    ensures Touch(c, k).items == c.items && Touch(c, k).size == c.size
    ensures |Touch(c, k).order| == |c.order|
    ensures k in c.items ==> Newest(Touch(c, k).order) == k
  {
    if k in c.items {
      var r := Remove(c.order, k);
      assert forall j :: 0 <= j < |r| ==> r[j] != k by {
        forall j | 0 <= j < |r| ensures r[j] != k {
          assert r[j] in r;
        }
      }
    }
  }

  /** The recency half of `TouchSpec`. */
  lemma TouchOrder<V>(c: Cache<V>, k: Key)
    requires Valid(c)
    ensures k in c.items ==>
      exists p :: 0 <= p < |c.order| && c.order[p] == k &&
                  Touch(c, k).order == c.order[..p] + c.order[p + 1..] + [k]
  {
    if k in c.items {
      var p :| 0 <= p < |c.order| && c.order[p] == k;
      RemoveAt(c.order, k, p);
    }
  }

  /**
   * `Add` keeps the invariant and the capacity, makes `k` the newest key
   * holding `v`, and changes nothing else except, when the cache was full
   * and `k` new, dropping exactly the least recently used key.
   */
  lemma AddSpec<V>(c: Cache<V>, k: Key, v: V)
    requires Valid(c)
    ensures Valid(Add(c, k, v)) && Add(c, k, v).size == c.size
    ensures Newest(Add(c, k, v).order) == k
    ensures Evicts(c, k) <==> k !in c.items && |c.order| == c.size
    ensures Evicts(c, k) ==> c.order != [] && c.order[0] != k
    ensures Add(c, k, v).items ==
      (if Evicts(c, k) then c.items - {c.order[0]} else c.items)[k := v]
    ensures k in c.items ==> Add(c, k, v).order == Touch(c, k).order
    ensures k !in c.items ==> Add(c, k, v).order == (if Evicts(c, k) then c.order[1..] else c.order) + [k]
  {
    AddValid(c, k, v);
    AddItems(c, k, v);
    AddOrder(c, k, v);
  }

  /** The recency half of `AddSpec`: the other keys keep their relative order. */
  lemma AddOrder<V>(c: Cache<V>, k: Key, v: V)
    requires Valid(c)
    ensures k in c.items ==> Add(c, k, v).order == Touch(c, k).order
    ensures k !in c.items ==> Add(c, k, v).order == (if Evicts(c, k) then c.order[1..] else c.order) + [k]
  {
    if Evicts(c, k) {
      assert c.order != [];
      assert (c.order + [k])[1..] == c.order[1..] + [k];
    }
  }

  /** The invariant half of `AddSpec`. */
  lemma AddValid<V>(c: Cache<V>, k: Key, v: V)
    requires Valid(c)
    ensures Valid(Add(c, k, v)) && Add(c, k, v).size == c.size
    ensures Newest(Add(c, k, v).order) == k
  {
    if k in c.items {
      TouchSpec(c, k);
    } else {
      var order := c.order + [k];
      DistinctPush(c.order, k);
      if |order| > c.size {
        DistinctTail(order);
      }
    }
  }

  /** The contents half of `AddSpec`. */
  lemma AddItems<V>(c: Cache<V>, k: Key, v: V)
    requires Valid(c)
    ensures Evicts(c, k) ==> c.order != [] && c.order[0] != k
    ensures Add(c, k, v).items ==
      (if Evicts(c, k) then c.items - {c.order[0]} else c.items)[k := v]
  {
    if Evicts(c, k) {
      assert c.order[0] in c.items;
      var order := c.order + [k];
      assert order[0] == c.order[0];
      assert c.items[k := v] - {c.order[0]} == (c.items - {c.order[0]})[k := v];
    }
  }

  /** Removing a key a duplicate-free list holds at position `p` cuts it out there. */
  lemma {:induction false} RemoveAt(s: seq<Key>, k: Key, p: nat)
    requires Distinct(s) && p < |s| && s[p] == k
    ensures Remove(s, k) == s[..p] + s[p + 1..]
  {
    var t := s[1..];
    assert Remove(s, k) == (if s[0] == k then Remove(t, k) else [s[0]] + Remove(t, k));
    if p == 0 {
      assert Remove(t, k) == t by {
        DistinctTail(s);
      }
    } else {
      assert s[0] != k && Distinct(t) && t[p - 1] == k by {
        DistinctTail(s);
      }
      RemoveAt(t, k, p - 1);
      assert s[..p] == [s[0]] + t[..p - 1];
      assert s[p + 1..] == t[p..];
    }
  }

  /** Appending a key the list lacks keeps it duplicate-free. */
  lemma DistinctPush(s: seq<Key>, k: Key)
    requires Distinct(s) && k !in s
    ensures Distinct(s + [k])
    ensures forall x :: x in s + [k] <==> x in s || x == k
  {
  }

  /** Dropping the first key of a duplicate-free list drops exactly that key. */
  lemma DistinctTail(s: seq<Key>)
    requires Distinct(s) && s != []
    ensures Distinct(s[1..])
    ensures forall x :: x in s[1..] <==> x in s && x != s[0]
  {
    forall x | x in s ensures x in s[1..] <==> x != s[0] {
      var j :| 0 <= j < |s| && s[j] == x;
      if j > 0 {
        assert s[1..][j - 1] == x;
      }
    }
  }

  /** Writing through a cached value keeps the invariant and the recency order. */
  lemma UpdateSpec<V>(c: Cache<V>, k: Key, v: V)
    requires Valid(c)
    ensures Valid(Update(c, k, v))
    ensures Update(c, k, v).order == c.order && Update(c, k, v).size == c.size
    ensures Update(c, k, v).items == if k in c.items then c.items[k := v] else c.items
  {
  }

  /** Writing back the value a key already holds changes nothing. */
  lemma UpdateSame<V>(c: Cache<V>, k: Key)
    requires k in c.items
    ensures Update(c, k, c.items[k]) == c
  {
    assert c.items[k := c.items[k]] == c.items;
  }

  /** A second write through the same cached value replaces the first. */
  lemma UpdateTwice<V>(c: Cache<V>, k: Key, v: V, w: V)
    ensures Update(Update(c, k, v), k, w) == Update(c, k, w)
  {
    if k in c.items {
      assert c.items[k := v][k := w] == c.items[k := w];
    }
  }

  /** Removing the last key of a list that holds it once leaves the rest as it was. */
  lemma {:induction false} RemoveNewest(s: seq<Key>)
    requires s != [] && Distinct(s)
    ensures Remove(s, Newest(s)) == s[..|s| - 1]
  {
    var k := Newest(s);
    if |s| > 1 {
      assert s[0] != k;
      assert Distinct(s[1..]) by {
        forall i, j | 0 <= i < j < |s[1..]| ensures s[1..][i] != s[1..][j] {
          assert s[1..][i] == s[i + 1] && s[1..][j] == s[j + 1];
        }
      }
      RemoveNewest(s[1..]);
      assert Newest(s[1..]) == k;
      assert s[1..][..|s| - 2] == s[1..|s| - 1];
      assert [s[0]] + s[1..|s| - 1] == s[..|s| - 1];
    }
  }

  /** A `Get` of the key that is already the most recently used changes nothing. */
  lemma TouchNewest<V>(c: Cache<V>, k: Key)
    requires Valid(c) && c.order != [] && Newest(c.order) == k
    ensures Touch(c, k) == c
  {
    var s := c.order;
    assert k in c.items by {
      assert s[|s| - 1] in s;
    }
    assert Remove(s, k) + [k] == s by {
      RemoveNewest(s);
      assert s[..|s| - 1] + [k] == s;
    }
  }

  /**
   * Eviction follows recency: when a new key is added to a full cache right
   * after `Get(k)` of a key other than the least recently used one, the key
   * evicted is that least recently used one, and every other key survives.
   */
  lemma EvictsLeastRecent<V>(c: Cache<V>, k: Key, newKey: Key, v: V)
    requires Valid(c) && k in c.items && newKey !in c.items && |c.order| == c.size
    requires c.order != [] && c.order[0] != k
    ensures c.order[0] !in Add(Touch(c, k), newKey, v).items
    ensures k in Add(Touch(c, k), newKey, v).items
    ensures forall x :: x in c.items && x != c.order[0] ==> x in Add(Touch(c, k), newKey, v).items
  {
    TouchSpec(c, k);
    var t := Touch(c, k);
    var p :| 0 <= p < |c.order| && c.order[p] == k && t.order == c.order[..p] + c.order[p + 1..] + [k];
    assert p != 0;
    assert t.order[0] == c.order[0];
    AddSpec(t, newKey, v);
    assert c.order[0] in c.items;
  }

  /**
   * The point of recency: a key read with `Get` just before a new key is
   * added survives that `Add`, even when the cache is full, as long as the
   * cache holds some other key to evict.
   */
  lemma TouchedKeySurvives<V>(c: Cache<V>, k: Key, newKey: Key, v: V)
    requires Valid(c) && k in c.items && newKey !in c.items && 2 <= |c.order|
    ensures k in Add(Touch(c, k), newKey, v).items
  {
    TouchSpec(c, k);
    var t := Touch(c, k);
    AddSpec(t, newKey, v);
    if Evicts(t, newKey) {
      var r := Remove(c.order, k);
      assert t.order == r + [k];
      assert |r| == |c.order| - 1;
      assert t.order[0] == r[0] && r[0] in r;
    }
  }
}
