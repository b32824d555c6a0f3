/** The two caches for results of bitslices (src/dynamic_cache.h, src/static_cache.h). */
module Caches {

  datatype Match<Data> = NoMatch | Matched(value: Data)

  ghost predicate Distinct<T(!new)>(s: seq<T>) {
    forall i, j :: 0 <= i < j < |s| ==> s[i] != s[j]
  }

  /** `s` without its entry `k`. */
  function Without<T(==)>(s: seq<T>, k: T): (r: seq<T>)
    ensures k !in s ==> r == s
    ensures k in s ==> |r| == |s| - 1
    ensures forall x :: x in r ==> x in s
    ensures forall x :: x in s && x != k ==> x in r
  {
    if s == [] then [] else if s[0] == k then s[1..] else [s[0]] + Without(s[1..], k)
  }

  lemma {:induction false} WithoutDistinct<T(!new)>(s: seq<T>, k: T)
    requires Distinct(s)
    ensures Distinct(Without(s, k)) && k !in Without(s, k)
  {
    if s != [] && s[0] != k {
      WithoutDistinct(s[1..], k);
      assert forall j :: 0 < j < |s| ==> s[0] != s[j];
      assert s[0] !in s[1..];
    }
  }

  lemma KeySize<K, V>(m: map<K, V>, k: K, v: V)
    requires k !in m
    ensures |m[k := v]| == |m| + 1
  {
    assert m[k := v].Keys == m.Keys + {k};
  }

  /** The list has the keys of the map, each once. */
  ghost predicate Agree<K(!new), V>(data: map<K, V>, lru: seq<K>) {
    Distinct(lru) && (forall k :: k in data <==> k in lru) && |data| == |lru|
  }

  lemma LastDropped<K(!new), V>(data: map<K, V>, lru: seq<K>)
    requires Agree(data, lru) && lru != []
    ensures Agree(data - {lru[|lru| - 1]}, lru[..|lru| - 1]) && |data - {lru[|lru| - 1]}| == |lru| - 1
  {
    var n := |lru| - 1;
    var rest, last := lru[..n], lru[n];
    assert (data - {last}).Keys == data.Keys - {last};
    assert lru == rest + [last] && last !in rest by {
      forall i | 0 <= i < n ensures rest[i] != last {
        assert lru[i] != lru[n];
      }
    }
    assert Distinct(rest) by {
      assert forall i :: 0 <= i < n ==> rest[i] == lru[i];
    }
    hide Distinct;
  }

  lemma FirstAdded<K(!new), V>(data: map<K, V>, lru: seq<K>, k: K, v: V)
    requires Agree(data, lru) && k !in data
    ensures Agree(data[k := v], [k] + lru)
  {
    KeySize(data, k, v);
  }

  lemma MovedFirst<K(!new), V>(data: map<K, V>, lru: seq<K>, k: K)
    requires Agree(data, lru) && k in data
    ensures Agree(data, [k] + Without(lru, k)) && |[k] + Without(lru, k)| == |lru|
  {
    WithoutDistinct(lru, k);
  }

  /** A map bounded by `capacity`, with its keys in the order of their last use. */
  class DynamicCache<Key(==,!new), Data> {
    var data: map<Key, Data>
    var lru: seq<Key>
    const capacity: nat

    /** List and map agree, and the size is at most the capacity. */
    ghost predicate Valid()
      reads this
    {
      capacity > 0 && Agree(data, lru) && |data| == |lru| <= capacity
    }

    constructor (capacity: nat)
      requires capacity > 0
      ensures Valid() && data == map[] && lru == [] && this.capacity == capacity
    {
      data, lru := map[], [];
      this.capacity := capacity;
    }

    /** Drops the key that was not used for longest. */
    method Evict()
      requires Valid() && lru != []
      modifies this
      ensures Valid()
      ensures lru == old(lru)[..|old(lru)| - 1] && data == old(data) - {old(lru)[|old(lru)| - 1]}
    {
      hide Agree;
      LastDropped(data, lru);
      var last := lru[|lru| - 1];
      data := data - {last};
      lru := lru[..|lru| - 1];
    }

    /** A key that is present keeps its value and its place; at capacity a key is dropped first in any case. */
    method Insert(key: Key, value: Data)
      requires Valid()
      modifies this
      ensures Valid() && key in data
      ensures var full := |old(data)| == capacity;
              var last := |old(lru)| - 1;
              var d := if full then old(data) - {old(lru)[last]} else old(data);
              var l := if full then old(lru)[..last] else old(lru);
              data == (if key in d then d else d[key := value]) && lru == (if key in d then l else [key] + l)
    {
      hide Agree;
      if |data| == capacity {
        FullNotEmpty();
        Evict();
      }
      ghost var kept := lru;
      lru := [key] + lru;
      if key in data {
        lru := lru[1..];
        assert lru == kept;
      } else {
        FirstAdded(data, kept, key, value);
        KeySize(data, key, value);
        data := data[key := value];
      }
    }

    lemma FullNotEmpty()
      requires Valid() && |data| == capacity
      ensures lru != []
    {
    }

    /** A key that is found becomes the most recently used one. */
    method Find(key: Key) returns (match_: Match<Data>)
      requires Valid()
      modifies this
      ensures Valid() && data == old(data)
      ensures match_ == if key in data then Matched(data[key]) else NoMatch
      ensures lru == if key in data then [key] + Without(old(lru), key) else old(lru)
    {
      match_ := NoMatch;
      if key in data {
        match_ := Matched(data[key]);
        MovedFirst(data, lru, key);
        lru := [key] + Without(lru, key);
      }
    }
  }

  /** A table with an entry for every key. */
  class StaticCache<Data> {
    var data: seq<Data>
    var isInitialized: bool

    constructor ()
      ensures data == [] && !isInitialized
    {
      data, isInitialized := [], false;
    }

    method SetSize(size: nat, blank: Data)
      modifies this
      ensures |data| == size && isInitialized == old(isInitialized)
      ensures forall k :: 0 <= k < size ==> data[k] == if k < |old(data)| then old(data)[k] else blank
    {
      data := if size <= |data| then data[..size] else data + seq(size - |data|, _ => blank);
    }

    method SetInitialized()
      modifies this
      ensures isInitialized && data == old(data)
    {
      isInitialized := true;
    }

    method Insert(key: nat, value: Data)
      requires key < |data|
      modifies this
      ensures data == old(data)[key := value] && isInitialized == old(isInitialized)
    {
      data := data[key := value];
    }

    method Find(key: nat) returns (value: Data)
      requires key < |data|
      ensures value == data[key]
    {
      value := data[key];
    }
  }
}
