/** The sharded map (ds/concurrent_map.go) against one flat map. */
module ConcurrentMap {
  import opened Bytes

  const DEFAULT_SHARD_COUNT := 32

  /** The number of shards made for a requested count. */
  function ShardTotal(requested: int): (n: nat)
    ensures n >= DEFAULT_SHARD_COUNT
  {
    if requested < DEFAULT_SHARD_COUNT then DEFAULT_SHARD_COUNT else requested
  }

  class MapShard<K(==), V> {
    var simpleMap: map<K, V>

    constructor ()
      ensures simpleMap == map[]
    {
      simpleMap := map[];
    }

    method Get(key: K) returns (r: Option<V>)
      ensures r == if key in simpleMap then Some(simpleMap[key]) else None
    {
      r := if key in simpleMap then Some(simpleMap[key]) else None;
    }

    method Set(key: K, value: V)
      modifies this
      ensures simpleMap == old(simpleMap)[key := value]
    {
      simpleMap := simpleMap[key := value];
    }

    method Remove(key: K)
      modifies this
      ensures simpleMap == old(simpleMap) - {key}
    {
      simpleMap := simpleMap - {key};
    }

    method Pop(key: K) returns (r: Option<V>)
      modifies this
      ensures r == if key in old(simpleMap) then Some(old(simpleMap)[key]) else None
      ensures simpleMap == old(simpleMap) - {key}
    {
      r := Get(key);
      Remove(key);
    }
  }

  /** The keys of a flat map that belong to the shards from `lo` up to `hi`. */
  function Belonging<K, V>(m: map<K, V>, home: K -> nat, lo: nat, hi: nat): (r: map<K, V>)
    ensures r.Keys <= m.Keys
  {
    map k | k in m && lo <= home(k) < hi :: m[k]
  }

  /** The part of one more shard adds exactly its own number of keys. */
  lemma BelongingGrows<K, V>(m: map<K, V>, home: K -> nat, i: nat)
    ensures |Belonging(m, home, 0, i + 1)| == |Belonging(m, home, 0, i)| + |Belonging(m, home, i, i + 1)|
  {
    var a, b := Belonging(m, home, 0, i), Belonging(m, home, i, i + 1);
    var c := Belonging(m, home, 0, i + 1);
    assert c.Keys == a.Keys + b.Keys && a.Keys !! b.Keys;
    assert |c.Keys| == |c| && |a.Keys| == |a| && |b.Keys| == |b|;
  }

  lemma BelongingSet<K, V>(m: map<K, V>, home: K -> nat, i: nat, key: K, value: V)
    ensures Belonging(m[key := value], home, i, i + 1)
            == if home(key) == i then Belonging(m, home, i, i + 1)[key := value] else Belonging(m, home, i, i + 1)
  {
  }

  lemma BelongingRemove<K, V>(m: map<K, V>, home: K -> nat, i: nat, key: K)
    ensures Belonging(m - {key}, home, i, i + 1)
            == if home(key) == i then Belonging(m, home, i, i + 1) - {key} else Belonging(m, home, i, i + 1)
  {
  }

  class Sharded<K(==), V> {
    var shards: seq<MapShard<K, V>>
    const sharding: K -> nat
    /** A uint8: 0 for every multiple of 256, and then GetShard panics. */
    const shardCount: nat

    /** The flat map. */
    ghost var contents: map<K, V>

    /** Each shard is a separate object and holds the keys that belong to it and no others. */
    ghost predicate Valid()
      reads this, shards
    {
      && |shards| > 0 && shardCount <= |shards|
      && (forall i, j :: 0 <= i < j < |shards| ==> shards[i] != shards[j])
      && forall i :: 0 <= i < |shards| ==> shards[i].simpleMap == Belonging(contents, Home(), i, i + 1)
    }

    ghost function Home(): K -> nat {
      k => if shardCount == 0 then 0 else sharding(k) % shardCount
    }

    /** newConcurrentMap */
    constructor (mapShardCount: int, sharding: K -> nat)
      ensures Valid() && contents == map[] && this.sharding == sharding
      ensures |shards| == Max(mapShardCount, 32) && shardCount == |shards| % 256
      ensures forall i :: 0 <= i < |shards| ==> fresh(shards[i])
    {
      var n := ShardTotal(mapShardCount);
      this.sharding := sharding;
      shardCount := n % 256;
      shards := [];
      contents := map[];
      new;
      var i := 0;
      while i < n
        invariant 0 <= i == |shards| <= n && contents == map[]
        invariant forall j :: 0 <= j < i ==> fresh(shards[j]) && shards[j].simpleMap == map[]
        invariant forall j, k :: 0 <= j < k < i ==> shards[j] != shards[k]
      {
        var shard := new MapShard();
        shards := shards + [shard];
        i := i + 1;
      }
    }

    function ShardOf(key: K): (i: nat)
      requires shardCount > 0
      reads this
      ensures i == Home()(key) < shardCount
    {
      sharding(key) % shardCount
    }

    /** Get */
    method Get(key: K) returns (r: Option<V>)
      requires Valid() && shardCount > 0
      ensures r == if key in contents then Some(contents[key]) else None
    {
      r := shards[ShardOf(key)].Get(key);
    }

    /** Has */
    method Has(key: K) returns (r: bool)
      requires Valid() && shardCount > 0
      ensures r == (key in contents)
    {
      r := key in shards[ShardOf(key)].simpleMap;
    }

    /** Set */
    method Set(key: K, value: V)
      requires Valid() && shardCount > 0
      modifies this`contents, shards
      ensures Valid() && contents == old(contents)[key := value]
    {
      shards[ShardOf(key)].Set(key, value);
      forall i | 0 <= i < |shards|
        ensures Belonging(contents[key := value], Home(), i, i + 1) == shards[i].simpleMap
      {
        BelongingSet(contents, Home(), i, key, value);
      }
      contents := contents[key := value];
    }

    /** Remove */
    method Remove(key: K)
      requires Valid() && shardCount > 0
      modifies this`contents, shards
      ensures Valid() && contents == old(contents) - {key}
    {
      shards[ShardOf(key)].Remove(key);
      forall i | 0 <= i < |shards|
        ensures Belonging(contents - {key}, Home(), i, i + 1) == shards[i].simpleMap
      {
        BelongingRemove(contents, Home(), i, key);
      }
      contents := contents - {key};
    }

    /** Pop */
    method Pop(key: K) returns (r: Option<V>)
      requires Valid() && shardCount > 0
      modifies this`contents, shards
      ensures Valid() && contents == old(contents) - {key}
      ensures r == if key in old(contents) then Some(old(contents)[key]) else None
    {
      r := shards[ShardOf(key)].Pop(key);
      forall i | 0 <= i < |shards|
        ensures Belonging(contents - {key}, Home(), i, i + 1) == shards[i].simpleMap
      {
        BelongingRemove(contents, Home(), i, key);
      }
      contents := contents - {key};
    }

    /** Size: the shards' sizes add up to the number of distinct keys. */
    method Size() returns (cnt: nat)
      requires Valid()
      ensures cnt == |contents|
    {
      cnt := 0;
      ghost var home := Home();
      for i := 0 to |shards|
        invariant cnt == |Belonging(contents, home, 0, i)|
      {
        BelongingGrows(contents, home, i);
        cnt := cnt + |shards[i].simpleMap|;
      }
      assert Belonging(contents, home, 0, |shards|) == contents;
    }
  }

  /** A key is in its own shard if it is in the map, and never in another. */
  lemma OwnShardOnly<K, V>(cm: Sharded<K, V>, key: K, i: nat)
    requires cm.Valid() && cm.shardCount > 0 && i < |cm.shards|
    ensures key in cm.shards[i].simpleMap <==> key in cm.contents && i == cm.ShardOf(key)
  {
    assert cm.shards[i].simpleMap == Belonging(cm.contents, cm.Home(), i, i + 1);
  }
}
