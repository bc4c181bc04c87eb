/**
 Hashes (hash.go, and mergeHash in db.go): one index tree per hash over a shared log, against a map of maps.
 The log is the state machine of module Store, whose index is the union of all trees.
 */
module HashDb {
  import opened Bytes
  import opened LogEntry
  import opened LogFile
  import opened Ledger
  import opened Store
  import opened StoreLog
  import opened Refinement
  import opened MergeReads
  import opened Recovery
  import opened CompoundKey
  import S = Store

  /** hashIndex.trees */
  type Forest = map<Bytes, Index>

  /** What the commands promise to work on. */
  type Hashes = map<Bytes, map<Bytes, Bytes>>

  /** The key was encoded from a hash `k` that has a tree. */
  predicate Named(ek: Bytes, trees: Forest) {
    Decoded(ek).Some? && Decoded(ek).value.0 in trees
  }

  /** The index of the log is the union of the trees, and each tree holds only keys of its own hash. */
  ghost predicate Union(index: Index, trees: Forest) {
    && (forall ek :: ek in index ==>
          Named(ek, trees) && ek in trees[Decoded(ek).value.0] && trees[Decoded(ek).value.0][ek] == index[ek])
    && (forall k, ek :: k in trees && ek in trees[k] ==> ek in index && Decoded(ek).Some? && Decoded(ek).value.0 == k)
  }

  /** Every entry of the log belongs to a hash that has a tree. */
  ghost predicate LogNamed(files: Files, trees: Forest) {
    forall f, i :: f in files && 0 <= i < |files[f].entries| ==> Named(files[f].entries[i].key, trees)
  }

  predicate Field(k: Bytes, f: Bytes) {
    Short(k) && Short(f)
  }

  /** `eks` are exactly the encoded keys of the fields `fs` of hash `k`. */
  ghost predicate KeysMatch(eks: set<Bytes>, k: Bytes, fs: set<Bytes>) {
    && |eks| == |fs| && (forall f :: f in fs ==> Field(k, f))
    && (forall ek :: ek in eks <==> exists f :: f in fs && IsKey(ek, k, f))
  }

  predicate IsKey(ek: Bytes, k: Bytes, f: Bytes) {
    Field(k, f) && ek == Encoded(k, f)
  }

  ghost predicate TreeHolds(tree: Index, k: Bytes, fields: map<Bytes, Bytes>) {
    KeysMatch(tree.Keys, k, fields.Keys)
  }

  lemma InTree(eks: set<Bytes>, k: Bytes, fs: set<Bytes>, f: Bytes)
    requires KeysMatch(eks, k, fs) && Field(k, f)
    ensures f in fs <==> Encoded(k, f) in eks
  {
    hide Encoded;
    if f in fs {
      assert IsKey(Encoded(k, f), k, f);
    }
    if Encoded(k, f) in eks {
      var g :| g in fs && IsKey(Encoded(k, f), k, g);
      EncodedInjective(k, f, k, g);
    }
  }

  ghost predicate TreesHold(trees: Forest, a: Hashes) {
    trees.Keys == a.Keys && forall k :: k in a ==> TreeHolds(trees[k], k, a[k])
  }

  /** The contents of the log, by encoded key, are fields of the hashes. A merge can have taken a field that had no room. */
  ghost predicate CellsHold(m: Contents, a: Hashes) {
    && (forall k, f :: k in a && f in a[k] && Field(k, f) && Encoded(k, f) in m ==> m[Encoded(k, f)] == Cell(a[k][f], 0))
    && (forall ek :: ek in m ==> m[ek].expiredAt == 0)
  }

  lemma KeysPut(eks: set<Bytes>, k: Bytes, fs: set<Bytes>, f: Bytes)
    requires KeysMatch(eks, k, fs) && Field(k, f)
    ensures KeysMatch(eks + {Encoded(k, f)}, k, fs + {f})
  {
    hide Encoded, Short, IsKey;
    var ek := Encoded(k, f);
    InTree(eks, k, fs, f);
    KeyIs(k, f);
    if f in fs {
      assert fs + {f} == fs && eks + {ek} == eks;
    } else {
      forall x
        ensures x in eks + {ek} <==> exists g :: g in fs + {f} && IsKey(x, k, g)
      {
        if x in eks {
          var g :| g in fs && IsKey(x, k, g);
          assert g in fs + {f};
        } else if x != ek {
          KeyOnly(k, f, x);
        }
      }
    }
  }

  lemma KeysDelete(eks: set<Bytes>, k: Bytes, fs: set<Bytes>, f: Bytes)
    requires KeysMatch(eks, k, fs) && Field(k, f)
    ensures KeysMatch(eks - {Encoded(k, f)}, k, fs - {f})
  {
    hide Encoded, Short, IsKey;
    var ek := Encoded(k, f);
    InTree(eks, k, fs, f);
    if f !in fs {
      assert fs - {f} == fs && eks - {ek} == eks;
    } else {
      forall x
        ensures x in eks - {ek} <==> exists g :: g in fs - {f} && IsKey(x, k, g)
      {
        KeyOnly(k, f, x);
        if x in eks - {ek} {
          var g :| g in fs && IsKey(x, k, g);
          assert g in fs - {f};
        } else if x == ek {
          OnlyField(k, f, fs - {f});
        }
      }
    }
  }

  lemma KeyIs(k: Bytes, f: Bytes)
    requires Field(k, f)
    ensures IsKey(Encoded(k, f), k, f)
  {
  }

  lemma KeyOnly(k: Bytes, f: Bytes, x: Bytes)
    requires Field(k, f)
    ensures IsKey(x, k, f) <==> x == Encoded(k, f)
  {
  }

  lemma OnlyField(k: Bytes, f: Bytes, others: set<Bytes>)
    requires Field(k, f) && f !in others
    ensures forall g :: g in others ==> !IsKey(Encoded(k, f), k, g)
  {
    forall g | g in others
      ensures !IsKey(Encoded(k, f), k, g)
    {
      if IsKey(Encoded(k, f), k, g) {
        EncodedInjective(k, f, k, g);
      }
    }
  }

  /** Without expiry, nothing is ever gone, whatever the clock of a merge says. */
  lemma ClockIrrelevant(s: Store, m: Contents, merged: int, merged': int)
    requires Refines(s, m, merged) && forall k :: k in m ==> m[k].expiredAt == 0
    ensures Refines(s, m, merged')
  {
    hide WrittenAt, Used;
    forall k | k in s.index
      ensures NodeOk(s, m, merged', k)
    {
      assert NodeOk(s, m, merged, k);
    }
  }

  /** The log refines the contents, the trees index it, and both hold the hashes. */
  ghost predicate HashInv(s: Store, trees: Forest, a: Hashes, m: Contents) {
    && Refines(s, m, 0) && Union(s.index, trees) && LogNamed(s.files, trees)
    && TreesHold(trees, a) && CellsHold(m, a)
  }

  lemma UnionPut(index: Index, trees: Forest, k: Bytes, f: Bytes, n: Node)
    requires Union(index, trees) && k in trees && Field(k, f)
    ensures Union(index[Encoded(k, f) := n], trees[k := trees[k][Encoded(k, f) := n]])
    ensures Named(Encoded(k, f), trees)
  {
    hide Encoded, Decoded;
    DecodeEncoded(k, f);
  }

  lemma UnionDelete(index: Index, trees: Forest, k: Bytes, f: Bytes)
    requires Union(index, trees) && k in trees && Field(k, f)
    ensures Union(index - {Encoded(k, f)}, trees[k := trees[k] - {Encoded(k, f)}])
    ensures Named(Encoded(k, f), trees) && (Encoded(k, f) in index <==> Encoded(k, f) in trees[k])
  {
    hide Encoded, Decoded;
    DecodeEncoded(k, f);
  }

  lemma CellsPut(m: Contents, a: Hashes, k: Bytes, f: Bytes, v: Bytes)
    requires CellsHold(m, a) && k in a && Field(k, f)
    ensures CellsHold(m[Encoded(k, f) := Cell(v, 0)], a[k := a[k][f := v]])
  {
    hide Encoded, Short;
    var m', a' := m[Encoded(k, f) := Cell(v, 0)], a[k := a[k][f := v]];
    forall k2, f2 | k2 in a' && f2 in a'[k2] && Field(k2, f2)
      ensures Encoded(k2, f2) in m' ==> m'[Encoded(k2, f2)] == Cell(a'[k2][f2], 0)
    {
      if Encoded(k2, f2) == Encoded(k, f) {
        EncodedInjective(k2, f2, k, f);
      }
    }
  }

  lemma CellsDelete(m: Contents, a: Hashes, k: Bytes, f: Bytes)
    requires CellsHold(m, a) && k in a && Field(k, f)
    ensures CellsHold(m - {Encoded(k, f)}, a[k := a[k] - {f}])
  {
    hide Encoded, Short;
    var m', a' := m - {Encoded(k, f)}, a[k := a[k] - {f}];
    forall k2, f2 | k2 in a' && f2 in a'[k2] && Field(k2, f2)
      ensures Encoded(k2, f2) in m' ==> m'[Encoded(k2, f2)] == Cell(a'[k2][f2], 0)
    {
      if Encoded(k2, f2) == Encoded(k, f) {
        EncodedInjective(k2, f2, k, f);
      }
    }
  }

  /** A write adds one entry to one file. */
  lemma WriteNamed(s: Store, e: Entry, trees: Forest, trees': Forest)
    requires Openable(s) && Storable(e) && LogNamed(s.files, trees) && Named(e.key, trees) && trees.Keys == trees'.Keys
    ensures LogNamed(S.Write(s, e).files, trees')
  {
    hide Size, EntryCrc, Used, Decoded;
    var r := S.Write(s, e);
    forall f, i | f in r.files && 0 <= i < |r.files[f].entries|
      ensures Named(r.files[f].entries[i].key, trees')
    {
      assert f in s.files && i < |s.files[f].entries| ==> Named(s.files[f].entries[i].key, trees);
    }
  }

  lemma TreesPut(trees: Forest, a: Hashes, k: Bytes, f: Bytes, v: Bytes, n: Node)
    requires TreesHold(trees, a) && k in a && Field(k, f)
    ensures TreesHold(trees[k := trees[k][Encoded(k, f) := n]], a[k := a[k][f := v]])
  {
    hide Encoded, Short, KeysMatch;
    KeysPut(trees[k].Keys, k, a[k].Keys, f);
    assert trees[k][Encoded(k, f) := n].Keys == trees[k].Keys + {Encoded(k, f)};
    assert a[k][f := v].Keys == a[k].Keys + {f};
  }

  lemma TreesDelete(trees: Forest, a: Hashes, k: Bytes, f: Bytes)
    requires TreesHold(trees, a) && k in a && Field(k, f)
    ensures TreesHold(trees[k := trees[k] - {Encoded(k, f)}], a[k := a[k] - {f}])
    ensures f in a[k] <==> Encoded(k, f) in trees[k]
  {
    hide Encoded, Short, KeysMatch;
    KeysDelete(trees[k].Keys, k, a[k].Keys, f);
    InTree(trees[k].Keys, k, a[k].Keys, f);
    assert (trees[k] - {Encoded(k, f)}).Keys == trees[k].Keys - {Encoded(k, f)};
    assert (a[k] - {f}).Keys == a[k].Keys - {f};
  }

  lemma FieldPut(s: Store, trees: Forest, a: Hashes, m: Contents, k: Bytes, f: Bytes, v: Bytes)
    requires HashInv(s, trees, a, m) && k in a && Field(k, f) && Storable(Plain(Encoded(k, f), v))
    ensures var e := Plain(Encoded(k, f), v);
            HashInv(Put(s, e, false), trees[k := trees[k][e.key := Where(s, e)]], a[k := a[k][f := v]], SetCell(m, e))
  {
    hide Encoded, Decoded, Short, TreeHolds, Where, S.Write, Wf, NodeOk;
    var e := Plain(Encoded(k, f), v);
    RefinesOpenable(s, m, 0);
    PutRefines(s, m, 0, e, false);
    UnionPut(s.index, trees, k, f, Where(s, e));
    WriteNamed(s, e, trees, trees[k := trees[k][e.key := Where(s, e)]]);
    TreesPut(trees, a, k, f, v, Where(s, e));
    CellsPut(m, a, k, f, v);
  }

  lemma FieldDelete(s: Store, trees: Forest, a: Hashes, m: Contents, k: Bytes, f: Bytes)
    requires HashInv(s, trees, a, m) && k in a && Field(k, f) && Storable(Tombstone(Encoded(k, f)))
    ensures var ek := Encoded(k, f);
            HashInv(Remove(s, ek), trees[k := trees[k] - {ek}], a[k := a[k] - {f}], m - {ek})
  {
    hide Encoded, Decoded, Short, TreeHolds, Where, S.Write, Wf, NodeOk;
    var ek := Encoded(k, f);
    RefinesOpenable(s, m, 0);
    RemoveRefines(s, m, 0, ek);
    UnionDelete(s.index, trees, k, f);
    WriteNamed(s, Tombstone(ek), trees, trees[k := trees[k] - {ek}]);
    TreesDelete(trees, a, k, f);
    CellsDelete(m, a, k, f);
  }

  lemma NewTree(s: Store, trees: Forest, a: Hashes, m: Contents, k: Bytes)
    requires HashInv(s, trees, a, m) && k !in a
    ensures HashInv(s, trees[k := map[]], a[k := map[]], m)
  {
    hide Refines, Union, LogNamed, TreeHolds;
    NewTreeIndexed(s, trees, k);
    NewTreeHolds(trees, a, k);
  }

  lemma NewTreeIndexed(s: Store, trees: Forest, k: Bytes)
    requires Union(s.index, trees) && LogNamed(s.files, trees) && k !in trees
    ensures Union(s.index, trees[k := map[]]) && LogNamed(s.files, trees[k := map[]])
  {
    hide Decoded;
    forall f, i | f in s.files && 0 <= i < |s.files[f].entries|
      ensures Named(s.files[f].entries[i].key, trees[k := map[]])
    {
      assert Named(s.files[f].entries[i].key, trees);
    }
  }

  lemma NewTreeHolds(trees: Forest, a: Hashes, k: Bytes)
    requires TreesHold(trees, a) && k !in a
    ensures TreesHold(trees[k := map[]], a[k := map[]])
  {
    hide Encoded;
    var trees', a' := trees[k := map[]], a[k := map[]];
    forall j | j in a'
      ensures TreeHolds(trees'[j], j, a'[j])
    {
      if j != k {
        assert TreeHolds(trees[j], j, a[j]);
      }
    }
  }

  // --- the commands ---

  /** The fields after setting the pairs `args`, later pairs winning. */
  function WithPairs(fields: map<Bytes, Bytes>, args: seq<Bytes>): map<Bytes, Bytes>
    requires |args| % 2 == 0
    decreases |args|
  {
    if |args| < 2 then fields else WithPairs(fields[args[0] := args[1]], args[2..])
  }

  function Without(fields: map<Bytes, Bytes>, gone: seq<Bytes>): map<Bytes, Bytes>
    decreases |gone|
  {
    if |gone| == 0 then fields else Without(fields - {gone[0]}, gone[1..])
  }

  /** Removing fields leaves exactly the others, with their values. */
  lemma {:induction false} WithoutExactly(fields: map<Bytes, Bytes>, gone: seq<Bytes>, f: Bytes)
    ensures f in Without(fields, gone) <==> f in fields && f !in gone
    ensures f in Without(fields, gone) ==> Without(fields, gone)[f] == fields[f]
    decreases |gone|
  {
    if |gone| > 0 {
      WithoutExactly(fields - {gone[0]}, gone[1..], f);
      assert gone == [gone[0]] + gone[1..];
    }
  }

  /** Setting pairs gives a field the value of its last pair, and leaves a field alone that has none. */
  lemma {:induction false} WithPairsExactly(fields: map<Bytes, Bytes>, args: seq<Bytes>, i: nat, f: Bytes)
    requires |args| % 2 == 0 && i <= |args| && i % 2 == 0 && (i < |args| ==> args[i] == f)
    requires forall j :: i < j < |args| && j % 2 == 0 ==> args[j] != f
    requires i == |args| ==> forall j :: 0 <= j < |args| && j % 2 == 0 ==> args[j] != f
    ensures i < |args| ==> f in WithPairs(fields, args) && WithPairs(fields, args)[f] == args[i + 1]
    ensures i == |args| ==> (f in WithPairs(fields, args) <==> f in fields) && (f in fields ==> WithPairs(fields, args)[f] == fields[f])
    decreases |args|
  {
    if |args| >= 2 {
      var rest := args[2..];
      assert forall j :: 0 <= j < |rest| ==> rest[j] == args[j + 2];
      var next := if i == 0 then |rest| else i - 2;
      forall j | 0 <= j < |rest| && j % 2 == 0 && (next < j || next == |rest|)
        ensures rest[j] != f
      {
        assert (j + 2) % 2 == 0;
      }
      WithPairsExactly(fields[args[0] := args[1]], rest, next, f);
    }
  }

  function FieldsOf(a: Hashes, k: Bytes): map<Bytes, Bytes> {
    if k in a then a[k] else map[]
  }

  predicate PairsWritable(k: Bytes, args: seq<Bytes>) {
    forall i :: 0 <= i < |args| - 1 && i % 2 == 0 ==> Field(k, args[i]) && Storable(Plain(Encoded(k, args[i]), args[i + 1]))
  }

  predicate FieldsWritable(k: Bytes, fields: seq<Bytes>) {
    forall i :: 0 <= i < |fields| ==> Field(k, fields[i]) && Storable(Tombstone(Encoded(k, fields[i])))
  }

  lemma WithPairsStep(fields: map<Bytes, Bytes>, args: seq<Bytes>)
    requires |args| % 2 == 0
    ensures WithPairs(fields, args) == if |args| < 2 then fields else WithPairs(fields[args[0] := args[1]], args[2..])
  {
  }

  lemma PairsSplit(k: Bytes, args: seq<Bytes>)
    requires |args| >= 2 && PairsWritable(k, args)
    ensures Field(k, args[0]) && Storable(Plain(Encoded(k, args[0]), args[1])) && PairsWritable(k, args[2..])
  {
    hide Storable, Encoded, Short;
  }

  class HashDatabase {
    var store: Store
    var trees: Forest
    ghost var hashes: Hashes
    ghost var contents: Contents

    ghost predicate Valid()
      reads this
    {
      HashInv(store, trees, hashes, contents)
    }

    constructor (maxSize: nat)
      requires maxSize > 0
      ensures Valid() && hashes == map[]
    {
      store := Empty(maxSize);
      trees, hashes, contents := map[], map[], map[];
    }

    /** One turn of the loop in HSet. */
    method SetField(key: Bytes, field: Bytes, value: Bytes)
      requires Valid() && key in hashes && Field(key, field) && Storable(Plain(Encoded(key, field), value))
      modifies this
      ensures Valid() && hashes == old(hashes)[key := old(hashes)[key][field := value]]
    {
      hide HashInv, Encoded, Put, Where, Storable;
      SameHashes(store, trees, hashes, contents);
      var e := Plain(Encoded(key, field), value);
      FieldPut(store, trees, hashes, contents, key, field, value);
      trees := trees[key := trees[key][e.key := Where(store, e)]];
      store := Put(store, e, false);
      hashes := hashes[key := hashes[key][field := value]];
      contents := SetCell(contents, e);
    }

    /** HSet: pairs of fields and values; the tree is created on first use. */
    method HSet(key: Bytes, args: seq<Bytes>) returns (reply: Reply)
      requires Valid() && PairsWritable(key, args)
      modifies this
      ensures Valid() && (reply == InvalidParam <==> |args| % 2 == 1)
      ensures hashes == if |args| % 2 == 1 || |args| == 0 then old(hashes)
                        else old(hashes)[key := WithPairs(FieldsOf(old(hashes), key), args)]
    {
      hide Valid, HashInv, PairsWritable, WithPairs;
      if |args| % 2 == 1 {
        return InvalidParam;
      }
      if |args| == 0 {
        return Done;
      }
      EnsureTree(key);
      SetPairs(key, args);
      reply := Done;
    }

    /** The tree of a hash is created on its first use. */
    method EnsureTree(key: Bytes)
      requires Valid()
      modifies this
      ensures Valid() && hashes == old(hashes)[key := FieldsOf(old(hashes), key)]
    {
      hide HashInv;
      SameHashes(store, trees, hashes, contents);
      if key !in trees {
        NewTree(store, trees, hashes, contents, key);
        trees, hashes := trees[key := map[]], hashes[key := map[]];
      }
    }

    /** The loop of HSet. */
    method SetPairs(key: Bytes, args: seq<Bytes>)
      requires Valid() && key in hashes && |args| % 2 == 0 && PairsWritable(key, args)
      modifies this
      ensures Valid() && hashes == old(hashes)[key := WithPairs(old(hashes)[key], args)]
    {
      hide Valid, PairsWritable, WithPairs, Storable, Encoded;
      var i := 0;
      while i < |args|
        invariant 0 <= i <= |args| && i % 2 == 0 && Valid() && key in hashes && PairsWritable(key, args[i..])
        invariant hashes == old(hashes)[key := hashes[key]]
        invariant WithPairs(hashes[key], args[i..]) == WithPairs(old(hashes)[key], args)
      {
        assert args[i..][0] == args[i] && args[i..][1] == args[i + 1] && args[i..][2..] == args[i + 2..];
        PairsSplit(key, args[i..]);
        WithPairsStep(hashes[key], args[i..]);
        SetField(key, args[i], args[i + 1]);
        i := i + 2;
      }
      WithPairsStep(hashes[key], args[i..]);
    }

    /** One turn of the loop in HDel: a tombstone in the log, the key out of the tree. */
    method DelField(key: Bytes, field: Bytes) returns (updated: bool)
      requires Valid() && key in hashes && Field(key, field) && Storable(Tombstone(Encoded(key, field)))
      modifies this
      ensures Valid() && hashes == old(hashes)[key := old(hashes)[key] - {field}] && (updated <==> field in old(hashes)[key])
    {
      hide HashInv, Encoded, Remove, Storable;
      SameHashes(store, trees, hashes, contents);
      var ek := Encoded(key, field);
      FieldDelete(store, trees, hashes, contents, key, field);
      HasField(store, trees, hashes, contents, key, field);
      updated := ek in trees[key];
      trees := trees[key := trees[key] - {ek}];
      store := Remove(store, ek);
      hashes := hashes[key := hashes[key] - {field}];
      contents := contents - {ek};
    }

    /** HDel: counts the fields that were there. */
    method HDel(key: Bytes, fields: seq<Bytes>) returns (count: nat)
      requires Valid() && FieldsWritable(key, fields)
      modifies this
      ensures Valid()
      ensures hashes == if key in old(hashes) then old(hashes)[key := Without(old(hashes)[key], fields)] else old(hashes)
      ensures count == |FieldsOf(old(hashes), key)| - |FieldsOf(hashes, key)|
    {
      hide HashInv, Encoded, Storable;
      SameHashes(store, trees, hashes, contents);
      if key !in trees {
        return 0;
      }
      count := 0;
      var i := 0;
      while i < |fields|
        invariant 0 <= i <= |fields| && Valid() && key in hashes
        invariant hashes == old(hashes)[key := hashes[key]]
        invariant Without(hashes[key], fields[i..]) == Without(old(hashes)[key], fields)
        invariant count == |old(hashes)[key]| - |hashes[key]|
      {
        var field := fields[i];
        assert fields[i..][0] == field && fields[i..][1..] == fields[i + 1..];
        assert (hashes[key] - {field}).Keys == hashes[key].Keys - {field};
        var updated := DelField(key, field);
        if updated {
          count := count + 1;
        }
        i := i + 1;
      }
    }

    /** HLen */
    method HLen(key: Bytes) returns (n: nat)
      requires Valid()
      ensures n == |FieldsOf(hashes, key)|
    {
      hide Refines, Union, LogNamed, CellsHold, Encoded;
      if key !in trees {
        return 0;
      }
      assert TreeHolds(trees[key], key, hashes[key]);
      assert |trees[key].Keys| == |hashes[key].Keys|;
      n := |trees[key]|;
    }

    /** HGet: getValue on the tree of the hash; KeyNotFound stands for a nil result. */
    method HGet(key: Bytes, field: Bytes, now: int) returns (r: GetResult)
      requires Valid() && Field(key, field)
      ensures forall v :: r == Found(v) <==> field in FieldsOf(hashes, key) && hashes[key][field] == v && HasRoom(store, Encoded(key, field))
      ensures field !in FieldsOf(hashes, key) ==> r == KeyNotFound
    {
      hide HashInv, S.Get, Encoded, HasRoom;
      SameHashes(store, trees, hashes, contents);
      if key !in trees {
        return KeyNotFound;
      }
      r := S.Get(store.(index := trees[key]), Encoded(key, field), now);
      TreeGet(store, trees, hashes, contents, key, field, now);
    }

    /**
     mergeHash: finds the tree through the entry's key and rewrites the entry if the tree points at it.
     The tree is always there.
     */
    method MergeHash(fid: nat, at: nat, e: Entry, now: int)
      requires Indexed(store, trees, hashes) && Storable(e) && Named(e.key, trees) && !MergeDrops(e, now)
      modifies this`store, this`trees
      ensures Indexed(store, trees, hashes) && trees.Keys == old(trees).Keys
      ensures Openable(old(store)) && store == MergeOne(old(store), fid, at, e, now)
    {
      hide Put, Where, Wf, Decoded, Storable, LogNamed, TreeHolds;
      OpenableWf(store);
      var key := Decoded(e.key).value.0;
      var idxTree := trees[key];
      TreePoints(store.index, trees, e.key);
      if e.key in idxTree && idxTree[e.key].fid == fid && idxTree[e.key].offset == at {
        Rewritten(store, trees, hashes, e);
        trees := trees[key := idxTree[e.key := Where(store, e)]];
        store := Put(store, e, false);
      }
    }

    /** The merge loop over a hash file. */
    method RewriteLive(fid: nat, clock: nat -> int)
      requires Indexed(store, trees, hashes) && fid in store.files
      modifies this`store, this`trees
      ensures Indexed(store, trees, hashes) && Openable(old(store)) && store.active >= old(store).active
      ensures store == MergeLoop(old(store), fid, Readable(old(store).files[fid]), 0, clock, 0)
    {
      hide Indexed, MergeOne, MergeLoop, Decoded, Size, EntryCrc, MergeDrops, Readable, Named, PointsAt;
      IndexedOpenable(store, trees, hashes);
      var es: Entries := Readable(store.files[fid]);
      ReadableNamed(store, trees, hashes, fid);
      LoopActive(store, trees, hashes, fid, es, clock);
      var offset: nat, i: nat := 0, 0;
      while i < |es|
        invariant 0 <= i <= |es| && Indexed(store, trees, hashes) && Openable(store)
        invariant trees.Keys == old(trees).Keys && AllStorable(es[i..])
        invariant MergeLoop(store, fid, es[i..], offset, clock, i) == MergeLoop(old(store), fid, es, 0, clock, 0)
      {
        var e := es[i];
        assert es[i..][0] == e && es[i..][1..] == es[i + 1..];
        MergeLoopTurn(store, fid, es[i..], offset, clock, i);
        NamedSame(e.key, old(trees), trees);
        if !MergeDrops(e, clock(i)) {
          MergeHash(fid, offset, e, clock(i));
        } else {
          MergeSkips(store, fid, offset, e, clock(i));
        }
        IndexedOpenable(store, trees, hashes);
        offset := offset + Size(e);
        i := i + 1;
      }
      MergeLoopTurn(store, fid, es[i..], offset, clock, i);
    }

    /**
     Merge of any hash file: no field of any hash changes, and each that could be read still has its file. It can still be
     read exactly if its entry was in another file, or is rewritten to a place with room.
     */
    method Merge(fid: nat, ratio: real, clock: nat -> int)
      requires Valid()
      modifies this
      ensures Valid() && hashes == old(hashes) && Openable(old(store)) && store == S.Merge(old(store), fid, ratio, clock)
      ensures forall ek :: HasRoom(old(store), ek) ==> ek in store.index && store.index[ek].fid in store.files
      ensures forall ek :: HasRoom(old(store), ek) ==> (HasRoom(store, ek) <==> StaysReadable(old(store), fid, ratio, clock, ek))
    {
      hide HashInv, Indexed, MergeLoop, Mergeable, Readable, Refines, CellsHold, HasRoom, SetTotal, MergedContents, StaysReadable;
      MergeKeeps(store, trees, hashes, contents, fid, ratio, clock);
      StartIndexed(store, trees, hashes, contents);
      contents := MergedContents(store, contents, fid, ratio);
      store := EnsureActive(store);
      if !Mergeable(store, fid, ratio) {
        FinishMerge(store, trees, hashes, contents);
        return;
      }
      FidBelowActive(store, trees, hashes, fid, ratio);
      RewriteLive(fid, clock);
      DropIndexed(store, trees, hashes, fid);
      store := DropFile(store, fid);
      FinishMerge(store, trees, hashes, contents);
    }
  }

  /** What the trees and the log agree on, whatever the contents are. */
  ghost predicate Indexed(s: Store, trees: Forest, a: Hashes) {
    Wf(s) && Union(s.index, trees) && LogNamed(s.files, trees) && TreesHold(trees, a)
  }

  lemma TreePoints(index: Index, trees: Forest, ek: Bytes)
    requires Union(index, trees) && Named(ek, trees)
    ensures var tree := trees[Decoded(ek).value.0]; (ek in tree <==> ek in index) && (ek in tree ==> tree[ek] == index[ek])
  {
    hide Decoded;
  }

  lemma Rewritten(s: Store, trees: Forest, a: Hashes, e: Entry)
    requires Indexed(s, trees, a) && Storable(e) && Named(e.key, trees) && e.key in trees[Decoded(e.key).value.0]
    ensures var k := Decoded(e.key).value.0;
            var t := trees[k := trees[k][e.key := Where(s, e)]];
            Indexed(Put(s, e, false), t, a) && t.Keys == trees.Keys
  {
    hide Decoded, Where, S.Write, Wf, LogNamed, Union, TreesHold;
    var k := Decoded(e.key).value.0;
    OpenableWf(s);
    PutWf(s, e, false);
    RewrittenTree(s.index, trees, a, e.key, Where(s, e));
    WriteNamed(s, e, trees, trees[k := trees[k][e.key := Where(s, e)]]);
  }

  lemma RewrittenTree(index: Index, trees: Forest, a: Hashes, ek: Bytes, n: Node)
    requires Union(index, trees) && TreesHold(trees, a) && Named(ek, trees) && ek in trees[Decoded(ek).value.0]
    ensures var k := Decoded(ek).value.0;
            var t := trees[k := trees[k][ek := n]];
            Union(index[ek := n], t) && TreesHold(t, a) && t.Keys == trees.Keys
  {
    hide Decoded, KeysMatch;
    var k := Decoded(ek).value.0;
    var t := trees[k := trees[k][ek := n]];
    assert t[k].Keys == trees[k].Keys;
    forall j | j in a
      ensures TreeHolds(t[j], j, a[j])
    {
      assert TreeHolds(trees[j], j, a[j]);
    }
  }

  lemma IndexedOpenable(s: Store, trees: Forest, a: Hashes)
    requires Indexed(s, trees, a)
    ensures Openable(s)
  {
  }

  lemma ReadableNamed(s: Store, trees: Forest, a: Hashes, fid: nat)
    requires Indexed(s, trees, a) && fid in s.files
    ensures var es := Readable(s.files[fid]); forall i :: 0 <= i < |es| ==> Named(es[i].key, trees)
  {
    hide Decoded, RoomedPrefix;
    RoomedPrefixIs(s.files[fid].entries, 0, s.files[fid].length);
    var es := Readable(s.files[fid]);
    forall i | 0 <= i < |es|
      ensures Named(es[i].key, trees)
    {
      assert es[i] == s.files[fid].entries[i];
    }
  }

  lemma NamedSame(ek: Bytes, trees: Forest, trees': Forest)
    requires Named(ek, trees) && trees.Keys == trees'.Keys
    ensures Named(ek, trees')
  {
  }

  lemma MergeLoopTurn(s: Store, fid: nat, es: Entries, offset: nat, clock: nat -> int, i: nat)
    requires Openable(s)
    ensures MergeLoop(s, fid, es, offset, clock, i) ==
            if es == [] then s
            else MergeLoop(MergeOne(s, fid, offset, es[0], clock(i)), fid, es[1..], offset + Size(es[0]), clock, i + 1)
  {
    hide MergeOne, Size, EntryCrc;
  }

  lemma StartIndexed(s: Store, trees: Forest, a: Hashes, m: Contents)
    requires HashInv(s, trees, a, m)
    ensures Openable(s) && Indexed(EnsureActive(s), trees, a)
  {
    hide Decoded, Used, NodeOk, TreesHold;
    if s.active == 0 {
      NewFile(s, 1);
    }
  }

  lemma FidBelowActive(s: Store, trees: Forest, a: Hashes, fid: nat, ratio: real)
    requires Indexed(s, trees, a) && Mergeable(s, fid, ratio)
    ensures fid in s.files && fid < s.active
  {
    hide Used;
  }

  lemma LoopActive(s: Store, trees: Forest, a: Hashes, fid: nat, es: Entries, clock: nat -> int)
    requires Indexed(s, trees, a) && Openable(s)
    ensures MergeLoop(s, fid, es, 0, clock, 0).active >= s.active
  {
    hide Wf, MergeLoop;
    MergeLoopActive(s, fid, es, 0, clock, 0);
  }

  lemma DropIndexed(s: Store, trees: Forest, a: Hashes, fid: nat)
    requires Indexed(s, trees, a) && fid != s.active
    ensures Indexed(DropFile(s, fid), trees, a)
  {
    hide Decoded, Used;
  }

  lemma MergeKeeps(s: Store, trees: Forest, a: Hashes, m: Contents, fid: nat, ratio: real, clock: nat -> int)
    requires HashInv(s, trees, a, m)
    ensures var m' := MergedContents(s, m, fid, ratio);
            Openable(s) && Refines(S.Merge(s, fid, ratio, clock), m', 0) && CellsHold(m', a)
    ensures var r := S.Merge(s, fid, ratio, clock); forall ek :: HasRoom(s, ek) ==> ek in r.index && r.index[ek].fid in r.files
    ensures forall ek :: HasRoom(s, ek) ==> (HasRoom(S.Merge(s, fid, ratio, clock), ek) <==> StaysReadable(s, fid, ratio, clock, ek))
  {
    hide Refines, S.Merge, Union, LogNamed, TreesHold, CellsHold, MergedContents, HasRoom, StaysReadable;
    RefinesOpenable(s, m, 0);
    var n := if fid in s.files then |s.files[fid].entries| else 0;
    var late := Latest(clock, n, 0);
    MergeRefines(s, m, 0, late, fid, ratio, clock);
    CellsFewer(m, a, s, fid, ratio);
    CellsLast(m, a);
    ClockIrrelevant(S.Merge(s, fid, ratio, clock), MergedContents(s, m, fid, ratio), late, 0);
    forall ek | HasRoom(s, ek)
      ensures var r := S.Merge(s, fid, ratio, clock); ek in r.index && r.index[ek].fid in r.files
      ensures HasRoom(S.Merge(s, fid, ratio, clock), ek) <==> StaysReadable(s, fid, ratio, clock, ek)
    {
      StillThere(s, m, S.Merge(s, fid, ratio, clock), fid, ratio, ek);
      RoomAfter(s, m, fid, ratio, clock, ek);
    }
  }

  /** What decides whether a readable entry can be read after a merge, from the state before. */
  predicate StaysReadable(s: Store, fid: nat, ratio: real, clock: nat -> int, ek: Bytes) {
    Opened(s) && ek in s.index && Mergeable(s, fid, ratio) ==> s.index[ek].fid != fid || RewrittenWithRoom(s, fid, clock, ek)
  }

  lemma RoomAfter(s: Store, m: Contents, fid: nat, ratio: real, clock: nat -> int, ek: Bytes)
    requires Refines(s, m, 0) && Openable(s) && HasRoom(s, ek)
    ensures HasRoom(S.Merge(s, fid, ratio, clock), ek) <==> StaysReadable(s, fid, ratio, clock, ek)
  {
    hide NodeOk, MergeLoop, RewrittenWithRoom, Used, Candidate;
    if Mergeable(s, fid, ratio) {
      MergeRoom(s, m, 0, fid, ratio, clock, ek);
    }
  }

  lemma CellsLast(m: Contents, a: Hashes)
    requires CellsHold(m, a)
    ensures forall ek :: ek in m ==> m[ek].expiredAt == 0
  {
    hide Encoded;
  }

  lemma CellsFewer(m: Contents, a: Hashes, s: Store, fid: nat, ratio: real)
    requires CellsHold(m, a)
    ensures CellsHold(MergedContents(s, m, fid, ratio), a) && forall ek :: ek in MergedContents(s, m, fid, ratio) ==> MergedContents(s, m, fid, ratio)[ek].expiredAt == 0
  {
    hide Encoded, Mergeable;
  }

  lemma StillThere(s: Store, m: Contents, r: Store, fid: nat, ratio: real, ek: Bytes)
    requires Refines(s, m, 0) && HasRoom(s, ek) && (forall k :: k in m ==> m[k].expiredAt == 0)
    requires Refines(r, MergedContents(s, m, fid, ratio), 0)
    ensures ek in r.index && r.index[ek].fid in r.files
  {
    hide WrittenAt, Used, Mergeable;
    assert NodeOk(s, m, 0, ek);
    assert ek in MergedContents(s, m, fid, ratio);
    assert NodeOk(r, MergedContents(s, m, fid, ratio), 0, ek);
  }

  lemma FinishMerge(s: Store, trees: Forest, a: Hashes, m: Contents)
    requires Indexed(s, trees, a) && Refines(s, m, 0) && CellsHold(m, a)
    ensures HashInv(s, trees, a, m)
  {
  }

  lemma SameHashes(s: Store, trees: Forest, a: Hashes, m: Contents)
    requires HashInv(s, trees, a, m)
    ensures trees.Keys == a.Keys && Openable(s)
  {
    RefinesOpenable(s, m, 0);
  }

  lemma HasField(s: Store, trees: Forest, a: Hashes, m: Contents, k: Bytes, f: Bytes)
    requires HashInv(s, trees, a, m) && k in a && Field(k, f)
    ensures k in trees && (f in a[k] <==> Encoded(k, f) in trees[k])
  {
    hide Encoded, Refines, Union, LogNamed, CellsHold;
    assert TreeHolds(trees[k], k, a[k]);
    InTree(trees[k].Keys, k, a[k].Keys, f);
  }

  lemma TreeGet(s: Store, trees: Forest, a: Hashes, m: Contents, k: Bytes, f: Bytes, now: int)
    requires HashInv(s, trees, a, m) && k in a && k in trees && Field(k, f)
    ensures var r := S.Get(s.(index := trees[k]), Encoded(k, f), now);
            && (forall v :: r == Found(v) <==> f in a[k] && a[k][f] == v && HasRoom(s, Encoded(k, f)))
            && (f !in a[k] ==> r == KeyNotFound)
  {
    hide Encoded, Decoded, S.Get, HasRoom, HashInv;
    var ek := Encoded(k, f);
    HasField(s, trees, a, m, k, f);
    LogGet(s, trees, a, m, k, f, now);
    SameGet(s, trees, a, m, k, f, now);
  }

  lemma SameGet(s: Store, trees: Forest, a: Hashes, m: Contents, k: Bytes, f: Bytes, now: int)
    requires HashInv(s, trees, a, m) && k in trees && Field(k, f)
    ensures S.Get(s.(index := trees[k]), Encoded(k, f), now) == S.Get(s, Encoded(k, f), now)
  {
    hide Encoded, Decoded, Fetch, LogNamed, Refines, TreesHold, CellsHold;
    DecodeEncoded(k, f);
    FetchDepends(s, s.(index := trees[k]));
  }

  lemma FetchDepends(s: Store, r: Store)
    requires s.files == r.files
    ensures forall n: Node :: n.fid in s.files ==> Fetch(s, n) == Fetch(r, n)
  {
  }

  lemma LogGet(s: Store, trees: Forest, a: Hashes, m: Contents, k: Bytes, f: Bytes, now: int)
    requires HashInv(s, trees, a, m) && k in a && k in trees && Field(k, f)
    ensures var r, ek := S.Get(s, Encoded(k, f), now), Encoded(k, f);
            && (forall v :: r == Found(v) <==> ek in trees[k] && f in a[k] && a[k][f] == v && HasRoom(s, ek))
            && (ek !in trees[k] ==> r == KeyNotFound)
  {
    hide Encoded, Decoded, EntryAt, Used, Size, EntryCrc, LogNamed, TreeHolds, Wf;
    var ek := Encoded(k, f);
    HasField(s, trees, a, m, k, f);
    UnionDelete(s.index, trees, k, f);
    GetRefines(s, m, 0, ek, now);
    if ek in s.index {
      assert NodeOk(s, m, 0, ek);
    }
  }
}
