/**
 Sets (set.go): one index tree per key, from the hash of a member to the place of its entry. The 128-bit
 member hash is a function; where it matters, one without collisions.
 */
module SetDb {
  import opened Bytes
  import opened LogEntry
  import opened Store
  import opened Alike

  type Tree = map<Bytes, Node>
  type Hash = Bytes -> Bytes

  /** The set log, of which only the files matter, and setIndex.trees. */
  datatype Sets = Sets(log: OpenStore, trees: map<Bytes, Tree>)

  ghost predicate Injective(hash: Hash) {
    forall a, b :: hash(a) == hash(b) ==> a == b
  }

  function TreeAt(sets: Sets, key: Bytes): Tree {
    if key in sets.trees then sets.trees[key] else map[]
  }

  /** SIsMember */
  predicate IsMember(sets: Sets, hash: Hash, key: Bytes, mem: Bytes) {
    key in sets.trees && hash(mem) in sets.trees[key]
  }

  function EnsureTree(sets: Sets, key: Bytes): (r: Sets)
    ensures key in r.trees && r.log == sets.log && sets.trees.Keys <= r.trees.Keys
  {
    if key in sets.trees then sets else sets.(trees := sets.trees[key := map[]])
  }

  /** updateIndexTree on the tree of a set. */
  function Indexed(sets: Sets, key: Bytes, sum: Bytes, n: Node): (r: Sets) {
    sets.(trees := sets.trees[key := TreeAt(sets, key)[sum := n]])
  }

  /** One member: its entry into the log and its hash into the tree. */
  function AddEntry(sets: Sets, e: Entry, sum: Bytes): (r: Sets)
    requires Storable(e)
  {
    Indexed(sets.(log := Write(sets.log, e)), e.key, sum, Where(sets.log, e))
  }

  predicate MembersFit(key: Bytes, members: seq<Bytes>) {
    forall i :: 0 <= i < |members| && members[i] != [] ==> Bufferable(Plain(key, members[i]))
  }

  /** The loop of SAdd: empty members are skipped. */
  function AddMembers(sets: Sets, hash: Hash, key: Bytes, members: seq<Bytes>): Sets
    requires MembersFit(key, members)
    decreases |members|
  {
    if members == [] then sets
    else
      var mem := members[0];
      AddMembers(if mem == [] then sets else AddEntry(sets, Plain(key, mem), hash(mem)), hash, key, members[1..])
  }

  function Add(sets: Sets, hash: Hash, key: Bytes, members: seq<Bytes>): Sets
    requires MembersFit(key, members)
  {
    AddMembers(EnsureTree(sets, key), hash, key, members)
  }

  lemma AddEntryMember(sets: Sets, hash: Hash, key: Bytes, mem: Bytes, k: Bytes, m: Bytes)
    requires Injective(hash) && Storable(Plain(key, mem))
    ensures IsMember(AddEntry(sets, Plain(key, mem), hash(mem)), hash, k, m) <==> IsMember(sets, hash, k, m) || (k == key && m == mem)
  {
    hide Write, Where, Storable;
  }

  lemma {:induction false} AddMembersMember(sets: Sets, hash: Hash, key: Bytes, members: seq<Bytes>, k: Bytes, m: Bytes)
    requires Injective(hash) && MembersFit(key, members)
    ensures IsMember(AddMembers(sets, hash, key, members), hash, k, m)
            <==> IsMember(sets, hash, k, m) || (k == key && m != [] && m in members)
    decreases |members|
  {
    hide AddEntry, Storable, IsMember;
    if members != [] {
      var mem := members[0];
      if mem != [] {
        AddEntryMember(sets, hash, key, mem, k, m);
      }
      AddMembersMember(if mem == [] then sets else AddEntry(sets, Plain(key, mem), hash(mem)), hash, key, members[1..], k, m);
    }
  }

  /** SAdd adds exactly its members other than the empty one, and only to its key. */
  lemma AddMember(sets: Sets, hash: Hash, key: Bytes, members: seq<Bytes>, k: Bytes, m: Bytes)
    requires Injective(hash) && MembersFit(key, members)
    ensures IsMember(Add(sets, hash, key, members), hash, k, m)
            <==> IsMember(sets, hash, k, m) || (k == key && m != [] && m in members)
  {
    hide AddMembers, MembersFit;
    AddMembersMember(EnsureTree(sets, key), hash, key, members, k, m);
  }

  /** In a new database nothing is a member of anything. */
  lemma NothingYet(log: OpenStore, hash: Hash, k: Bytes, m: Bytes)
    ensures !IsMember(Sets(log, map[]), hash, k, m)
  {
  }

  class SetDatabase {
    var sets: Sets
    const hash: Hash

    constructor (maxSize: nat, hash: Hash)
      ensures sets == Sets(Empty(maxSize), map[]) && this.hash == hash
    {
      sets := Sets(Empty(maxSize), map[]);
      this.hash := hash;
    }

    /** SAdd */
    method SAdd(key: Bytes, members: seq<Bytes>)
      requires MembersFit(key, members)
      modifies this
      ensures sets == Add(old(sets), hash, key, members)
    {
      hide AddEntry, Storable;
      sets := EnsureTree(sets, key);
      var i := 0;
      while i < |members|
        invariant 0 <= i <= |members|
        invariant AddMembers(sets, hash, key, members[i..]) == Add(old(sets), hash, key, members)
      {
        assert members[i..][0] == members[i] && members[i..][1..] == members[i + 1..];
        if members[i] != [] {
          sets := AddEntry(sets, Plain(key, members[i]), hash(members[i]));
        }
        i := i + 1;
      }
    }

    /** SIsMember */
    method SIsMember(key: Bytes, member: Bytes) returns (r: bool)
      ensures r == IsMember(sets, hash, key, member)
    {
      if key !in sets.trees {
        return false;
      }
      r := hash(member) in sets.trees[key];
    }
  }
}
