/**
 What a transaction buffers (tx_str.go, tx_set.go) and the two workers of Commit that write it out
 (tx.go), against the same calls made directly on the database in program order.
 */
module TxWorkers {
  import opened Bytes
  import opened LogEntry
  import opened Store
  import opened Alike
  import opened SetDb

  datatype Db = Db(strings: OpenStore, sets: Sets)

  datatype Op = TxSet(key: Bytes, value: Bytes) | TxSAdd(key: Bytes, members: seq<Bytes>)

  predicate OpFits(op: Op) {
    match op
    case TxSet(k, v) => Bufferable(Plain(k, v))
    case TxSAdd(k, ms) => MembersFit(k, ms)
  }

  predicate OpsFit(ops: seq<Op>) {
    forall i :: 0 <= i < |ops| ==> OpFits(ops[i])
  }

  // --- the calls made directly ---

  /** Set or SAdd on the database itself. */
  function Direct(db: Db, op: Op, hash: Hash): Db
    requires OpFits(op)
  {
    match op
    case TxSet(k, v) => db.(strings := Put(db.strings, Plain(k, v), true))
    case TxSAdd(k, ms) => db.(sets := Add(db.sets, hash, k, ms))
  }

  /** All calls, in program order. */
  function DirectAll(db: Db, ops: seq<Op>, hash: Hash): Db
    requires OpsFit(ops)
  {
    if ops == [] then db else Direct(DirectAll(db, ops[..|ops| - 1], hash), ops[|ops| - 1], hash)
  }

  lemma {:induction false} DirectAllAppend(db: Db, ops: seq<Op>, more: seq<Op>, hash: Hash)
    requires OpsFit(ops) && OpsFit(more)
    ensures OpsFit(ops + more) && DirectAll(db, ops + more, hash) == DirectAll(DirectAll(db, ops, hash), more, hash)
    decreases |more|
  {
    if more == [] {
      assert ops + more == ops;
    } else {
      var most := more[..|more| - 1];
      DirectAllAppend(db, ops, most, hash);
      assert (ops + more)[..|ops + more| - 1] == ops + most;
    }
  }

  // --- the buffer ---

  /** A pending string write: an entry without the flag yet. */
  type Pending = e: Entry | Bufferable(e) && e.txStat == 0 ghost witness (PlainFits([1], []); Plain([1], []))

  /** pSet: a pending member and its hash. */
  datatype Member = Member(entry: Pending, sum: Bytes)

  /** What Tx.SAdd appends to pendingSet. */
  function Pendings(hash: Hash, key: Bytes, members: seq<Bytes>): seq<Member>
    requires MembersFit(key, members)
    decreases |members|
  {
    if members == [] then []
    else
      var mem := members[0];
      (if mem == [] then [] else [Member(Plain(key, mem), hash(mem))]) + Pendings(hash, key, members[1..])
  }

  function StrBuffer(ops: seq<Op>): seq<Pending>
    requires OpsFit(ops)
  {
    if ops == [] then []
    else
      var op := ops[|ops| - 1];
      StrBuffer(ops[..|ops| - 1]) + if op.TxSet? then [Plain(op.key, op.value)] else []
  }

  function SetBuffer(ops: seq<Op>, hash: Hash): seq<Member>
    requires OpsFit(ops)
  {
    if ops == [] then []
    else
      var op := ops[|ops| - 1];
      SetBuffer(ops[..|ops| - 1], hash) + if op.TxSAdd? then Pendings(hash, op.key, op.members) else []
  }

  // --- the workers ---

  /** A worker's remaining work, and the place of the entry it has written but not indexed yet. */
  datatype Worker<+T> = Worker(todo: seq<T>, written: Option<Node>)

  type StrWorker = Worker<Pending>
  type SetWorker = Worker<Member>

  function Reindexed(s: OpenStore, key: Bytes, n: Node): OpenStore {
    s.(index := s.index[key := n], queue := Send(s.queue, s.index, key))
  }

  /** One move of the string worker: write the marked entry, or index the one just written. */
  function StrStep(s: OpenStore, w: StrWorker): (OpenStore, StrWorker) {
    if w.todo == [] then (s, w)
    else
      var e := Marked(w.todo[0]);
      match w.written
      case None => (Write(s, e), w.(written := Some(Where(s, e))))
      case Some(n) => (Reindexed(s, e.key, n), Worker(w.todo[1..], None))
  }

  function SetStep(sets: Sets, w: SetWorker): (Sets, SetWorker) {
    if w.todo == [] then (sets, w)
    else
      var e := Marked(w.todo[0].entry);
      match w.written
      case None => (sets.(log := Write(sets.log, e)), w.(written := Some(Where(sets.log, e))))
      case Some(n) => (Indexed(sets, e.key, w.todo[0].sum, n), Worker(w.todo[1..], None))
  }

  /** The whole of a worker's remaining work, uninterrupted. */
  function StrFinish(s: OpenStore, w: StrWorker): OpenStore
    decreases |w.todo|
  {
    if w.todo == [] then s
    else
      var e := Marked(w.todo[0]);
      var s' := if w.written.None? then Put(s, e, true) else Reindexed(s, e.key, w.written.value);
      StrFinish(s', Worker(w.todo[1..], None))
  }

  function SetFinish(sets: Sets, w: SetWorker): Sets
    decreases |w.todo|
  {
    if w.todo == [] then sets
    else
      var e := Marked(w.todo[0].entry);
      var sets' := if w.written.None? then AddEntry(sets, e, w.todo[0].sum) else Indexed(sets, e.key, w.todo[0].sum, w.written.value);
      SetFinish(sets', Worker(w.todo[1..], None))
  }

  lemma StrStepFinish(s: OpenStore, w: StrWorker)
    ensures var (s', w') := StrStep(s, w); StrFinish(s', w') == StrFinish(s, w)
  {
    hide Write, Where, Storable;
    if w.todo != [] && w.written.None? {
      WriteThenIndex(s, Marked(w.todo[0]));
    }
  }

  lemma SetStepFinish(sets: Sets, w: SetWorker)
    ensures var (sets', w') := SetStep(sets, w); SetFinish(sets', w') == SetFinish(sets, w)
  {
    hide Write, Where, Storable;
  }

  lemma {:induction false} StrFinishAppend(s: OpenStore, es: seq<Pending>, e: Pending)
    ensures StrFinish(s, Worker(es + [e], None)) == Put(StrFinish(s, Worker(es, None)), Marked(e), true)
    decreases |es|
  {
    hide Put, Storable;
    if es == [] {
      assert StrFinish(Put(s, Marked(e), true), Worker([], None)) == Put(s, Marked(e), true);
      assert ([] + [e])[1..] == [];
    } else {
      assert (es + [e])[0] == es[0] && (es + [e])[1..] == es[1..] + [e];
      StrFinishAppend(Put(s, Marked(es[0]), true), es[1..], e);
    }
  }

  lemma {:induction false} SetFinishAppend(sets: Sets, ms: seq<Member>, ns: seq<Member>)
    ensures SetFinish(sets, Worker(ms + ns, None)) == SetFinish(SetFinish(sets, Worker(ms, None)), Worker(ns, None))
    decreases |ms|
  {
    hide AddEntry, Storable;
    if ms == [] {
      assert ms + ns == ns;
    } else {
      assert (ms + ns)[0] == ms[0] && (ms + ns)[1..] == ms[1..] + ns;
      SetFinishAppend(AddEntry(sets, Marked(ms[0].entry), ms[0].sum), ms[1..], ns);
    }
  }

  // --- the buffer written out, against the direct calls ---

  /** Alike logs, and the same members at the same places. A set without members may lack its tree. */
  ghost predicate AlikeSets(a: Sets, b: Sets) {
    AlikeStores(a.log, b.log) && forall k :: TreeAt(a, k) == TreeAt(b, k)
  }

  ghost predicate AlikeDbs(a: Db, b: Db) {
    AlikeStores(a.strings, b.strings) && AlikeSets(a.sets, b.sets)
  }

  lemma AddEntryAlike(a: Sets, b: Sets, e: Pending, sum: Bytes)
    requires AlikeSets(a, b)
    ensures AlikeSets(AddEntry(a, Marked(e), sum), AddEntry(b, e, sum))
  {
    hide Write, Where, Storable, AlikeStores, AlikeEntry;
    MarkedAlike(e);
    AlikeSymmetric(e, Marked(e));
    WriteAlike(a.log, b.log, Marked(e), e);
    forall k
      ensures TreeAt(AddEntry(a, Marked(e), sum), k) == TreeAt(AddEntry(b, e, sum), k)
    {
      assert TreeAt(a, k) == TreeAt(b, k);
    }
  }

  lemma AlikeSymmetric(a: Entry, b: Entry)
    requires AlikeEntry(a, b)
    ensures AlikeEntry(b, a)
  {
    hide Size, Storable;
  }

  lemma {:induction false} MembersAlike(a: Sets, b: Sets, hash: Hash, key: Bytes, members: seq<Bytes>)
    requires AlikeSets(a, b) && MembersFit(key, members)
    ensures AlikeSets(SetFinish(a, Worker(Pendings(hash, key, members), None)), AddMembers(b, hash, key, members))
    decreases |members|
  {
    hide AddEntry, Storable, AlikeSets;
    if members != [] {
      var mem := members[0];
      var rest := Pendings(hash, key, members[1..]);
      if mem == [] {
        assert Pendings(hash, key, members) == rest;
        MembersAlike(a, b, hash, key, members[1..]);
      } else {
        var p := Member(Plain(key, mem), hash(mem));
        assert ([p] + rest)[0] == p && ([p] + rest)[1..] == rest;
        AddEntryAlike(a, b, p.entry, p.sum);
        MembersAlike(AddEntry(a, Marked(p.entry), p.sum), AddEntry(b, p.entry, p.sum), hash, key, members[1..]);
      }
    }
  }

  /** Both workers' remaining work. They touch different halves of the database, so the order is of no matter. */
  function Finish(db: Db, str: StrWorker, set_: SetWorker): Db {
    Db(StrFinish(db.strings, str), SetFinish(db.sets, set_))
  }

  /** Writing out the buffer of a transaction is like making its calls directly, in program order. */
  lemma {:induction false} BufferAlike(a: Db, b: Db, ops: seq<Op>, hash: Hash)
    requires AlikeDbs(a, b) && OpsFit(ops)
    ensures AlikeDbs(Finish(a, Worker(StrBuffer(ops), None), Worker(SetBuffer(ops, hash), None)), DirectAll(b, ops, hash))
    decreases |ops|
  {
    hide AlikeDbs, Finish, Direct, StrBuffer, SetBuffer, OpFits;
    if ops == [] {
      NothingBuffered(a, hash);
    } else {
      var most, op := ops[..|ops| - 1], ops[|ops| - 1];
      BufferAlike(a, b, most, hash);
      LastAlike(a, DirectAll(b, most, hash), most, op, hash);
      assert most + [op] == ops;
    }
  }

  lemma NothingBuffered(a: Db, hash: Hash)
    ensures Finish(a, Worker(StrBuffer([]), None), Worker(SetBuffer([], hash), None)) == a
  {
  }

  lemma LastAlike(a: Db, b: Db, most: seq<Op>, op: Op, hash: Hash)
    requires OpsFit(most) && OpFits(op)
    requires AlikeDbs(Finish(a, Worker(StrBuffer(most), None), Worker(SetBuffer(most, hash), None)), b)
    ensures OpsFit(most + [op])
    ensures AlikeDbs(Finish(a, Worker(StrBuffer(most + [op]), None), Worker(SetBuffer(most + [op], hash), None)), Direct(b, op, hash))
  {
    hide AlikeStores, AlikeSets, Put, AddMembers, Storable, StrFinish, SetFinish, Pendings;
    var es, ms := StrBuffer(most), SetBuffer(most, hash);
    assert (most + [op])[..|most|] == most;
    match op
    case TxSet(k, v) =>
      var e: Pending := Plain(k, v);
      StrFinishAppend(a.strings, es, e);
      MarkedAlike(e);
      AlikeSymmetric(e, Marked(e));
      PutAlike(StrFinish(a.strings, Worker(es, None)), b.strings, Marked(e), e, true);
      assert ms + [] == ms;
    case TxSAdd(k, members) =>
      SetFinishAppend(a.sets, ms, Pendings(hash, k, members));
      EnsureTreeAlike(SetFinish(a.sets, Worker(ms, None)), b.sets, k);
      MembersAlike(SetFinish(a.sets, Worker(ms, None)), EnsureTree(b.sets, k), hash, k, members);
      assert es + [] == es;
  }

  lemma EnsureTreeAlike(a: Sets, b: Sets, k: Bytes)
    requires AlikeSets(a, b)
    ensures AlikeSets(a, EnsureTree(b, k)) && AlikeSets(EnsureTree(a, k), b)
  {
    hide AlikeStores;
  }

  // --- the calls and the worker loops themselves ---

  class Transaction {
    var pendingStr: seq<Pending>
    var pendingSet: seq<Member>
    /** The set half of the shared database. */
    const db: SetDatabase

    constructor (db: SetDatabase)
      ensures pendingStr == [] && pendingSet == [] && this.db == db
    {
      pendingStr, pendingSet := [], [];
      this.db := db;
    }

    /** Tx.Set */
    method Set(key: Bytes, value: Bytes)
      requires Bufferable(Plain(key, value))
      modifies this
      ensures pendingStr == old(pendingStr) + [Plain(key, value)] && pendingSet == old(pendingSet)
    {
      pendingStr := pendingStr + [Plain(key, value)];
    }

    /** Tx.SAdd: no entry is written yet, but a tree for the key appears in the shared index. */
    method SAdd(key: Bytes, members: seq<Bytes>)
      requires MembersFit(key, members)
      modifies this, db
      ensures db.sets == EnsureTree(old(db.sets), key)
      ensures pendingSet == old(pendingSet) + Pendings(db.hash, key, members) && pendingStr == old(pendingStr)
    {
      hide Bufferable, EnsureTree, Pendings;
      db.sets := EnsureTree(db.sets, key);
      assert members[0..] == members;
      var i := 0;
      while i < |members|
        invariant 0 <= i <= |members| && pendingStr == old(pendingStr) && db.sets == EnsureTree(old(db.sets), key)
        invariant pendingSet + Pendings(db.hash, key, members[i..]) == old(pendingSet) + Pendings(db.hash, key, members)
      {
        PendingsStep(db.hash, key, members, i);
        if members[i] != [] {
          pendingSet := pendingSet + [Member(Plain(key, members[i]), db.hash(members[i]))];
        }
        i := i + 1;
      }
      assert members[i..] == [];
      PendingsNone(db.hash, key);
    }
  }

  lemma PendingsStep(hash: Hash, key: Bytes, members: seq<Bytes>, i: nat)
    requires MembersFit(key, members) && i < |members|
    ensures Pendings(hash, key, members[i..])
            == (if members[i] == [] then [] else [Member(Plain(key, members[i]), hash(members[i]))]) + Pendings(hash, key, members[i + 1..])
  {
    hide Storable;
    assert members[i..][0] == members[i] && members[i..][1..] == members[i + 1..];
  }

  lemma PendingsNone(hash: Hash, key: Bytes)
    ensures Pendings(hash, key, []) == []
  {
  }

  /** The string worker's loop, without interruption. */
  method WriteStrings(strings: OpenStore, pending: seq<Pending>) returns (r: OpenStore)
    ensures r == StrFinish(strings, Worker(pending, None))
  {
    hide Storable, Put, Write, Where;
    r := strings;
    var i := 0;
    while i < |pending|
      invariant 0 <= i <= |pending|
      invariant StrFinish(r, Worker(pending[i..], None)) == StrFinish(strings, Worker(pending, None))
    {
      assert pending[i..][0] == pending[i] && pending[i..][1..] == pending[i + 1..];
      var e := Marked(pending[i]);
      WriteThenIndex(r, e);
      var pos := Where(r, e);
      r := Write(r, e);
      r := Reindexed(r, e.key, pos);
      i := i + 1;
    }
  }

  lemma WriteThenIndex(s: OpenStore, e: Entry)
    requires Storable(e)
    ensures Reindexed(Write(s, e), e.key, Where(s, e)) == Put(s, e, true)
  {
    hide Storable, Write, Where;
    WriteKeepsIndex(s, e);
  }

  /** The set worker's loop, without interruption. */
  method WriteMembers(sets: Sets, pending: seq<Member>) returns (r: Sets)
    ensures r == SetFinish(sets, Worker(pending, None))
  {
    hide Storable, Write, Where;
    r := sets;
    var i := 0;
    while i < |pending|
      invariant 0 <= i <= |pending|
      invariant SetFinish(r, Worker(pending[i..], None)) == SetFinish(sets, Worker(pending, None))
    {
      assert pending[i..][0] == pending[i] && pending[i..][1..] == pending[i + 1..];
      var e := Marked(pending[i].entry);
      var pos := Where(r.log, e);
      r := r.(log := Write(r.log, e));
      r := Indexed(r, e.key, pending[i].sum, pos);
      i := i + 1;
    }
  }
}
