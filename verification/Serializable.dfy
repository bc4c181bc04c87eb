/** Whole runs of transactions: isolation, and the database as if the committed transactions had run one by one. */
module Serializable {
  import opened Bytes
  import opened LogEntry
  import opened Store
  import opened Refinement
  import opened Alike
  import opened SetDb
  import opened TxWorkers
  import opened Transactions

  /** A transaction with buffered calls is in the middle of its commit. */
  predicate Busy(s: System, id: nat) {
    InCommit(s, id) && s.txs[id].ops != []
  }

  /** No commit with buffered calls is under way. */
  predicate Quiet(s: System) {
    forall id :: id in s.txs ==> !Busy(s, id)
  }

  /** The database with what the commit of `id` has yet to do. */
  function Completed(s: System, id: nat): Db
    requires InCommit(s, id)
  {
    Finish(s.db, s.txs[id].phase.str, s.txs[id].phase.set_)
  }

  /** The database is that of the committed calls made one by one, or is on its way to the next such state. */
  ghost predicate DataInv(s: System, db0: Db, hash: Hash) {
    && OpsFit(s.committed)
    && (Quiet(s) ==> AlikeDbs(s.db, DirectAll(db0, s.committed, hash)))
    && (forall id, other :: Busy(s, id) && Busy(s, other) ==> id == other)
    && forall id :: Busy(s, id) ==>
                      OpsFit(s.committed + s.txs[id].ops)
                      && AlikeDbs(Completed(s, id), DirectAll(db0, s.committed + s.txs[id].ops, hash))
  }

  ghost predicate Inv(s: System, db0: Db, hash: Hash) {
    LockInv(s) && TxsOk(s, hash) && DataInv(s, db0, hash)
  }

  /** What a caller of Commit has to see to: that no other commit with buffered calls is under way. */
  predicate Guarded(s: System, ev: Event) {
    ev.Commits? && ev.id in s.txs && s.txs[ev.id].phase.Open? && s.txs[ev.id].ops != [] ==> Quiet(s)
  }

  /** An RWTX is always guarded: the lock sees to it. */
  lemma WriterGuarded(s: System, id: nat)
    requires LockInv(s) && Enabled(s, Commits(id)) && s.txs[id].writer && s.txs[id].phase.Open?
    ensures Guarded(s, Commits(id))
  {
    forall other | other in s.txs
      ensures !Busy(s, other)
    {
      if InCommit(s, other) {
        OnlyWriter(s, id, other);
      }
    }
  }

  lemma CommitsData(s: System, id: nat, db0: Db, hash: Hash)
    requires Inv(s, db0, hash) && Enabled(s, Commits(id)) && Guarded(s, Commits(id))
    ensures DataInv(Next(s, Commits(id), hash), db0, hash)
  {
    hide AlikeDbs, OpsFit, LockInv, Finish, DirectAll, StrBuffer, SetBuffer, Prepared;
    var tx, r := s.txs[id], Next(s, Commits(id), hash);
    if tx.ops != [] && tx.phase.Open? && !s.closed {
      assert TxOk(tx, s.db.sets, hash);
      BufferAlike(s.db, DirectAll(db0, s.committed, hash), tx.ops, hash);
      DirectAllAppend(db0, s.committed, tx.ops, hash);
      assert Busy(r, id) && forall other :: Busy(r, other) ==> other == id || Busy(s, other);
    } else if tx.phase.Open? && !s.closed {
      SameBusy(s, r, db0, hash);
    }
  }

  /** A step that leaves the database and the busy commits alone keeps the data invariant. */
  lemma SameBusy(s: System, r: System, db0: Db, hash: Hash)
    requires DataInv(s, db0, hash) && r.db == s.db && r.committed == s.committed
    requires forall id :: Busy(s, id) ==> id in r.txs && r.txs[id] == s.txs[id]
    requires forall id :: Busy(r, id) ==> id in s.txs && r.txs[id] == s.txs[id]
    ensures DataInv(r, db0, hash)
  {
    hide AlikeDbs, OpsFit, Finish, DirectAll;
    if Quiet(r) {
      assert Quiet(s);
    }
    forall id | Busy(r, id)
      ensures Busy(s, id) && OpsFit(r.committed + r.txs[id].ops) && AlikeDbs(Completed(r, id), DirectAll(db0, r.committed + r.txs[id].ops, hash))
    {
      assert Busy(s, id) && Completed(r, id) == Completed(s, id);
    }
  }

  /** The same log and the same members, up to trees without members. */
  ghost predicate SameSets(a: Sets, b: Sets) {
    a.log == b.log && forall k :: TreeAt(a, k) == TreeAt(b, k)
  }

  lemma {:induction false} FinishSame(a: Sets, b: Sets, w: SetWorker)
    requires SameSets(a, b)
    ensures SameSets(SetFinish(a, w), SetFinish(b, w))
    decreases |w.todo|
  {
    hide Write, Where, Storable;
    if w.todo != [] {
      var e, sum := Marked(w.todo[0].entry), w.todo[0].sum;
      var a' := if w.written.None? then AddEntry(a, e, sum) else Indexed(a, e.key, sum, w.written.value);
      var b' := if w.written.None? then AddEntry(b, e, sum) else Indexed(b, e.key, sum, w.written.value);
      forall k
        ensures TreeAt(a', k) == TreeAt(b', k)
      {
        assert TreeAt(a, k) == TreeAt(b, k) && TreeAt(a, e.key) == TreeAt(b, e.key);
      }
      FinishSame(a', b', Worker(w.todo[1..], None));
    }
  }

  /** A tree created during a commit makes no difference to where the commit ends. */
  lemma TouchedFinish(db: Db, op: Op, str: StrWorker, set_: SetWorker, d: Db)
    requires AlikeDbs(Finish(db, str, set_), d)
    ensures AlikeDbs(Finish(Touched(db, op), str, set_), d)
  {
    hide AlikeStores, StrFinish, SetFinish;
    if op.TxSAdd? {
      assert SameSets(EnsureTree(db.sets, op.key), db.sets);
      FinishSame(EnsureTree(db.sets, op.key), db.sets, set_);
      assert forall k :: TreeAt(SetFinish(EnsureTree(db.sets, op.key), set_), k) == TreeAt(SetFinish(db.sets, set_), k);
    }
  }

  lemma NothingToFinish(db: Db)
    ensures Finish(db, Worker([], None), Worker([], None)) == db
  {
  }

  lemma CallsData(s: System, id: nat, op: Op, db0: Db, hash: Hash)
    requires Inv(s, db0, hash) && Enabled(s, Calls(id, op))
    ensures DataInv(Next(s, Calls(id, op), hash), db0, hash)
  {
    hide AlikeDbs, OpsFit, LockInv, Finish, DirectAll, TxsOk, Touched, OpFits, Buffered;
    var r := Next(s, Calls(id, op), hash);
    BufferedOpen(s.txs[id], op, hash);
    assert forall other :: Busy(r, other) <==> Busy(s, other);
    NothingToFinish(s.db);
    NothingToFinish(Touched(s.db, op));
    if Quiet(r) {
      assert Quiet(s);
      TouchedFinish(s.db, op, Worker([], None), Worker([], None), DirectAll(db0, s.committed, hash));
    }
    forall other | Busy(r, other)
      ensures OpsFit(r.committed + r.txs[other].ops) && AlikeDbs(Completed(r, other), DirectAll(db0, r.committed + r.txs[other].ops, hash))
    {
      assert other != id && r.txs[other] == s.txs[other];
      TouchedFinish(s.db, op, s.txs[other].phase.str, s.txs[other].phase.set_, DirectAll(db0, s.committed + s.txs[other].ops, hash));
    }
  }

  lemma BufferedOpen(tx: Tx, op: Op, hash: Hash)
    requires OpFits(op)
    ensures Buffered(tx, op, hash).phase == tx.phase && Buffered(tx, op, hash).writer == tx.writer
  {
    hide OpFits, Pendings;
  }

  lemma MovesData(s: System, id: nat, strings: bool, db0: Db, hash: Hash)
    requires Inv(s, db0, hash) && Enabled(s, Moves(id, strings))
    ensures DataInv(Next(s, Moves(id, strings), hash), db0, hash)
  {
    hide AlikeDbs, OpsFit, LockInv, DirectAll, StrStep, SetStep, StrFinish, SetFinish, Prepared, StrBuffer, SetBuffer;
    var tx, r := s.txs[id], Next(s, Moves(id, strings), hash);
    assert TxOk(tx, s.db.sets, hash);
    SetStepOk(s.db.sets, tx.phase.set_);
    StrStepIdle(s.db.strings, tx.phase.str);
    if tx.ops != [] {
      StrStepFinish(s.db.strings, tx.phase.str);
      SetStepFinish(s.db.sets, tx.phase.set_);
      assert Completed(r, id) == Completed(s, id) && Busy(r, id) && Busy(s, id);
      assert forall other :: Busy(r, other) ==> other == id || Busy(s, other);
    } else {
      assert r.db == s.db;
      SameBusy(s, r, db0, hash);
    }
  }

  lemma EndsData(s: System, id: nat, db0: Db, hash: Hash)
    requires Inv(s, db0, hash) && Enabled(s, Ends(id))
    ensures DataInv(Next(s, Ends(id), hash), db0, hash)
  {
    hide AlikeDbs, OpsFit, LockInv, DirectAll, TxsOk, Unlock;
    var tx, r := s.txs[id], Next(s, Ends(id), hash);
    if tx.ops != [] {
      assert Completed(s, id) == s.db && Busy(s, id);
      assert forall other :: Busy(r, other) ==> other != id && Busy(s, other);
    } else {
      assert s.committed + tx.ops == s.committed;
      SameBusy(s, r, db0, hash);
    }
  }

  lemma RollsBackData(s: System, id: nat, db0: Db, hash: Hash)
    requires Inv(s, db0, hash) && Enabled(s, RollsBack(id))
    ensures DataInv(Next(s, RollsBack(id), hash), db0, hash)
  {
    hide AlikeDbs, OpsFit, LockInv, DirectAll, TxsOk, Unlock;
    SameBusy(s, Next(s, RollsBack(id), hash), db0, hash);
  }

  lemma NextInv(s: System, ev: Event, db0: Db, hash: Hash)
    requires Inv(s, db0, hash) && Enabled(s, ev) && Guarded(s, ev)
    ensures Inv(Next(s, ev, hash), db0, hash)
  {
    hide LockInv, TxsOk, OpFits, DataInv;
    NextLock(s, ev, hash);
    NextTxs(s, ev, hash);
    match ev
    case Begins(_, _) => BeginsData(s, ev, db0, hash);
    case Calls(id, op) => CallsData(s, id, op, db0, hash);
    case Commits(id) => CommitsData(s, id, db0, hash);
    case Moves(id, strings) => MovesData(s, id, strings, db0, hash);
    case Ends(id) => EndsData(s, id, db0, hash);
    case RollsBack(id) => RollsBackData(s, id, db0, hash);
    case CloseDb => BeginsData(s, ev, db0, hash);
  }

  lemma BeginsData(s: System, ev: Event, db0: Db, hash: Hash)
    requires DataInv(s, db0, hash) && Enabled(s, ev) && (ev.Begins? || ev.CloseDb?)
    ensures DataInv(Next(s, ev, hash), db0, hash)
  {
    hide AlikeDbs, OpsFit, LockInv, DirectAll, TxsOk, Unlock;
    SameBusy(s, Next(s, ev, hash), db0, hash);
  }

  // --- runs ---

  function Start(db0: Db): System {
    System(db0, Mutex(0, false), map[], {}, [], false, false)
  }

  /** A run from a database without transactions, with the state before and after each event. */
  predicate Run(ss: seq<System>, evs: seq<Event>, db0: Db, hash: Hash) {
    && |ss| == |evs| + 1 && ss[0] == Start(db0)
    && forall i :: 0 <= i < |evs| ==> Enabled(ss[i], evs[i]) && ss[i + 1] == Next(ss[i], evs[i], hash)
  }

  predicate AllGuarded(ss: seq<System>, evs: seq<Event>)
    requires |ss| == |evs| + 1
  {
    forall i :: 0 <= i < |evs| ==> Guarded(ss[i], evs[i])
  }

  /** Only RWTX transactions make calls. */
  predicate WritersOnly(ss: seq<System>, evs: seq<Event>)
    requires |ss| == |evs| + 1
  {
    forall i, id :: 0 <= i < |ss| && id in ss[i].txs && !ss[i].txs[id].writer ==> ss[i].txs[id].ops == []
  }

  /** Runs in which only RWTX transactions make calls are guarded. */
  lemma WritersGuarded(ss: seq<System>, evs: seq<Event>, db0: Db, hash: Hash)
    requires Run(ss, evs, db0, hash) && WritersOnly(ss, evs)
    ensures AllGuarded(ss, evs)
  {
    hide LockInv, TxsOk, Next;
    forall i | 0 <= i < |evs|
      ensures Guarded(ss[i], evs[i])
    {
      RunLocks(ss, evs, db0, hash, i);
      if evs[i].Commits? && ss[i].txs[evs[i].id].phase.Open? && ss[i].txs[evs[i].id].ops != [] {
        WriterGuarded(ss[i], evs[i].id);
      }
    }
  }

  lemma {:induction false} RunLocks(ss: seq<System>, evs: seq<Event>, db0: Db, hash: Hash, i: nat)
    requires Run(ss, evs, db0, hash) && i < |ss|
    ensures LockInv(ss[i]) && TxsOk(ss[i], hash)
  {
    hide Enabled, Next, TxOk;
    if i > 0 {
      RunLocks(ss, evs, db0, hash, i - 1);
      NextLock(ss[i - 1], evs[i - 1], hash);
      NextTxs(ss[i - 1], evs[i - 1], hash);
    }
  }

  /**
   Isolation. In every state of every run, an open RWTX is the only open transaction, a transaction has called
   unlock once if it is finished and never otherwise, and until the database is closed the lock is
   held by the open transactions and no unlock is fatal.
   */
  lemma Isolation(ss: seq<System>, evs: seq<Event>, db0: Db, hash: Hash, i: nat, id: nat)
    requires Run(ss, evs, db0, hash) && i < |ss| && id in ss[i].txs
    ensures ss[i].txs[id].unlocks == if ss[i].txs[id].phase.Closed? then 1 else 0
    ensures ss[i].txs[id].writer && !ss[i].txs[id].phase.Closed? ==> forall other :: other in ss[i].txs && !ss[i].txs[other].phase.Closed? ==> other == id
    ensures !ss[i].closed ==> !ss[i].crashed && ss[i].mutex == Mutex(|OpenIds(ss[i].txs, false)|, OpenIds(ss[i].txs, true) != {})
  {
    hide StrBuffer, SetBuffer, OpsFit, Prepared, Run;
    RunLocks(ss, evs, db0, hash, i);
    var s := ss[i];
    assert TxOk(s.txs[id], s.db.sets, hash);
    if s.txs[id].writer && !s.txs[id].phase.Closed? {
      forall other | other in s.txs && !s.txs[other].phase.Closed?
        ensures other == id
      {
        OnlyWriter(s, id, other);
      }
    }
  }

  /** Begin on a closed database releases a lock it does not hold: the program dies unless some transaction of that kind does. */
  lemma BeginOnClosed(s: System, id: nat, writer: bool, hash: Hash)
    requires s.closed && Enabled(s, Begins(id, writer))
    ensures Next(s, Begins(id, writer), hash).crashed <==> if writer then !s.mutex.writer else s.mutex.readers == 0
    ensures Next(s, Begins(id, writer), hash).txs == s.txs
  {
  }

  /** No commit is under way in a closed database. */
  ghost predicate Frozen(s: System) {
    s.closed ==> forall id :: !InCommit(s, id)
  }

  lemma NextFrozen(s: System, ev: Event, hash: Hash)
    requires Enabled(s, ev) && Frozen(s)
    ensures Frozen(Next(s, ev, hash)) && (s.closed ==> Next(s, ev, hash).closed)
  {
    hide StrStep, SetStep, Pendings, OpFits, Unlock, Touched;
    var r := Next(s, ev, hash);
    if r.closed {
      forall id
        ensures !InCommit(r, id)
      {
        assert !InCommit(s, id);
      }
    }
  }

  lemma NextClosed(s: System, ev: Event, hash: Hash, id: nat)
    requires Enabled(s, ev) && Frozen(s) && s.closed
    ensures var r := Next(s, ev, hash);
            && r.db.strings == s.db.strings && r.committed == s.committed && (id in r.txs <==> id in s.txs)
            && (id in s.txs ==> r.txs[id].phase == s.txs[id].phase && r.txs[id].unlocks == s.txs[id].unlocks)
  {
    hide StrStep, SetStep, Pendings, OpFits, Unlock;
  }

  lemma {:induction false} RunFrozen(ss: seq<System>, evs: seq<Event>, db0: Db, hash: Hash, i: nat)
    requires Run(ss, evs, db0, hash) && i < |ss|
    ensures Frozen(ss[i])
  {
    hide Enabled, Next, Frozen;
    if i > 0 {
      RunFrozen(ss, evs, db0, hash, i - 1);
      NextFrozen(ss[i - 1], evs[i - 1], hash);
    } else {
      assert Frozen(Start(db0)) by { StartFrozen(db0); }
    }
  }

  lemma StartFrozen(db0: Db)
    ensures Frozen(Start(db0))
  {
  }

  /**
   A closed database. From then on no call of Commit or Rollback ends a transaction: none begins, commits or gives its lock
   back, and the strings stay as they are.
   */
  lemma {:induction false} ClosedStays(ss: seq<System>, evs: seq<Event>, db0: Db, hash: Hash, i: nat, j: nat, id: nat)
    requires Run(ss, evs, db0, hash) && i <= j < |ss| && ss[i].closed
    ensures ss[j].closed && ss[j].db.strings == ss[i].db.strings && ss[j].committed == ss[i].committed
    ensures id in ss[j].txs <==> id in ss[i].txs
    ensures id in ss[i].txs ==> ss[j].txs[id].phase == ss[i].txs[id].phase && ss[j].txs[id].unlocks == ss[i].txs[id].unlocks
    decreases j
  {
    hide Enabled, Next, Frozen;
    if i < j {
      ClosedStays(ss, evs, db0, hash, i, j - 1, id);
      RunFrozen(ss, evs, db0, hash, j - 1);
      NextFrozen(ss[j - 1], evs[j - 1], hash);
      NextClosed(ss[j - 1], evs[j - 1], hash, id);
    }
  }

  lemma {:induction false} RunInv(ss: seq<System>, evs: seq<Event>, db0: Db, hash: Hash, i: nat)
    requires Run(ss, evs, db0, hash) && AllGuarded(ss, evs) && i < |ss|
    ensures Inv(ss[i], db0, hash)
  {
    hide Enabled, Next, TxOk, Guarded;
    if i == 0 {
      StartData(db0, hash);
    } else {
      RunInv(ss, evs, db0, hash, i - 1);
      NextInv(ss[i - 1], evs[i - 1], db0, hash);
    }
  }

  lemma StartData(db0: Db, hash: Hash)
    ensures DataInv(Start(db0), db0, hash)
  {
    hide AlikeStores;
    AlikeSelf(db0.strings);
    AlikeSelf(db0.sets.log);
  }

  /**
   Commit. In every state of every guarded run, with transactions of either kind and whatever way the workers of a
   commit interleave, once no commit is under way Get and SIsMember answer as if exactly the calls of the committed
   transactions had been made on the database one by one, in the order of the commits. Transactions that are open or
   were rolled back show nowhere.
   */
  lemma CommittedReads(ss: seq<System>, evs: seq<Event>, db0: Db, hash: Hash, i: nat, key: Bytes, mem: Bytes, now: int)
    requires Run(ss, evs, db0, hash) && AllGuarded(ss, evs) && i < |ss| && Quiet(ss[i])
    ensures OpsFit(ss[i].committed)
    ensures Get(ss[i].db.strings, key, now) == Get(DirectAll(db0, ss[i].committed, hash).strings, key, now)
    ensures IsMember(ss[i].db.sets, hash, key, mem) <==> IsMember(DirectAll(db0, ss[i].committed, hash).sets, hash, key, mem)
  {
    hide Get, DirectAll, Run, AllGuarded, LockInv, TxsOk, OpsFit, AlikeStores;
    RunInv(ss, evs, db0, hash, i);
    var a, b := ss[i].db, DirectAll(db0, ss[i].committed, hash);
    GetAlike(a.strings, b.strings, key, now);
    assert TreeAt(a.sets, key) == TreeAt(b.sets, key);
  }

  // --- rollback ---

  /** While nothing is busy, a step changes no string and no member, whatever it buffers or throws away. */
  lemma QuietStep(s: System, ev: Event, hash: Hash)
    requires TxsOk(s, hash) && Quiet(s) && Enabled(s, ev)
    ensures var r := Next(s, ev, hash); r.db.strings == s.db.strings && SameSets(r.db.sets, s.db.sets)
  {
    hide StrStep, SetStep, Pendings, OpFits, OpsFit, StrBuffer, SetBuffer, Prepared;
    if ev.Moves? {
      var tx := s.txs[ev.id];
      assert TxOk(tx, s.db.sets, hash);
      SetStepOk(s.db.sets, tx.phase.set_);
      StrStepIdle(s.db.strings, tx.phase.str);
    }
  }

  /** A busy commit stays busy until its end, which makes the list of committed calls longer. */
  lemma BusyStep(s: System, ev: Event, id: nat, hash: Hash)
    requires Enabled(s, ev)
    ensures var r := Next(s, ev, hash);
            && |s.committed| <= |r.committed| && (|s.committed| == |r.committed| ==> s.committed == r.committed)
            && (Busy(s, id) && |s.committed| == |r.committed| ==> Busy(r, id))
  {
    hide StrStep, SetStep, Pendings, OpFits, Touched;
  }

  lemma {:induction false} CommittedGrows(ss: seq<System>, evs: seq<Event>, db0: Db, hash: Hash, i: nat, j: nat)
    requires Run(ss, evs, db0, hash) && i <= j < |ss|
    ensures |ss[i].committed| <= |ss[j].committed|
    decreases j
  {
    hide Enabled, Next;
    if i < j {
      CommittedGrows(ss, evs, db0, hash, i, j - 1);
      BusyStep(ss[j - 1], evs[j - 1], 0, hash);
    }
  }

  /**
   Rollback. In every run, between any two points with as many commits no answer differs, if none is under way at the
   later one: what was buffered, rolled back or is still open shows nowhere.
   */
  lemma {:induction false} RollbackUnseen(ss: seq<System>, evs: seq<Event>, db0: Db, hash: Hash, i: nat, j: nat, key: Bytes, mem: Bytes, now: int)
    requires Run(ss, evs, db0, hash) && i <= j < |ss| && Quiet(ss[j]) && ss[i].committed == ss[j].committed
    ensures Get(ss[i].db.strings, key, now) == Get(ss[j].db.strings, key, now)
    ensures IsMember(ss[i].db.sets, hash, key, mem) <==> IsMember(ss[j].db.sets, hash, key, mem)
    decreases j
  {
    hide Get, Enabled, Next, TxsOk, LockInv, Busy;
    if i < j {
      var s := ss[j - 1];
      CommittedGrows(ss, evs, db0, hash, i, j - 1);
      BusyStep(s, evs[j - 1], 0, hash);
      forall id | id in s.txs
        ensures !Busy(s, id)
      {
        BusyStep(s, evs[j - 1], id, hash);
        BusyKnown(ss[j], id);
      }
      RollbackUnseen(ss, evs, db0, hash, i, j - 1, key, mem, now);
      RunLocks(ss, evs, db0, hash, j - 1);
      QuietStep(s, evs[j - 1], hash);
      SameMember(ss[j].db.sets, s.db.sets, hash, key, mem);
    }
  }

  lemma BusyKnown(s: System, id: nat)
    ensures Busy(s, id) ==> id in s.txs
  {
  }

  lemma SameMember(a: Sets, b: Sets, hash: Hash, key: Bytes, mem: Bytes)
    requires SameSets(a, b)
    ensures IsMember(a, hash, key, mem) <==> IsMember(b, hash, key, mem)
  {
    assert TreeAt(a, key) == TreeAt(b, key);
  }

  // --- what the committed calls mean ---

  function FoldSets(m: Contents, ops: seq<Op>): Contents {
    if ops == [] then m
    else
      var before, op := FoldSets(m, ops[..|ops| - 1]), ops[|ops| - 1];
      if op.TxSet? then before[op.key := Cell(op.value, 0)] else before
  }

  predicate Adds(op: Op, key: Bytes, mem: Bytes) {
    op.TxSAdd? && op.key == key && mem != [] && mem in op.members
  }

  /** The calls, folded into a plain map and plain sets. */
  lemma {:induction false} DirectMeans(db0: Db, m: Contents, merged: int, ops: seq<Op>, hash: Hash, key: Bytes, mem: Bytes)
    requires Refines(db0.strings, m, merged) && OpsFit(ops) && Injective(hash)
    ensures Refines(DirectAll(db0, ops, hash).strings, FoldSets(m, ops), merged)
    ensures IsMember(DirectAll(db0, ops, hash).sets, hash, key, mem)
            <==> IsMember(db0.sets, hash, key, mem) || exists i :: 0 <= i < |ops| && Adds(ops[i], key, mem)
    decreases |ops|
  {
    hide Refines, IsMember, Put, Add, Bufferable, MembersFit, Injective, Adds;
    if ops != [] {
      var most, op := ops[..|ops| - 1], ops[|ops| - 1];
      DirectMeans(db0, m, merged, most, hash, key, mem);
      OneMeans(DirectAll(db0, most, hash), FoldSets(m, most), merged, op, hash, key, mem);
      assert ops == most + [op];
      assert forall i :: 0 <= i < |most| ==> ops[i] == most[i];
    }
  }

  lemma OneMeans(db: Db, m: Contents, merged: int, op: Op, hash: Hash, key: Bytes, mem: Bytes)
    requires Refines(db.strings, m, merged) && OpFits(op) && Injective(hash)
    ensures Refines(Direct(db, op, hash).strings, FoldSets(m, [op]), merged)
    ensures FoldSets(m, [op]) == if op.TxSet? then m[op.key := Cell(op.value, 0)] else m
    ensures IsMember(Direct(db, op, hash).sets, hash, key, mem) <==> IsMember(db.sets, hash, key, mem) || Adds(op, key, mem)
  {
    hide Refines, IsMember, Put, Add, Storable, MembersFit, Injective;
    assert FoldSets(m, []) == m && [op][..0] == [];
    match op
    case TxSet(k, v) => PutRefines(db.strings, m, merged, Plain(k, v), true);
    case TxSAdd(k, ms) => AddMember(db.sets, hash, k, ms, key, mem);
  }

  /** Reads after any run, in plain terms: the last committed write of a key, and all committed members. */
  lemma CommittedAnswers(ss: seq<System>, evs: seq<Event>, db0: Db, m: Contents, merged: int, hash: Hash, i: nat, key: Bytes, mem: Bytes, now: int)
    requires Run(ss, evs, db0, hash) && AllGuarded(ss, evs) && i < |ss| && Quiet(ss[i])
    requires Refines(db0.strings, m, merged) && Injective(hash)
    ensures forall v :: Get(ss[i].db.strings, key, now) == Found(v)
                        <==> Lookup(FoldSets(m, ss[i].committed), key, now) == Some(v) && HasRoom(ss[i].db.strings, key)
    ensures IsMember(ss[i].db.sets, hash, key, mem)
            <==> IsMember(db0.sets, hash, key, mem) || exists j :: 0 <= j < |ss[i].committed| && Adds(ss[i].committed[j], key, mem)
  {
    hide Get, DirectAll, Run, AllGuarded, Quiet, IsMember, Refines, Injective, Lookup, Adds, FoldSets, OpsFit;
    CommittedReads(ss, evs, db0, hash, i, key, mem, now);
    DirectMeans(db0, m, merged, ss[i].committed, hash, key, mem);
    var b := DirectAll(db0, ss[i].committed, hash);
    GetRefines(b.strings, FoldSets(m, ss[i].committed), merged, key, now);
    RunRoom(ss, evs, db0, hash, i, key);
  }

  /** The last call that sets the key gives it this value. */
  predicate SetsLast(ops: seq<Op>, n: nat, k: Bytes, v: Bytes) {
    n < |ops| && ops[n] == TxSet(k, v) && forall j :: n < j < |ops| ==> !(ops[j].TxSet? && ops[j].key == k)
  }

  lemma {:induction false} FoldedLast(ops: seq<Op>, k: Bytes, v: Bytes, now: int)
    ensures Lookup(FoldSets(map[], ops), k, now) == Some(v) <==> exists n: nat :: SetsLast(ops, n, k, v)
    decreases |ops|
  {
    if ops != [] {
      var most, last := ops[..|ops| - 1], |ops| - 1;
      FoldedLast(most, k, v, now);
      if ops[last].TxSet? && ops[last].key == k {
        assert ops[last].value == v ==> SetsLast(ops, last, k, v);
      } else {
        forall n: nat
          ensures SetsLast(ops, n, k, v) <==> SetsLast(most, n, k, v)
        {
        }
      }
    }
  }

  /** From a new database on: Get finds exactly the last committed value of a key, and SIsMember exactly the committed members. */
  lemma FreshAnswers(ss: seq<System>, evs: seq<Event>, maxSize: nat, sets: OpenStore, hash: Hash, i: nat, key: Bytes, mem: Bytes, now: int)
    requires maxSize > 0 && Run(ss, evs, Db(Empty(maxSize), Sets(sets, map[])), hash) && AllGuarded(ss, evs) && i < |ss| && Quiet(ss[i]) && Injective(hash)
    ensures forall v :: Get(ss[i].db.strings, key, now) == Found(v)
                        <==> (exists n: nat :: SetsLast(ss[i].committed, n, key, v)) && HasRoom(ss[i].db.strings, key)
    ensures IsMember(ss[i].db.sets, hash, key, mem)
            <==> exists j :: 0 <= j < |ss[i].committed| && ss[i].committed[j].TxSAdd? && ss[i].committed[j].key == key
                             && mem != [] && mem in ss[i].committed[j].members
  {
    hide Get, Run, AllGuarded, Quiet, IsMember, Injective, SetsLast, FoldSets, Lookup, HasRoom;
    CommittedAnswers(ss, evs, Db(Empty(maxSize), Sets(sets, map[])), map[], 0, hash, i, key, mem, now);
    NothingYet(sets, hash, key, mem);
    forall v
      ensures Lookup(FoldSets(map[], ss[i].committed), key, now) == Some(v) <==> exists n: nat :: SetsLast(ss[i].committed, n, key, v)
    {
      FoldedLast(ss[i].committed, key, v, now);
    }
  }

  lemma RunRoom(ss: seq<System>, evs: seq<Event>, db0: Db, hash: Hash, i: nat, key: Bytes)
    requires Run(ss, evs, db0, hash) && AllGuarded(ss, evs) && i < |ss| && Quiet(ss[i])
    ensures OpsFit(ss[i].committed)
    ensures HasRoom(ss[i].db.strings, key) <==> HasRoom(DirectAll(db0, ss[i].committed, hash).strings, key)
  {
    hide DirectAll, Run, AllGuarded, LockInv, TxsOk, OpsFit, AlikeSets;
    RunInv(ss, evs, db0, hash, i);
    var a, b := ss[i].db.strings, DirectAll(db0, ss[i].committed, hash).strings;
    if key in a.index && a.index[key].fid in a.files {
      assert AlikeFile(a.files[a.index[key].fid], b.files[a.index[key].fid]);
    }
  }
}
