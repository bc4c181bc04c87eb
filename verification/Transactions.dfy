/** Transactions (tx.go) as a state machine: the lock, the open transactions and their commits, in any interleaving. */
module Transactions {
  import opened Bytes
  import opened LogEntry
  import opened Store
  import opened Alike
  import opened SetDb
  import opened TxWorkers

  datatype Phase = Open | Committing(str: StrWorker, set_: SetWorker) | Closed

  /** `ops` are the calls made so far and `unlocks` counts the calls of unlock. RWTX is `writer`. */
  datatype Tx = Tx(writer: bool, ops: seq<Op>, pendingStr: seq<Pending>, pendingSet: seq<Member>, phase: Phase, unlocks: nat)

  /** sync.RWMutex */
  datatype Mutex = Mutex(readers: nat, writer: bool)

  /** `done` are the transactions that committed, and `committed` their calls in the order of the commits. */
  datatype System = System(db: Db, mutex: Mutex, txs: map<nat, Tx>, done: set<nat>, committed: seq<Op>, closed: bool, crashed: bool)

  predicate CanLock(m: Mutex, writer: bool) {
    !m.writer && (writer ==> m.readers == 0)
  }

  function Lock(m: Mutex, writer: bool): Mutex {
    if writer then m.(writer := true) else m.(readers := m.readers + 1)
  }

  /** Unlock and RUnlock; None is the runtime's fatal error for a mutex that is not locked. */
  function Unlock(m: Mutex, writer: bool): Option<Mutex> {
    if writer then (if m.writer then Some(m.(writer := false)) else None)
    else if m.readers > 0 then Some(m.(readers := m.readers - 1)) else None
  }

  function Unlocked(s: System, writer: bool): System {
    match Unlock(s.mutex, writer)
    case None => s.(crashed := true)
    case Some(m) => s.(mutex := m)
  }

  datatype Event =
    | Begins(id: nat, writer: bool)
    | Calls(id: nat, op: Op)
    | Commits(id: nat)
    | Moves(id: nat, strings: bool)
    | Ends(id: nat)
    | RollsBack(id: nat)
    | CloseDb

  function Fresh(writer: bool): Tx {
    Tx(writer, [], [], [], Open, 0)
  }

  /** Tx.Set and Tx.SAdd: into the buffer. */
  function Buffered(tx: Tx, op: Op, hash: Hash): Tx
    requires OpFits(op)
  {
    var t := tx.(ops := tx.ops + [op]);
    match op
    case TxSet(k, v) => t.(pendingStr := tx.pendingStr + [Plain(k, v)])
    case TxSAdd(k, ms) => t.(pendingSet := tx.pendingSet + Pendings(hash, k, ms))
  }

  /** Tx.SAdd creates the tree at once, on the shared index. */
  function Touched(db: Db, op: Op): Db {
    if op.TxSAdd? then db.(sets := EnsureTree(db.sets, op.key)) else db
  }

  predicate InCommit(s: System, id: nat) {
    id in s.txs && s.txs[id].phase.Committing?
  }

  /**
   When an event can happen. Begin waits for the lock. Each transaction is used by one goroutine at a time, and the
   database is not closed in the middle of a commit.
   */
  predicate Enabled(s: System, ev: Event) {
    && !s.crashed
    && match ev
       case Begins(id, writer) => id !in s.txs && (s.closed || CanLock(s.mutex, writer))
       case Calls(id, op) => id in s.txs && s.txs[id].phase.Open? && OpFits(op)
       case Commits(id) => id in s.txs && !InCommit(s, id)
       case Moves(id, _) => InCommit(s, id)
       case Ends(id) => InCommit(s, id) && s.txs[id].phase.str.todo == [] && s.txs[id].phase.set_.todo == []
       case RollsBack(id) => id in s.txs && !InCommit(s, id)
       case CloseDb => forall id :: id in s.txs ==> !InCommit(s, id)
  }

  /** unlock, and the fields reset. */
  function Finished(s: System, id: nat): System
    requires id in s.txs
  {
    var tx := s.txs[id];
    Unlocked(s, tx.writer).(txs := s.txs[id := tx.(pendingStr := [], pendingSet := [], phase := Closed, unlocks := tx.unlocks + 1)])
  }

  function Next(s: System, ev: Event, hash: Hash): System
    requires Enabled(s, ev)
  {
    match ev
    case Begins(id, writer) =>
      if s.closed then Unlocked(s, writer)
      else s.(mutex := Lock(s.mutex, writer), txs := s.txs[id := Fresh(writer)])
    case Calls(id, op) => s.(db := Touched(s.db, op), txs := s.txs[id := Buffered(s.txs[id], op, hash)])
    case Commits(id) =>
      var tx := s.txs[id];
      if tx.phase.Closed? || s.closed then s
      else s.(txs := s.txs[id := tx.(phase := Committing(Worker(tx.pendingStr, None), Worker(tx.pendingSet, None)))])
    case Moves(id, strings) =>
      var tx := s.txs[id];
      if strings then
        var (strings', str) := StrStep(s.db.strings, tx.phase.str);
        s.(db := s.db.(strings := strings'), txs := s.txs[id := tx.(phase := tx.phase.(str := str))])
      else
        var (sets', set_) := SetStep(s.db.sets, tx.phase.set_);
        s.(db := s.db.(sets := sets'), txs := s.txs[id := tx.(phase := tx.phase.(set_ := set_))])
    case Ends(id) => Finished(s, id).(done := s.done + {id}, committed := s.committed + s.txs[id].ops)
    case RollsBack(id) => if s.txs[id].phase.Closed? || s.closed then s else Finished(s, id)
    case CloseDb => s.(closed := true)
  }

  // --- the lock ---

  /** The transactions of one kind that have been begun and not finished. */
  function OpenIds(txs: map<nat, Tx>, writer: bool): set<nat> {
    set id | id in txs && !txs[id].phase.Closed? && txs[id].writer == writer
  }

  /** The lock is held exactly by the open transactions, and a writer is alone. */
  predicate LockInv(s: System) {
    var readers, writers := OpenIds(s.txs, false), OpenIds(s.txs, true);
    && |writers| <= 1 && (writers != {} ==> readers == {})
    && (!s.closed ==> s.mutex == Mutex(|readers|, writers != {}) && !s.crashed)
  }

  lemma AddId(txs: map<nat, Tx>, id: nat, tx: Tx, writer: bool)
    requires id !in txs && !tx.phase.Closed?
    ensures OpenIds(txs[id := tx], writer) == OpenIds(txs, writer) + if tx.writer == writer then {id} else {}
  {
  }

  /** Whatever does not close a transaction keeps it among the open ones. */
  lemma KeepId(txs: map<nat, Tx>, id: nat, tx: Tx, writer: bool)
    requires id in txs && tx.writer == txs[id].writer && tx.phase.Closed? == txs[id].phase.Closed?
    ensures OpenIds(txs[id := tx], writer) == OpenIds(txs, writer)
  {
  }

  lemma CloseId(txs: map<nat, Tx>, id: nat, tx: Tx, writer: bool)
    requires id in txs && tx.writer == txs[id].writer && tx.phase.Closed? && !txs[id].phase.Closed?
    ensures OpenIds(txs[id := tx], writer) == OpenIds(txs, writer) - {id}
    ensures txs[id].writer == writer <==> id in OpenIds(txs, writer)
  {
  }

  lemma FinishedLock(s: System, id: nat)
    requires LockInv(s) && id in s.txs && !s.txs[id].phase.Closed?
    ensures LockInv(Finished(s, id))
  {
    var tx := Finished(s, id).txs[id];
    CloseId(s.txs, id, tx, true);
    CloseId(s.txs, id, tx, false);
  }

  lemma BeginsLock(s: System, id: nat, writer: bool, hash: Hash)
    requires LockInv(s) && Enabled(s, Begins(id, writer))
    ensures LockInv(Next(s, Begins(id, writer), hash))
  {
    if s.closed {
      UnlockedLock(s, writer);
    } else {
      AddId(s.txs, id, Fresh(writer), true);
      AddId(s.txs, id, Fresh(writer), false);
      hide OpenIds;
    }
  }

  /** After the database was closed the lock may be released by anyone; no transaction opens any more. */
  lemma UnlockedLock(s: System, writer: bool)
    requires LockInv(s) && s.closed
    ensures LockInv(Unlocked(s, writer))
  {
    hide OpenIds;
  }

  lemma NextLock(s: System, ev: Event, hash: Hash)
    requires LockInv(s) && Enabled(s, ev)
    ensures LockInv(Next(s, ev, hash))
  {
    hide StrStep, SetStep, Pendings, OpFits, Touched, LockInv, Finished;
    match ev
    case Begins(id, writer) => BeginsLock(s, id, writer, hash);
    case Ends(id) => FinishedLock(s, id); CommittedLock(Finished(s, id), s.done + {id}, s.committed + s.txs[id].ops);
    case RollsBack(id) =>
      if !s.txs[id].phase.Closed? {
        FinishedLock(s, id);
      }
    case CloseDb => CloseLock(s);
    case _ =>
      KeptLock(s, Next(s, ev, hash), ev.id);
  }

  lemma CommittedLock(s: System, done: set<nat>, committed: seq<Op>)
    requires LockInv(s)
    ensures LockInv(s.(done := done, committed := committed))
  {
  }

  lemma CloseLock(s: System)
    requires LockInv(s)
    ensures LockInv(s.(closed := true))
  {
  }

  lemma KeptLock(s: System, r: System, id: nat)
    requires LockInv(s) && id in s.txs && id in r.txs && r.mutex == s.mutex && r.closed == s.closed && r.crashed == s.crashed
    requires r.txs == s.txs[id := r.txs[id]]
    requires r.txs[id].writer == s.txs[id].writer && r.txs[id].phase.Closed? == s.txs[id].phase.Closed?
    ensures LockInv(r)
  {
    KeepId(s.txs, id, r.txs[id], true);
    KeepId(s.txs, id, r.txs[id], false);
  }

  lemma OnlyWriter(s: System, id: nat, other: nat)
    requires LockInv(s) && id in OpenIds(s.txs, true) && other in s.txs && !s.txs[other].phase.Closed?
    ensures other == id
  {
    var writers := OpenIds(s.txs, true);
    assert {id} <= writers;
    if other != id {
      assert other in writers || other in OpenIds(s.txs, false);
      if other in writers {
        assert {id, other} <= writers;
        Fits({id, other}, writers);
      }
    }
  }

  lemma {:induction false} Fits(a: set<nat>, b: set<nat>)
    requires a <= b
    ensures |a| <= |b|
  {
    assert a + (b - a) == b;
  }

  // --- each transaction ---

  /** The tree of every pending member exists. */
  predicate Prepared(sets: Sets, ms: seq<Member>) {
    forall i :: 0 <= i < |ms| ==> ms[i].entry.key in sets.trees
  }

  /** The buffer is that of the calls made; a transaction has unlocked exactly if it is closed, and then once. */
  predicate TxOk(tx: Tx, sets: Sets, hash: Hash) {
    && OpsFit(tx.ops)
    && match tx.phase
       case Open => tx.unlocks == 0 && tx.pendingStr == StrBuffer(tx.ops) && tx.pendingSet == SetBuffer(tx.ops, hash) && Prepared(sets, tx.pendingSet)
       case Committing(str, set_) => tx.unlocks == 0 && Prepared(sets, set_.todo) && (tx.ops == [] ==> str.todo == [] && set_.todo == [])
       case Closed => tx.unlocks == 1
  }

  predicate TxsOk(s: System, hash: Hash) {
    forall id :: id in s.txs ==> TxOk(s.txs[id], s.db.sets, hash)
  }

  lemma MoreTrees(tx: Tx, sets: Sets, sets': Sets, hash: Hash)
    requires TxOk(tx, sets, hash) && sets.trees.Keys <= sets'.trees.Keys
    ensures TxOk(tx, sets', hash)
  {
    hide OpsFit, StrBuffer, SetBuffer;
  }

  lemma {:induction false} PendingsKeys(hash: Hash, key: Bytes, members: seq<Bytes>)
    requires MembersFit(key, members)
    ensures forall i :: 0 <= i < |Pendings(hash, key, members)| ==> Pendings(hash, key, members)[i].entry.key == key
    decreases |members|
  {
    hide Storable;
    if members != [] {
      PendingsKeys(hash, key, members[1..]);
    }
  }

  lemma BuffersAppend(ops: seq<Op>, op: Op, hash: Hash)
    requires OpsFit(ops) && OpFits(op)
    ensures OpsFit(ops + [op])
    ensures StrBuffer(ops + [op]) == if op.TxSet? then StrBuffer(ops) + [Plain(op.key, op.value)] else StrBuffer(ops)
    ensures SetBuffer(ops + [op], hash) == if op.TxSAdd? then SetBuffer(ops, hash) + Pendings(hash, op.key, op.members) else SetBuffer(ops, hash)
  {
    hide Bufferable, Pendings, MembersFit;
    assert (ops + [op])[..|ops|] == ops;
  }

  lemma PreparedMore(sets: Sets, ms: seq<Member>, hash: Hash, key: Bytes, members: seq<Bytes>)
    requires Prepared(sets, ms) && MembersFit(key, members)
    ensures Prepared(EnsureTree(sets, key), ms) && Prepared(EnsureTree(sets, key), ms + Pendings(hash, key, members))
  {
    hide Pendings, MembersFit;
    PendingsKeys(hash, key, members);
  }

  lemma BufferedOk(tx: Tx, db: Db, op: Op, hash: Hash)
    requires TxOk(tx, db.sets, hash) && tx.phase.Open? && OpFits(op)
    ensures TxOk(Buffered(tx, op, hash), Touched(db, op).sets, hash)
  {
    BuffersAppend(tx.ops, op, hash);
    if op.TxSAdd? {
      PreparedMore(db.sets, tx.pendingSet, hash, op.key, op.members);
    }
    hide StrBuffer, SetBuffer, OpsFit, Prepared, EnsureTree, Pendings, Bufferable, MembersFit;
  }

  lemma CommitsOk(tx: Tx, sets: Sets, hash: Hash)
    requires TxOk(tx, sets, hash) && tx.phase.Open?
    ensures TxOk(tx.(phase := Committing(Worker(tx.pendingStr, None), Worker(tx.pendingSet, None))), sets, hash)
  {
  }

  lemma SetStepOk(sets: Sets, w: SetWorker)
    requires Prepared(sets, w.todo)
    ensures var (sets', w') := SetStep(sets, w);
            sets'.trees.Keys == sets.trees.Keys && Prepared(sets', w'.todo) && (w.todo == [] ==> w'.todo == [] && sets' == sets)
  {
    hide Write, Where, Storable;
  }

  lemma StrStepIdle(s: OpenStore, w: StrWorker)
    ensures w.todo == [] ==> StrStep(s, w) == (s, w)
  {
  }

  /** The transaction that an event is about stays in order; the others only see more trees. */
  lemma NextTxs(s: System, ev: Event, hash: Hash)
    requires TxsOk(s, hash) && Enabled(s, ev)
    ensures TxsOk(Next(s, ev, hash), hash)
  {
    hide OpsFit, StrBuffer, SetBuffer, Pendings, OpFits, StrStep, SetStep, TxOk, Unlock, Prepared;
    var r := Next(s, ev, hash);
    assert s.db.sets.trees.Keys <= r.db.sets.trees.Keys by { TreesGrow(s, ev, hash); }
    forall id | id in r.txs
      ensures TxOk(r.txs[id], r.db.sets, hash)
    {
      if id in s.txs && r.txs[id] == s.txs[id] {
        MoreTrees(s.txs[id], s.db.sets, r.db.sets, hash);
      } else {
        ChangedTx(s, ev, hash, id);
      }
    }
  }

  lemma TreesGrow(s: System, ev: Event, hash: Hash)
    requires TxsOk(s, hash) && Enabled(s, ev)
    ensures s.db.sets.trees.Keys <= Next(s, ev, hash).db.sets.trees.Keys
  {
    hide OpsFit, StrBuffer, SetBuffer, Pendings, OpFits, StrStep, SetStep, Unlock, Prepared;
    if ev.Moves? && !ev.strings {
      assert TxOk(s.txs[ev.id], s.db.sets, hash);
      SetStepOk(s.db.sets, s.txs[ev.id].phase.set_);
    }
  }

  lemma ChangedTx(s: System, ev: Event, hash: Hash, id: nat)
    requires TxsOk(s, hash) && Enabled(s, ev)
    requires id in Next(s, ev, hash).txs && (id in s.txs ==> Next(s, ev, hash).txs[id] != s.txs[id])
    ensures TxOk(Next(s, ev, hash).txs[id], Next(s, ev, hash).db.sets, hash)
  {
    hide OpsFit, StrBuffer, SetBuffer, Pendings, OpFits, StrStep, SetStep, Unlock, Prepared, Buffered, Touched;
    match ev
    case Begins(_, writer) => FreshOk(writer, s.db.sets, hash);
    case Calls(_, op) => BufferedOk(s.txs[id], s.db, op, hash);
    case Commits(_) => CommitsOk(s.txs[id], s.db.sets, hash);
    case Moves(_, strings) =>
      SetStepOk(s.db.sets, s.txs[id].phase.set_);
      StrStepIdle(s.db.strings, s.txs[id].phase.str);
    case _ =>
  }

  lemma FreshOk(writer: bool, sets: Sets, hash: Hash)
    ensures TxOk(Fresh(writer), sets, hash)
  {
  }
}
