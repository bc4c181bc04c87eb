/** Transactions and restarts: what a replay finds after commits. */
module TxRestart {
  import opened Bytes
  import opened LogEntry
  import opened LogFile
  import opened Store
  import opened StoreLog
  import opened MergeSteps
  import opened Refinement
  import opened Recovery
  import opened Alike
  import opened SetDb
  import opened TxWorkers
  import opened Transactions
  import opened Serializable
  import opened TxMix
  import opened TxOverlap

  // --- replay does not see transaction flags ---

  predicate AlikeRec(a: Rec, b: Rec) {
    a.fid == b.fid && a.offset == b.offset && AlikeEntry(a.entry, b.entry)
  }

  predicate AlikeRecs(a: seq<Rec>, b: seq<Rec>) {
    |a| == |b| && forall i :: 0 <= i < |a| ==> AlikeRec(a[i], b[i])
  }

  lemma {:induction false} RecsAlike(fid: nat, es: Entries, fs: Entries, off: nat)
    requires AlikeEntries(es, fs)
    ensures AlikeRecs(Recs(fid, es, off), Recs(fid, fs, off))
    decreases |es|
  {
    hide Size, Storable;
    if es != [] {
      assert AlikeEntry(es[0], fs[0]);
      SizeAlike(es[0], fs[0]);
      RecsAlike(fid, es[1..], fs[1..], off + Size(es[0]));
    }
  }

  lemma {:induction false} LogAlike(fs: Files, gs: Files, n: nat)
    requires AlikeFiles(fs, gs)
    ensures AlikeRecs(Log(fs, n), Log(gs, n))
  {
    hide Recs, AlikeEntries, AlikeRec;
    if n > 0 {
      LogAlike(fs, gs, n - 1);
      if n in fs {
        assert AlikeFile(fs[n], gs[n]);
        RecsAlike(n, fs[n].entries, gs[n].entries, 0);
      }
    }
  }

  lemma {:induction false} ReplayAlike(index: Index, a: seq<Rec>, b: seq<Rec>)
    requires AlikeRecs(a, b) && RecsStorable(a) && RecsStorable(b)
    ensures Replay(index, a) == Replay(index, b)
    decreases |a|
  {
    hide Size, Storable;
    if a != [] {
      assert AlikeRec(a[0], b[0]);
      assert Replay1(index, a[0]) == Replay1(index, b[0]);
      ReplayAlike(Replay1(index, a[0]), a[1..], b[1..]);
    }
  }

  lemma AlikeDurable(s: Store, r: Store)
    requires AlikeStores(s, r) && Durable(r)
    ensures Durable(s)
  {
    hide Log, Replay, AlikeFile;
    LogAlike(s.files, r.files, s.active);
    LogIsStorable(s.files, s.active);
    LogIsStorable(r.files, r.active);
    ReplayAlike(map[], Log(s.files, s.active), Log(r.files, r.active));
    assert Live(s) == Live(r);
  }

  lemma {:induction false} DirectDurable(db: Db, ops: seq<Op>, hash: Hash)
    requires OpsFit(ops) && Wf(db.strings) && Durable(db.strings)
    ensures Wf(DirectAll(db, ops, hash).strings) && Durable(DirectAll(db, ops, hash).strings)
    decreases |ops|
  {
    hide Wf, Durable, Put, Add, Storable, MembersFit;
    if ops != [] {
      var most, op := ops[..|ops| - 1], ops[|ops| - 1];
      DirectDurable(db, most, hash);
      if op.TxSet? {
        var s := DirectAll(db, most, hash).strings;
        PutWf(s, Plain(op.key, op.value), true);
        PutDurable(s, Plain(op.key, op.value), true);
      }
    }
  }

  /** After any guarded run a replay of the log rebuilds the live index, so that a restart loses nothing that was committed. */
  lemma CommittedRestart(ss: seq<System>, evs: seq<Event>, db0: Db, hash: Hash, i: nat)
    requires Run(ss, evs, db0, hash) && AllGuarded(ss, evs) && i < |ss| && Quiet(ss[i]) && Wf(db0.strings) && Durable(db0.strings)
    ensures Durable(ss[i].db.strings)
  {
    hide Wf, Durable, DirectAll, Run, AllGuarded, LockInv, TxsOk, OpsFit, AlikeSets, AlikeStores;
    RunInv(ss, evs, db0, hash, i);
    DirectDurable(db0, ss[i].committed, hash);
    AlikeDurable(ss[i].db.strings, DirectAll(db0, ss[i].committed, hash).strings);
  }

  // --- commits in any overlap, key by key ---

  predicate Touches(es: seq<Pending>, k: Bytes) {
    exists i :: 0 <= i < |es| && es[i].key == k
  }

  /** At most one commit under way has yet to set the key. */
  ghost predicate Uncontended(s: System, k: Bytes) {
    forall i, j :: InCommit(s, i) && InCommit(s, j) && Touches(s.txs[i].phase.str.todo, k) && Touches(s.txs[j].phase.str.todo, k) ==> i == j
  }

  /** The worker has written an entry of the key and not indexed it yet. */
  predicate Holds(w: StrWorker, k: Bytes) {
    w.todo != [] && w.written.Some? && w.todo[0].key == k
  }

  /** A replay finds the key at this place. */
  predicate FoundAt(s: Store, k: Bytes, n: Node) {
    k in Rebuilt(s) && Rebuilt(s)[k] == n.(expiredAt := 0)
  }

  /** The key is recoverable, or a replay finds it at the place at which it is about to be indexed. */
  ghost predicate KeyInv(s: System, k: Bytes) {
    && (forall id :: InCommit(s, id) && Holds(s.txs[id].phase.str, k) ==> FoundAt(s.db.strings, k, s.txs[id].phase.str.written.value))
    && ((forall id :: InCommit(s, id) ==> !Holds(s.txs[id].phase.str, k)) ==> DurableAt(s.db.strings, k))
  }

  lemma WriteLive(s: OpenStore, e: Entry)
    requires Wf(s) && Storable(e)
    ensures Live(Write(s, e)) == Live(s)
  {
    hide Write, Where, Storable, Log, Used, Replay;
    WriteFacts(s, e);
    WriteKeepsIndex(s, e);
  }

  lemma WriteFound(s: OpenStore, e: Pending, k: Bytes)
    requires Wf(s) && e == Plain(e.key, e.value)
    ensures var r := Write(s, Marked(e));
            && (e.key == k ==> FoundAt(r, k, Where(s, Marked(e))))
            && (e.key != k ==> Agree(Rebuilt(r), Rebuilt(s), k) && (DurableAt(r, k) <==> DurableAt(s, k)))
  {
    hide Write, Rebuilt, Live, Size, Storable, Rolled;
    WriteLive(s, Marked(e));
    RebuiltAppend(s, Marked(e));
  }

  lemma ReindexFound(s: OpenStore, e: Pending, n: Node, k: Bytes)
    requires Ready(s, n, e)
    ensures var r := Reindexed(s, e.key, n);
            && Rebuilt(r) == Rebuilt(s)
            && (e.key == k ==> (DurableAt(r, k) <==> FoundAt(s, k, n)))
            && (e.key != k ==> (DurableAt(r, k) <==> DurableAt(s, k)))
  {
    hide Rebuilt, Send, WrittenAt;
    RebuiltFromFiles(Reindexed(s, e.key, n), s);
  }

  /** Transaction `id` has moved on in its strings, and no other has. */
  ghost predicate Moved(s: System, id: nat, r: System) {
    && InCommit(s, id) && InCommit(r, id) && (r.db.strings, r.txs[id].phase.str) == StrStep(s.db.strings, s.txs[id].phase.str)
    && forall other :: other != id ==> (InCommit(r, other) <==> InCommit(s, other)) && (InCommit(s, other) ==> r.txs[other] == s.txs[other])
  }

  /** One move of one worker, of another key or alone with this one. */
  lemma WrittenKey(s: System, id: nat, r: System, k: Bytes)
    requires Moved(s, id, r) && Wf(s.db.strings) && KeyInv(s, k) && Uncontended(s, k)
    requires var w := s.txs[id].phase.str; w.todo != [] && w.written.None? && Unexpiring(w.todo)
    ensures KeyInv(r, k)
  {
    hide Wf, Write, Where, Storable, FoundAt, DurableAt, Rebuilt;
    var e := s.txs[id].phase.str.todo[0];
    WriteFound(s.db.strings, e, k);
    if e.key == k {
      HoldsAlone(s, id, k);
      assert Holds(r.txs[id].phase.str, k);
    } else {
      StillFound(s.db.strings, r.db.strings, k);
      assert forall other :: InCommit(r, other) <==> InCommit(s, other);
    }
  }

  lemma IndexedKey(s: System, id: nat, r: System, k: Bytes)
    requires Moved(s, id, r) && KeyInv(s, k) && Uncontended(s, k)
    requires var w := s.txs[id].phase.str; w.todo != [] && w.written.Some? && Ready(s.db.strings, w.written.value, w.todo[0])
    ensures KeyInv(r, k)
  {
    hide Write, Where, Storable, Ready, FoundAt, DurableAt, Rebuilt;
    var w := s.txs[id].phase.str;
    ReindexFound(s.db.strings, w.todo[0], w.written.value, k);
    assert forall other :: InCommit(r, other) <==> InCommit(s, other);
    if w.todo[0].key == k {
      HoldsAlone(s, id, k);
    } else {
      StillFound(s.db.strings, r.db.strings, k);
    }
  }

  lemma HoldsAlone(s: System, id: nat, k: Bytes)
    requires InCommit(s, id) && s.txs[id].phase.str.todo != [] && s.txs[id].phase.str.todo[0].key == k && Uncontended(s, k)
    ensures forall other :: InCommit(s, other) && other != id ==> !Holds(s.txs[other].phase.str, k)
  {
    assert Touches(s.txs[id].phase.str.todo, k);
  }

  lemma StillFound(s: Store, r: Store, k: Bytes)
    ensures Agree(Rebuilt(r), Rebuilt(s), k) ==> forall n :: FoundAt(s, k, n) ==> FoundAt(r, k, n)
  {
  }

  lemma SameHolds(s: System, r: System, k: Bytes)
    requires KeyInv(s, k) && r.db.strings == s.db.strings
    requires forall id :: InCommit(r, id) && Holds(r.txs[id].phase.str, k) ==> InCommit(s, id) && r.txs[id].phase.str == s.txs[id].phase.str
    requires forall id :: InCommit(s, id) && Holds(s.txs[id].phase.str, k) ==> InCommit(r, id) && r.txs[id].phase.str == s.txs[id].phase.str
    ensures KeyInv(r, k)
  {
    hide FoundAt, DurableAt;
  }

  /** Any other event leaves alone what a string worker holds. */
  lemma NextHolds(s: System, ev: Event, k: Bytes, id: nat, hash: Hash)
    requires Enabled(s, ev) && !(ev.Moves? && ev.strings)
    ensures var r := Next(s, ev, hash);
            && r.db.strings == s.db.strings
            && (InCommit(r, id) && Holds(r.txs[id].phase.str, k) ==> InCommit(s, id) && r.txs[id].phase.str == s.txs[id].phase.str)
            && (InCommit(s, id) && Holds(s.txs[id].phase.str, k) ==> InCommit(r, id) && r.txs[id].phase.str == s.txs[id].phase.str)
  {
    hide SetStep, StrStep, Pendings, OpFits, Unlock;
  }

  lemma NextMoved(s: System, id: nat, hash: Hash)
    requires Enabled(s, Moves(id, true))
    ensures Moved(s, id, Next(s, Moves(id, true), hash))
  {
    hide StrStep, SetStep;
  }

  lemma NextKey(s: System, ev: Event, k: Bytes, hash: Hash)
    requires Enabled(s, ev) && Wf(s.db.strings) && KeyInv(s, k) && Uncontended(s, k)
    requires forall id :: InCommit(s, id) ==> Waiting(s.db.strings, s.txs[id].phase.str) && Unexpiring(s.txs[id].phase.str.todo)
    ensures KeyInv(Next(s, ev, hash), k)
  {
    hide Wf, Unexpiring, Ready, Uncontended, Next, KeyInv, Holds;
    var r := Next(s, ev, hash);
    if ev.Moves? && ev.strings {
      hide StrStep;
      NextMoved(s, ev.id, hash);
      var w := s.txs[ev.id].phase.str;
      if w.todo == [] {
        IdleKey(s, ev.id, r, k);
      } else if w.written.None? {
        WrittenKey(s, ev.id, r, k);
      } else {
        IndexedKey(s, ev.id, r, k);
      }
    } else {
      forall id
        ensures InCommit(r, id) && Holds(r.txs[id].phase.str, k) ==> InCommit(s, id) && r.txs[id].phase.str == s.txs[id].phase.str
        ensures InCommit(s, id) && Holds(s.txs[id].phase.str, k) ==> InCommit(r, id) && r.txs[id].phase.str == s.txs[id].phase.str
      {
        NextHolds(s, ev, k, id, hash);
      }
      NextHolds(s, ev, k, 0, hash);
      SameHolds(s, r, k);
    }
  }

  lemma IdleKey(s: System, id: nat, r: System, k: Bytes)
    requires Moved(s, id, r) && KeyInv(s, k) && s.txs[id].phase.str.todo == []
    ensures KeyInv(r, k)
  {
    hide KeyInv;
    SameHolds(s, r, k);
  }

  lemma {:induction false} RunKey(ss: seq<System>, evs: seq<Event>, db0: Db, m: Contents, merged: int, hash: Hash, n: nat, k: Bytes)
    requires Run(ss, evs, db0, hash) && Refines(db0.strings, m, merged) && DurableAt(db0.strings, k) && n < |ss|
    requires forall i :: 0 <= i < n ==> Uncontended(ss[i], k)
    ensures KeyInv(ss[n], k)
    decreases n
  {
    hide Enabled, Next, Refines, DurableAt, Uncontended, Waiting, Unexpiring;
    if n > 0 {
      hide KeyInv;
      RunKey(ss, evs, db0, m, merged, hash, n - 1, k);
      RunApplied(ss, evs, db0, m, merged, hash, n - 1);
      RefinesFiles(ss[n - 1].db.strings, FoldEntries(m, EntriesOf(Applied(ss, evs, n - 1))), merged);
      NextKey(ss[n - 1], evs[n - 1], k, hash);
    }
  }

  /** In every run a key stays recoverable, if no two commits that set it are under way at once. */
  lemma UncontendedRestart(ss: seq<System>, evs: seq<Event>, db0: Db, m: Contents, merged: int, hash: Hash, n: nat, k: Bytes)
    requires Run(ss, evs, db0, hash) && Refines(db0.strings, m, merged) && DurableAt(db0.strings, k) && n < |ss| && Quiet(ss[n])
    requires forall i :: 0 <= i < n ==> Uncontended(ss[i], k)
    ensures DurableAt(ss[n].db.strings, k)
  {
    hide Run, Refines, DurableAt, Uncontended, LockInv, FoundAt, OpsFit, Prepared, StrBuffer, SetBuffer;
    RunKey(ss, evs, db0, m, merged, hash, n, k);
    RunLocks(ss, evs, db0, hash, n);
    forall id | InCommit(ss[n], id)
      ensures !Holds(ss[n].txs[id].phase.str, k)
    {
      assert !Busy(ss[n], id) && TxOk(ss[n].txs[id], ss[n].db.sets, hash);
    }
  }

  // --- two transactions without a shared key ---

  /** Both call lists set this key. */
  predicate Shared(ops1: seq<Op>, ops2: seq<Op>, k: Bytes)
    requires OpsFit(ops1) && OpsFit(ops2)
  {
    Touches(StrBuffer(ops1), k) && Touches(StrBuffer(ops2), k)
  }

  /** Commit has been called, and is under way or has ended. */
  predicate Committed(s: System, id: nat) {
    id in s.txs && (InCommit(s, id) || (id in s.done && s.txs[id].phase.Closed?))
  }

  lemma NextCommitted(s: System, ev: Event, id: nat, hash: Hash)
    requires Enabled(s, ev) && Committed(s, id)
    ensures var r := Next(s, ev, hash); Committed(r, id) && r.txs[id].ops == s.txs[id].ops
  {
    hide SetStep, StrStep, Pendings, OpFits, Unlock, Touched;
  }

  lemma {:induction false} StaysCommitted(ss: seq<System>, evs: seq<Event>, db0: Db, hash: Hash, i: nat, j: nat, id: nat)
    requires Run(ss, evs, db0, hash) && i <= j < |ss| && Committed(ss[i], id)
    ensures Committed(ss[j], id) && ss[j].txs[id].ops == ss[i].txs[id].ops
    decreases j
  {
    hide Enabled, Next, Committed;
    if i < j {
      StaysCommitted(ss, evs, db0, hash, i, j - 1, id);
      NextCommitted(ss[j - 1], evs[j - 1], id, hash);
    }
  }

  /** A commit under way that has yet to set the key is one of the two. */
  lemma OneOfTwo(ss: seq<System>, evs: seq<Event>, db0: Db, m: Contents, merged: int, hash: Hash, id1: nat, id2: nat, ops1: seq<Op>, ops2: seq<Op>, i: nat, id: nat, k: Bytes)
    requires Run(ss, evs, db0, hash) && Refines(db0.strings, m, merged) && OpsFit(ops1) && OpsFit(ops2) && i < |ss|
    requires Quiet(ss[|evs|]) && OnlyTwo(ss[|evs|], id1, id2, ops1, ops2)
    requires InCommit(ss[i], id) && Touches(ss[i].txs[id].phase.str.todo, k)
    ensures (id == id1 && Touches(StrBuffer(ops1), k)) || (id == id2 && Touches(StrBuffer(ops2), k))
  {
    hide Enabled, Next, Refines, OpsFit, StrBuffer, Of, Touches;
    RunApplied(ss, evs, db0, m, merged, hash, i);
    var ts := Applied(ss, evs, i);
    assert ShareOk(ss[i], ts, id);
    RestTouches(Of(ts, id), ss[i].txs[id].phase.str.todo, k);
    StaysCommitted(ss, evs, db0, hash, i, |evs|, id);
    NothingTouched(k);
  }

  lemma RestTouches(done: seq<Pending>, todo: seq<Pending>, k: Bytes)
    requires Touches(todo, k)
    ensures Touches(done + todo, k)
  {
    var i :| 0 <= i < |todo| && todo[i].key == k;
    assert (done + todo)[|done| + i].key == k;
  }

  lemma NothingTouched(k: Bytes)
    ensures !Touches(StrBuffer([]), k)
  {
  }

  /** However two commits overlap, a key that they do not both set stays recoverable. */
  lemma UnsharedRestart(ss: seq<System>, evs: seq<Event>, db0: Db, m: Contents, merged: int, hash: Hash, id1: nat, id2: nat, ops1: seq<Op>, ops2: seq<Op>, k: Bytes)
    requires Run(ss, evs, db0, hash) && Refines(db0.strings, m, merged) && DurableAt(db0.strings, k)
    requires OpsFit(ops1) && OpsFit(ops2) && !Shared(ops1, ops2, k)
    requires Quiet(ss[|evs|]) && OnlyTwo(ss[|evs|], id1, id2, ops1, ops2)
    ensures DurableAt(ss[|evs|].db.strings, k)
  {
    hide Enabled, Next, Refines, OpsFit, StrBuffer, Touches, Quiet, DurableAt, OnlyTwo;
    forall n | 0 <= n < |evs|
      ensures Uncontended(ss[n], k)
    {
      forall i, j | InCommit(ss[n], i) && InCommit(ss[n], j) && Touches(ss[n].txs[i].phase.str.todo, k) && Touches(ss[n].txs[j].phase.str.todo, k)
        ensures i == j
      {
        OneOfTwo(ss, evs, db0, m, merged, hash, id1, id2, ops1, ops2, n, i, k);
        OneOfTwo(ss, evs, db0, m, merged, hash, id1, id2, ops1, ops2, n, j, k);
      }
    }
    UncontendedRestart(ss, evs, db0, m, merged, hash, |evs|, k);
  }

  // --- two transactions with a shared key ---

  /** Where a key gets its last value. */
  lemma {:induction false} LastPlace(es: seq<Pending>, k: Bytes) returns (p: nat)
    requires Touches(es, k)
    ensures p < |es| && es[p].key == k && Last(es, k) == Some(es[p].value) && !Touches(es[p + 1..], k)
    decreases |es|
  {
    p := |es| - 1;
    if es[p].key != k {
      var most := es[..p];
      p := LastPlace(most, k);
      assert es[p + 1..] == most[p + 1..] + [es[|es| - 1]];
    }
  }

  lemma {:induction false} FinishReady(s: OpenStore, es: seq<Pending>, n: Node, x: Pending)
    requires Wf(s) && Unexpiring(es) && Ready(s, n, x)
    ensures var r := StrFinish(s, Worker(es, None)); Wf(r) && Ready(r, n, x)
    decreases |es|
  {
    hide Wf, Ready, Put, Storable;
    if es != [] {
      PutReady(s, es[0], n, x);
      FinishReady(Put(s, Marked(es[0]), true), es[1..], n, x);
    }
  }

  lemma PutReady(s: OpenStore, e: Pending, n: Node, x: Pending)
    requires Wf(s) && Ready(s, n, x)
    ensures var r := Put(s, Marked(e), true); Wf(r) && Ready(r, n, x)
  {
    hide Wf, Write, Where, Storable, Send, WrittenAt;
    PutWf(s, Marked(e), true);
    ReadyKept(s, Marked(e), n, x);
    SamePlace(Write(s, Marked(e)), Put(s, Marked(e), true), n, x.key, Cell(x.value, 0));
  }

  /** Writing other keys changes nothing for this one, in the index or for a replay. */
  lemma {:induction false} FinishElsewhere(s: OpenStore, es: seq<Pending>, k: Bytes)
    requires Wf(s) && Unexpiring(es) && !Touches(es, k)
    ensures var r := StrFinish(s, Worker(es, None)); Agree(Rebuilt(r), Rebuilt(s), k) && Agree(r.index, s.index, k)
    decreases |es|
  {
    hide Wf, Put, Storable, Rebuilt;
    if es != [] {
      assert es[0].key != k;
      PutElsewhere(s, es[0], k);
      assert forall i :: 0 <= i < |es[1..]| ==> es[1..][i] == es[i + 1];
      FinishElsewhere(Put(s, Marked(es[0]), true), es[1..], k);
    }
  }

  lemma PutElsewhere(s: OpenStore, e: Pending, k: Bytes)
    requires Wf(s) && e == Plain(e.key, e.value) && e.key != k
    ensures var r := Put(s, Marked(e), true); Wf(r) && Agree(Rebuilt(r), Rebuilt(s), k) && Agree(r.index, s.index, k)
  {
    hide Wf, Write, Where, Storable, Send, Rebuilt;
    PutWf(s, Marked(e), true);
    WriteFound(s, e, k);
    RebuiltFromFiles(Put(s, Marked(e), true), Write(s, Marked(e)));
  }

  lemma {:induction false} NothingBehind(es: Entries)
    ensures EntryAt(es, Used(es)).None?
    decreases |es|
  {
    hide Size;
    if es != [] {
      SomeSize(es[0]);
      NothingBehind(es[1..]);
    }
  }

  /** A new entry does not lie where another one does. */
  lemma NewPlace(s: OpenStore, e: Pending, n: Node, x: Pending)
    requires Wf(s) && Ready(s, n, x)
    ensures var w := Where(s, Marked(e)); (w.fid, w.offset) != (n.fid, n.offset)
  {
    hide Size, Storable, Used, EntryAt;
    NothingBehind(s.files[n.fid].entries);
  }

  /** A run that sets the key: the replay finds the last of its entries, at a place of its own. */
  lemma FinishFound(s: OpenStore, fs: seq<Pending>, q: nat, n: Node, x: Pending) returns (w: Node)
    requires Wf(s) && Unexpiring(fs) && q < |fs| && !Touches(fs[q + 1..], fs[q].key) && Ready(s, n, x)
    ensures var r := StrFinish(s, Worker(fs, None));
            Wf(r) && Ready(r, n, x) && FoundAt(r, fs[q].key, w) && Ready(r, w, fs[q]) && (w.fid, w.offset) != (n.fid, n.offset)
  {
    hide Wf, Ready, Put, Where, Storable, StrFinish, Rebuilt;
    var f, rest := fs[q], fs[q + 1..];
    FinishCut(s, fs, q);
    FinishReady(s, fs[..q], n, x);
    var a := StrFinish(s, Worker(fs[..q], None));
    w := Where(a, Marked(f));
    NewPlace(a, f, n, x);
    PutReady(a, f, n, x);
    PutFound(a, f);
    var b := Put(a, Marked(f), true);
    FinishReady(b, rest, n, x);
    FinishReady(b, rest, w, f);
    FinishElsewhere(b, rest, f.key);
  }

  lemma PutFound(s: OpenStore, e: Pending)
    requires Wf(s) && e == Plain(e.key, e.value)
    ensures var r, w := Put(s, Marked(e), true), Where(s, Marked(e)); FoundAt(r, e.key, w) && Ready(r, w, e)
  {
    hide Wf, Write, Where, Storable, Send, WrittenAt, Rebuilt;
    WriteFound(s, e, e.key);
    ReadyNow(s, e);
    var r := Put(s, Marked(e), true);
    RebuiltFromFiles(r, Write(s, Marked(e)));
    SamePlace(Write(s, Marked(e)), r, Where(s, Marked(e)), e.key, Cell(e.value, 0));
  }

  lemma {:induction false} FinishCut(s: OpenStore, es: seq<Pending>, p: nat)
    requires p < |es|
    ensures StrFinish(s, Worker(es, None)) == StrFinish(Put(StrFinish(s, Worker(es[..p], None)), Marked(es[p]), true), Worker(es[p + 1..], None))
    decreases |es|
  {
    hide Put, Storable;
    if p > 0 {
      assert es[1..][..p - 1] == es[..p][1..] && es[1..][p..] == es[p + 1..];
      FinishCut(Put(s, Marked(es[0]), true), es[1..], p - 1);
    }
  }

  /** Transaction 1 writes its entry `p`, all of transaction 2 is written, and only then is the entry indexed. */
  function Flipped(s: OpenStore, es: seq<Pending>, fs: seq<Pending>, p: nat): OpenStore
    requires p < |es|
  {
    var a, e := StrFinish(s, Worker(es[..p], None)), Marked(es[p]);
    var c := StrFinish(Write(a, e), Worker(fs, None));
    StrFinish(Reindexed(c, e.key, Where(a, e)), Worker(es[p + 1..], None))
  }

  /** The index shows one value of the key and a replay another entry, with the other value. */
  predicate Flips(s: Store, k: Bytes, x: Bytes, y: Bytes) {
    && k in s.index && CellAt(s.files, s.index[k]) == Cell(x, 0)
    && k in Rebuilt(s) && CellAt(s.files, Rebuilt(s)[k]) == Cell(y, 0)
    && !DurableAt(s, k)
  }

  lemma FlippedFlips(s: OpenStore, es: seq<Pending>, fs: seq<Pending>, p: nat, q: nat)
    requires Wf(s) && Unexpiring(es) && Unexpiring(fs) && p < |es| && q < |fs| && es[p].key == fs[q].key
    requires !Touches(es[p + 1..], es[p].key) && !Touches(fs[q + 1..], fs[q].key)
    ensures Flips(Flipped(s, es, fs, p), es[p].key, es[p].value, fs[q].value)
  {
    hide Wf, Ready, Write, Where, Storable, StrFinish, Rebuilt, Flips, Touches, Reindexed;
    var e, rest := es[p], es[p + 1..];
    FinishWf(s, es[..p]);
    var a := StrFinish(s, Worker(es[..p], None));
    var n, b := Where(a, Marked(e)), Write(a, Marked(e));
    ReadyNow(a, e);
    WriteWf(a, Marked(e));
    var w := FinishFound(b, fs, q, n, e);
    var c := StrFinish(b, Worker(fs, None));
    ReindexFlips(c, e, n, fs[q], w);
    var d := Reindexed(c, e.key, n);
    FinishReady(d, rest, n, e);
    FinishReady(d, rest, w, fs[q]);
    FinishElsewhere(d, rest, e.key);
    TwoPlaces(StrFinish(d, Worker(rest, None)), e, n, fs[q], w);
  }

  lemma ReindexFlips(s: OpenStore, e: Pending, n: Node, f: Pending, w: Node)
    requires Wf(s) && Ready(s, n, e) && Ready(s, w, f) && FoundAt(s, f.key, w) && f.key == e.key
    ensures var r := Reindexed(s, e.key, n);
            Wf(r) && Ready(r, n, e) && Ready(r, w, f) && FoundAt(r, f.key, w) && e.key in r.index && r.index[e.key] == n
  {
    hide Rebuilt, WrittenAt, Send;
    var r := Reindexed(s, e.key, n);
    RebuiltFromFiles(r, s);
    SamePlace(s, r, n, e.key, Cell(e.value, 0));
    SamePlace(s, r, w, f.key, Cell(f.value, 0));
  }

  lemma TwoPlaces(s: Store, e: Pending, n: Node, f: Pending, w: Node)
    requires Ready(s, n, e) && Ready(s, w, f) && FoundAt(s, e.key, w) && f.key == e.key && e.key in s.index && s.index[e.key] == n
    requires (w.fid, w.offset) != (n.fid, n.offset)
    ensures Flips(s, e.key, e.value, f.value)
  {
    hide Rebuilt, Size, Storable, EntryAt;
  }

  lemma {:induction false} FinishWf(s: OpenStore, es: seq<Pending>)
    requires Wf(s)
    ensures Wf(StrFinish(s, Worker(es, None)))
    decreases |es|
  {
    hide Wf, Put, Storable;
    if es != [] {
      PutWf(s, Marked(es[0]), true);
      FinishWf(Put(s, Marked(es[0]), true), es[1..]);
    }
  }

  lemma WriteWf(s: OpenStore, e: Entry)
    requires Wf(s) && Storable(e)
    ensures Wf(Write(s, e))
  {
    hide Wf, Write, Where, Storable, Log, EntryAt;
    WriteFacts(s, e);
  }

  lemma FlipMoves(s: System, ops1: seq<Op>, ops2: seq<Op>, p: nat, hash: Hash) returns (r: System)
    requires OpsFit(ops1) && OpsFit(ops2) && BothCommit(s, ops1, ops2) && p < |StrBuffer(ops1)|
    ensures Reaches(s, r, hash) && r.db.strings == Flipped(s.db.strings, StrBuffer(ops1), StrBuffer(ops2), p)
    ensures r.mutex == s.mutex && r.done == s.done && r.committed == s.committed && r.closed == s.closed && !r.crashed && r.txs.Keys == {1, 2}
    ensures forall id :: id in r.txs ==> !r.txs[id].writer && InCommit(r, id) && r.txs[id].ops == s.txs[id].ops && r.txs[id].phase.str.todo == []
  {
    hide Reaches, StrBuffer, OpsFit, CanRun, After, StrFinish, StrMoves, Write, Where, Storable, SetStep;
    var es, fs := StrBuffer(ops1), StrBuffer(ops2);
    StrRun(s, 1, es, p, hash);
    var a := After(s, StrMoves(1, p), hash);
    ReachesBy(s, StrMoves(1, p), hash);
    var b := Next(a, Moves(1, true), hash);
    ReachesOne(a, Moves(1, true), hash);
    ReachesOn(s, a, b, hash);
    StrRun(b, 2, fs, |fs|, hash);
    var c := After(b, StrMoves(2, |fs|), hash);
    ReachesBy(b, StrMoves(2, |fs|), hash);
    ReachesOn(s, b, c, hash);
    assert fs[..|fs|] == fs && fs[|fs|..] == [];
    var d := Next(c, Moves(1, true), hash);
    ReachesOne(c, Moves(1, true), hash);
    ReachesOn(s, c, d, hash);
    var rest := es[p + 1..];
    assert es[p..][1..] == rest && es[p..][0] == es[p];
    StrRun(d, 1, rest, |rest|, hash);
    r := After(d, StrMoves(1, |rest|), hash);
    ReachesBy(d, StrMoves(1, |rest|), hash);
    ReachesOn(s, d, r, hash);
    assert rest[..|rest|] == rest && rest[|rest|..] == [];
  }

  /**
   Two RTX transactions that set one shared key, whatever else they do, can overlap so that the index is left at the last
   entry of the one and the log ends with that of the other: a restart flips the value.
   */
  lemma RestartFlips(db0: Db, hash: Hash, ops1: seq<Op>, ops2: seq<Op>, k: Bytes) returns (ss: seq<System>, evs: seq<Event>)
    requires Wf(db0.strings) && OpsFit(ops1) && OpsFit(ops2) && Shared(ops1, ops2, k)
    ensures Run(ss, evs, db0, hash) && Quiet(ss[|evs|]) && OnlyTwo(ss[|evs|], 1, 2, ops1, ops2)
    ensures var x, y := Last(StrBuffer(ops1), k), Last(StrBuffer(ops2), k);
            x.Some? && y.Some? && Flips(ss[|evs|].db.strings, k, x.value, y.value)
  {
    hide Wf, Reaches, Flipped, Run, OpsFit, BothCommit, Quiet, Flips, OnlyTwo, StrBuffer, Touches;
    var p := LastPlace(StrBuffer(ops1), k);
    var q := LastPlace(StrBuffer(ops2), k);
    var s := BothStart(db0, ops1, ops2, hash);
    CutFits(s, ops1, ops2);
    var t := FlipMoves(s, ops1, ops2, p, hash);
    var r := BothEnd(t, ops1, ops2, hash);
    ReachesOn(Start(db0), s, t, hash);
    ReachesOn(Start(db0), t, r, hash);
    ss, evs := ReachesRun(db0, r, hash);
    BufferUnexpiring(ops1);
    BufferUnexpiring(ops2);
    FlippedFlips(db0.strings, StrBuffer(ops1), StrBuffer(ops2), p, q);
  }

  /** After every run in which two transactions commit with these calls, and no other with any, the key is recoverable. */
  ghost predicate AlwaysRecoverable(db0: Db, hash: Hash, ops1: seq<Op>, ops2: seq<Op>, k: Bytes) {
    forall ss: seq<System>, evs: seq<Event>, id1: nat, id2: nat ::
      Run(ss, evs, db0, hash) && Quiet(ss[|evs|]) && OnlyTwo(ss[|evs|], id1, id2, ops1, ops2) ==> DurableAt(ss[|evs|].db.strings, k)
  }

  /** Overlapping commits and restarts, exactly: a key is recoverable however two commits overlap, if and only if they do not both set it. */
  lemma RecoverableIff(db0: Db, m: Contents, merged: int, hash: Hash, ops1: seq<Op>, ops2: seq<Op>, k: Bytes)
    requires Refines(db0.strings, m, merged) && DurableAt(db0.strings, k) && OpsFit(ops1) && OpsFit(ops2)
    ensures AlwaysRecoverable(db0, hash, ops1, ops2, k) <==> !Shared(ops1, ops2, k)
  {
    hide Refines, DurableAt, Run, OpsFit, Quiet, OnlyTwo, Shared;
    RunLengths(db0, hash);
    if Shared(ops1, ops2, k) {
      RefinesFiles(db0.strings, m, merged);
      var ss, evs := RestartFlips(db0, hash, ops1, ops2, k);
    } else {
      forall ss: seq<System>, evs: seq<Event>, id1: nat, id2: nat | Run(ss, evs, db0, hash) && |ss| == |evs| + 1 && Quiet(ss[|evs|]) && OnlyTwo(ss[|evs|], id1, id2, ops1, ops2)
        ensures DurableAt(ss[|evs|].db.strings, k)
      {
        UnsharedRestart(ss, evs, db0, m, merged, hash, id1, id2, ops1, ops2, k);
      }
    }
  }
}
