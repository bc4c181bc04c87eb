/** Commits in any overlap: what every run leaves in the strings and the sets, and exactly when two transactions stay serial. */
module TxOverlap {
  import opened Bytes
  import opened LogEntry
  import opened LogFile
  import opened Store
  import opened StoreLog
  import opened Refinement
  import opened Recovery
  import opened Alike
  import opened SetDb
  import opened TxWorkers
  import opened Transactions
  import opened Serializable
  import opened TxMix

  // --- the order in which entries reach the index ---

  /** An entry, and the transaction that it belongs to. */
  datatype Tagged = Tagged(id: nat, entry: Pending)

  function Indexes(s: System, ev: Event): seq<Tagged> {
    if ev.Moves? && ev.strings && InCommit(s, ev.id) && s.txs[ev.id].phase.str.todo != [] && s.txs[ev.id].phase.str.written.Some?
    then [Tagged(ev.id, s.txs[ev.id].phase.str.todo[0])] else []
  }

  /** The entries indexed by the first `n` events, in that order. */
  function Applied(ss: seq<System>, evs: seq<Event>, n: nat): seq<Tagged>
    requires |ss| == |evs| + 1 && n <= |evs|
  {
    if n == 0 then [] else Applied(ss, evs, n - 1) + Indexes(ss[n - 1], evs[n - 1])
  }

  function EntriesOf(ts: seq<Tagged>): seq<Pending> {
    if ts == [] then [] else EntriesOf(ts[..|ts| - 1]) + [ts[|ts| - 1].entry]
  }

  /** The entries of one transaction. */
  function Of(ts: seq<Tagged>, id: nat): seq<Pending> {
    if ts == [] then []
    else
      var t := ts[|ts| - 1];
      Of(ts[..|ts| - 1], id) + if t.id == id then [t.entry] else []
  }

  lemma AppendTagged(ts: seq<Tagged>, t: Tagged)
    ensures EntriesOf(ts + [t]) == EntriesOf(ts) + [t.entry]
    ensures forall id :: Of(ts + [t], id) == Of(ts, id) + if t.id == id then [t.entry] else []
  {
    assert (ts + [t])[..|ts|] == ts;
  }

  /** The last entry for the key. */
  function LastTagged(ts: seq<Tagged>, k: Bytes): Option<Tagged> {
    if ts == [] then None
    else
      var t := ts[|ts| - 1];
      if t.entry.key == k then Some(t) else LastTagged(ts[..|ts| - 1], k)
  }

  /** The last entry of all for a key is the last one of its own transaction. */
  lemma {:induction false} LastIsOwn(ts: seq<Tagged>, k: Bytes, id: nat)
    ensures var t := LastTagged(ts, k);
            && Last(EntriesOf(ts), k) == (if t.Some? then Some(t.value.entry.value) else None)
            && (t.Some? && t.value.id == id ==> Last(Of(ts, id), k) == Some(t.value.entry.value))
            && (t.None? ==> Last(Of(ts, id), k) == None)
    decreases |ts|
  {
    if ts != [] {
      var most, t := ts[..|ts| - 1], ts[|ts| - 1];
      LastIsOwn(most, k, id);
      LastAppend(EntriesOf(most), t.entry, k);
      LastAppend(Of(most, id), t.entry, k);
      assert Of(most, id) + [] == Of(most, id);
    }
  }

  lemma LastAppend(es: seq<Pending>, e: Pending, k: Bytes)
    ensures Last(es + [e], k) == if e.key == k then Some(e.value) else Last(es, k)
  {
    assert (es + [e])[..|es|] == es;
  }

  // --- each transaction's share ---

  /** What of a transaction's buffer has reached the index. */
  predicate ShareOk(s: System, ts: seq<Tagged>, id: nat)
    requires id in s.txs && OpsFit(s.txs[id].ops)
  {
    var tx := s.txs[id];
    match tx.phase
    case Open => id !in s.done && Of(ts, id) == []
    case Committing(str, _) => id !in s.done && Of(ts, id) + str.todo == StrBuffer(tx.ops)
    case Closed => Of(ts, id) == if id in s.done then StrBuffer(tx.ops) else []
  }

  ghost predicate Shares(s: System, ts: seq<Tagged>) {
    && (forall id :: id in s.txs ==> OpsFit(s.txs[id].ops) && ShareOk(s, ts, id))
    && forall id :: id !in s.txs ==> id !in s.done && Of(ts, id) == []
  }

  lemma NextShares(s: System, ev: Event, ts: seq<Tagged>, hash: Hash)
    requires Enabled(s, ev) && TxsOk(s, hash) && TxsOk(Next(s, ev, hash), hash) && Shares(s, ts)
    ensures Shares(Next(s, ev, hash), ts + Indexes(s, ev))
  {
    hide OpsFit, StrBuffer, SetBuffer, Prepared, SetStep, Pendings, OpFits, Unlock, Write, Where, Of, EntriesOf;
    var r, ts' := Next(s, ev, hash), ts + Indexes(s, ev);
    if Indexes(s, ev) != [] {
      AppendTagged(ts, Indexes(s, ev)[0]);
    } else {
      assert ts' == ts;
    }
    forall id | id in r.txs
      ensures OpsFit(r.txs[id].ops) && ShareOk(r, ts', id)
    {
      assert TxOk(r.txs[id], r.db.sets, hash);
      if id in s.txs {
        assert TxOk(s.txs[id], s.db.sets, hash) && ShareOk(s, ts, id);
        NextShare(s, ev, ts, id, hash);
      }
    }
  }

  lemma NextShare(s: System, ev: Event, ts: seq<Tagged>, id: nat, hash: Hash)
    requires TxsOk(s, hash) && Enabled(s, ev) && id in s.txs && OpsFit(s.txs[id].ops) && ShareOk(s, ts, id)
    requires id in Next(s, ev, hash).txs && OpsFit(Next(s, ev, hash).txs[id].ops)
    ensures ShareOk(Next(s, ev, hash), ts + Indexes(s, ev), id)
  {
    hide OpsFit, StrBuffer, SetBuffer, Prepared, SetStep, StrStep, Pendings, OpFits, Unlock, Of;
    assert TxOk(s.txs[id], s.db.sets, hash);
    var r := Next(s, ev, hash);
    if ev.Moves? && ev.strings {
      MoveShare(s, ev, ts, id, hash);
    } else {
      assert ts + Indexes(s, ev) == ts;
      assert [] + s.txs[id].pendingStr == s.txs[id].pendingStr && Of(ts, id) + [] == Of(ts, id);
    }
  }

  lemma MoveShare(s: System, ev: Event, ts: seq<Tagged>, id: nat, hash: Hash)
    requires Enabled(s, ev) && ev.Moves? && ev.strings && id in s.txs && OpsFit(s.txs[id].ops) && ShareOk(s, ts, id)
    ensures ShareOk(Next(s, ev, hash), ts + Indexes(s, ev), id)
  {
    hide OpsFit, StrBuffer, SetBuffer, StrStep, Of, SetStep;
    var w := s.txs[ev.id].phase.str;
    TodoLeft(s.db.strings, w);
    if Indexes(s, ev) == [] {
      assert ts + [] == ts;
    } else {
      AppendTagged(ts, Tagged(ev.id, w.todo[0]));
      if ev.id == id {
        Shift(Of(ts, id), w.todo);
      } else {
        assert Of(ts, id) + [] == Of(ts, id);
      }
    }
  }

  lemma TodoLeft(s: OpenStore, w: StrWorker)
    ensures StrStep(s, w).1.todo == if w.todo != [] && w.written.Some? then w.todo[1..] else w.todo
  {
    hide Write, Where, Storable;
  }

  lemma Shift(done: seq<Pending>, todo: seq<Pending>)
    requires todo != []
    ensures done + [todo[0]] + todo[1..] == done + todo
  {
  }

  // --- the strings ---

  /** The place holds the entry, so that the index can be pointed at it. */
  predicate Ready(s: Store, n: Node, e: Pending) {
    n.fid in s.files && 1 <= n.fid <= s.active && n.expiredAt == 0 && WrittenAt(s, n, e.key, Cell(e.value, 0))
  }

  predicate Waiting(s: Store, w: StrWorker) {
    w.todo != [] && w.written.Some? ==> Ready(s, w.written.value, w.todo[0])
  }

  lemma WriteRefines(s: OpenStore, m: Contents, merged: int, e: Entry)
    requires Refines(s, m, merged) && Storable(e)
    ensures Refines(Write(s, e), m, merged)
  {
    hide Size, HeaderSize, EntryCrc, Used, EntryAt, Write, Where, WrittenAt;
    WriteFacts(s, e);
    WriteKeepsIndex(s, e);
    var r := Write(s, e);
    forall k | k in r.index
      ensures NodeOk(r, m, merged, k)
    {
      assert NodeOk(s, m, merged, k);
      NodeKept(s, r, m, m, merged, merged, k);
    }
  }

  lemma ReadyKept(s: OpenStore, x: Entry, n: Node, e: Pending)
    requires Wf(s) && Storable(x) && Ready(s, n, e)
    ensures Ready(Write(s, x), n, e)
  {
    hide Size, HeaderSize, EntryCrc, Used, EntryAt, Write, Where;
    WriteFacts(s, x);
    EntryAtPrefix(s.files[n.fid].entries, Write(s, x).files[n.fid].entries, n.offset);
  }

  lemma ReadyNow(s: OpenStore, e: Pending)
    requires Wf(s) && e == Plain(e.key, e.value)
    ensures Ready(Write(s, Marked(e)), Where(s, Marked(e)), e)
  {
    hide HeaderSize, EntryCrc, Used, EntryAt, Write, Size, Rolled;
    WriteFacts(s, Marked(e));
  }

  lemma ReindexRefines(s: OpenStore, m: Contents, merged: int, n: Node, e: Pending)
    requires Refines(s, m, merged) && Ready(s, n, e)
    ensures Refines(Reindexed(s, e.key, n), m[e.key := Cell(e.value, 0)], merged)
  {
    hide Size, EntryCrc, Used, WrittenAt, Send;
    var r, m' := Reindexed(s, e.key, n), m[e.key := Cell(e.value, 0)];
    forall k | k in r.index
      ensures NodeOk(r, m', merged, k)
    {
      if k == e.key {
        SamePlace(s, r, n, k, m'[k]);
      } else {
        assert NodeOk(s, m, merged, k);
        if r.index[k].fid in r.files {
          SamePlace(s, r, r.index[k], k, m[k]);
        }
      }
    }
  }

  lemma SamePlace(s: Store, r: Store, n: Node, k: Bytes, c: Cell)
    requires r.files == s.files && n.fid in s.files && WrittenAt(s, n, k, c)
    ensures WrittenAt(r, n, k, c)
  {
  }

  /** One move of one worker, seen by the contents and by every other worker. */
  lemma MoveRefines(s: OpenStore, m: Contents, merged: int, w: StrWorker)
    requires Refines(s, m, merged) && Waiting(s, w) && Unexpiring(w.todo)
    ensures var (s', w') := StrStep(s, w);
            && Waiting(s', w') && Unexpiring(w'.todo)
            && Refines(s', if w.todo != [] && w.written.Some? then m[w.todo[0].key := Cell(w.todo[0].value, 0)] else m, merged)
  {
    hide Refines, Write, Where, Ready, Storable, Reindexed;
    if w.todo != [] {
      var e := w.todo[0];
      if w.written.None? {
        WriteRefines(s, m, merged, Marked(e));
        RefinesFiles(s, m, merged);
        ReadyNow(s, e);
      } else {
        ReindexRefines(s, m, merged, w.written.value, e);
      }
    }
  }

  lemma MoveKeeps(s: OpenStore, m: Contents, merged: int, w: StrWorker, other: StrWorker)
    requires Refines(s, m, merged) && Waiting(s, other)
    ensures Waiting(StrStep(s, w).0, other)
  {
    hide Refines, Write, Where, Storable;
    RefinesFiles(s, m, merged);
    if w.todo != [] && other.todo != [] && other.written.Some? {
      if w.written.None? {
        hide Ready;
        ReadyKept(s, Marked(w.todo[0]), other.written.value, other.todo[0]);
      } else {
        SamePlace(s, StrStep(s, w).0, other.written.value, other.todo[0].key, Cell(other.todo[0].value, 0));
      }
    }
  }

  /** The strings stand for the entries that have reached the index, and every written place is good. */
  ghost predicate StrInv(s: System, ts: seq<Tagged>, m: Contents, merged: int) {
    && Refines(s.db.strings, FoldEntries(m, EntriesOf(ts)), merged)
    && forall id :: InCommit(s, id) ==> Waiting(s.db.strings, s.txs[id].phase.str) && Unexpiring(s.txs[id].phase.str.todo)
  }

  lemma NextStr(s: System, ev: Event, ts: seq<Tagged>, m: Contents, merged: int, hash: Hash)
    requires Enabled(s, ev) && TxsOk(s, hash) && StrInv(s, ts, m, merged)
    ensures StrInv(Next(s, ev, hash), ts + Indexes(s, ev), m, merged)
  {
    hide Refines, OpsFit, StrBuffer, SetBuffer, Prepared, StrStep, SetStep, Pendings, OpFits, Unlock, FoldEntries, EntriesOf, Waiting;
    var r := Next(s, ev, hash);
    if ev.Moves? && ev.strings {
      MoveStr(s, ev, ts, m, merged, hash);
    } else {
      assert ts + Indexes(s, ev) == ts;
      forall id | InCommit(r, id)
        ensures Waiting(r.db.strings, r.txs[id].phase.str) && Unexpiring(r.txs[id].phase.str.todo)
      {
        if !InCommit(s, id) {
          assert TxOk(s.txs[id], s.db.sets, hash);
          BufferUnexpiring(s.txs[id].ops);
          FreshWaits(r.db.strings, s.txs[id].pendingStr);
        }
      }
    }
  }

  lemma FreshWaits(s: Store, es: seq<Pending>)
    ensures Waiting(s, Worker(es, None))
  {
  }

  lemma MoveStr(s: System, ev: Event, ts: seq<Tagged>, m: Contents, merged: int, hash: Hash)
    requires Enabled(s, ev) && ev.Moves? && ev.strings && StrInv(s, ts, m, merged)
    ensures StrInv(Next(s, ev, hash), ts + Indexes(s, ev), m, merged)
  {
    hide Refines, StrStep, SetStep, FoldEntries, EntriesOf, Waiting;
    var r, w := Next(s, ev, hash), s.txs[ev.id].phase.str;
    var m' := FoldEntries(m, EntriesOf(ts));
    MoveRefines(s.db.strings, m', merged, w);
    if Indexes(s, ev) == [] {
      assert ts + [] == ts;
    } else {
      AppendTagged(ts, Indexes(s, ev)[0]);
      FoldAppend(m, EntriesOf(ts), w.todo[0]);
    }
    forall id | InCommit(r, id)
      ensures Waiting(r.db.strings, r.txs[id].phase.str) && Unexpiring(r.txs[id].phase.str.todo)
    {
      if id != ev.id {
        assert InCommit(s, id);
        MoveKeeps(s.db.strings, m', merged, w, s.txs[id].phase.str);
      }
    }
  }

  lemma FoldAppend(m: Contents, es: seq<Pending>, e: Pending)
    ensures FoldEntries(m, es + [e]) == FoldEntries(m, es)[e.key := Cell(e.value, 0)]
  {
    assert (es + [e])[..|es|] == es;
  }

  /** Every run, every overlap: the strings stand for the entries in the order in which they reached the index. */
  lemma {:induction false} RunApplied(ss: seq<System>, evs: seq<Event>, db0: Db, m: Contents, merged: int, hash: Hash, n: nat)
    requires Run(ss, evs, db0, hash) && Refines(db0.strings, m, merged) && n < |ss|
    ensures StrInv(ss[n], Applied(ss, evs, n), m, merged) && Shares(ss[n], Applied(ss, evs, n))
    decreases n
  {
    hide Enabled, Next, Refines, Indexes, TxsOk, LockInv;
    if n > 0 {
      hide StrInv, Shares;
      RunApplied(ss, evs, db0, m, merged, hash, n - 1);
      RunLocks(ss, evs, db0, hash, n - 1);
      RunLocks(ss, evs, db0, hash, n);
      NextShares(ss[n - 1], evs[n - 1], Applied(ss, evs, n - 1), hash);
      NextStr(ss[n - 1], evs[n - 1], Applied(ss, evs, n - 1), m, merged, hash);
    }
  }

  // --- what comes out ---

  /**
   Key by key. In every quiet state of every run, whatever overlapped, each key has the last value that one of the
   committed transactions gives it, or its old cell if none gives it any.
   */
  lemma KeyCommitted(ss: seq<System>, evs: seq<Event>, db0: Db, m: Contents, merged: int, hash: Hash, n: nat, k: Bytes) returns (m': Contents)
    requires Run(ss, evs, db0, hash) && Refines(db0.strings, m, merged) && n < |ss| && Quiet(ss[n])
    ensures Refines(ss[n].db.strings, m', merged)
    ensures forall id :: id in ss[n].done ==> id in ss[n].txs && OpsFit(ss[n].txs[id].ops)
    ensures || (exists id :: id in ss[n].done && GivesLast(ss[n], id, k, m'))
            || ((k in m' <==> k in m) && (k in m ==> m'[k] == m[k])
                && forall id :: id in ss[n].done ==> Last(StrBuffer(ss[n].txs[id].ops), k).None?)
  {
    hide Refines, Enabled, Next, OpsFit, StrBuffer, Of, EntriesOf, FoldEntries, Last, LastTagged;
    RunApplied(ss, evs, db0, m, merged, hash, n);
    var s, ts := ss[n], Applied(ss, evs, n);
    m' := FoldEntries(m, EntriesOf(ts));
    FoldLast(m, EntriesOf(ts), k);
    var t := LastTagged(ts, k);
    if t.Some? {
      var id := t.value.id;
      LastIsOwn(ts, k, id);
      LastNothing(k);
      QuietShare(s, ts, id);
      assert GivesLast(s, id, k, m');
    } else {
      forall id | id in s.done
        ensures Last(StrBuffer(s.txs[id].ops), k).None?
      {
        LastIsOwn(ts, k, id);
        QuietShare(s, ts, id);
      }
      LastIsOwn(ts, k, 0);
    }
  }

  predicate GivesLast(s: System, id: nat, k: Bytes, m: Contents) {
    && id in s.txs && OpsFit(s.txs[id].ops) && k in m
    && Last(StrBuffer(s.txs[id].ops), k).Some? && m[k] == Cell(Last(StrBuffer(s.txs[id].ops), k).value, 0)
  }

  lemma LastNothing(k: Bytes)
    ensures Last([], k) == None
  {
  }

  /** In a quiet state a committed transaction has all of its entries in the index, and any other none. */
  lemma QuietShare(s: System, ts: seq<Tagged>, id: nat)
    requires Quiet(s) && Shares(s, ts)
    ensures id in s.done ==> id in s.txs && OpsFit(s.txs[id].ops) && Of(ts, id) == StrBuffer(s.txs[id].ops)
    ensures id !in s.done ==> Of(ts, id) == []
  {
    hide OpsFit, Of;
    if id in s.txs {
      assert ShareOk(s, ts, id);
      if s.txs[id].phase.Committing? {
        assert !Busy(s, id);
        assert StrBuffer([]) == [];
      }
    }
  }

  // --- two transactions ---

  /** The strings are those of one of the two orders. */
  predicate SerialEnd(s: Store, m: Contents, merged: int, ops1: seq<Op>, ops2: seq<Op>) {
    Refines(s, FoldSets(FoldSets(m, ops1), ops2), merged) || Refines(s, FoldSets(FoldSets(m, ops2), ops1), merged)
  }

  /** Both set the key, and not to the same last value. */
  predicate Conflict(ops1: seq<Op>, ops2: seq<Op>, k: Bytes)
    requires OpsFit(ops1) && OpsFit(ops2)
  {
    var x, y := Last(StrBuffer(ops1), k), Last(StrBuffer(ops2), k);
    x.Some? && y.Some? && x != y
  }

  ghost predicate TwoConflicts(ops1: seq<Op>, ops2: seq<Op>)
    requires OpsFit(ops1) && OpsFit(ops2)
  {
    exists a, b :: a != b && Conflict(ops1, ops2, a) && Conflict(ops1, ops2, b)
  }

  /** The entries come from these two transactions and are all of theirs. */
  ghost predicate Shuffle(ts: seq<Tagged>, id1: nat, id2: nat, es: seq<Pending>, fs: seq<Pending>) {
    id1 != id2 && Of(ts, id1) == es && Of(ts, id2) == fs && forall id :: id != id1 && id != id2 ==> Of(ts, id) == []
  }

  /** The value a key ends with: the one of `id2` where it wins, as in the order `id1`, `id2`. */
  lemma ShuffleValue(ts: seq<Tagged>, id1: nat, id2: nat, es: seq<Pending>, fs: seq<Pending>, m: Contents, k: Bytes)
    requires Shuffle(ts, id1, id2, es, fs)
    ensures var r, both := FoldEntries(m, EntriesOf(ts)), FoldEntries(FoldEntries(m, es), fs);
            (LastTagged(ts, k).Some? && LastTagged(ts, k).value.id == id1 && Last(fs, k).Some? ==> Last(es, k) == Last(fs, k))
            ==> (k in r <==> k in both) && (k in r ==> r[k] == both[k])
  {
    hide Of, EntriesOf, FoldEntries, Last, LastTagged;
    LastIsOwn(ts, k, id1);
    LastIsOwn(ts, k, id2);
    FoldLast(m, EntriesOf(ts), k);
    FoldLast(m, es, k);
    FoldLast(FoldEntries(m, es), fs, k);
    var t := LastTagged(ts, k);
    if t.Some? {
      LastIsOwn(ts, k, t.value.id);
      LastNothing(k);
    }
  }

  /** With at most one conflicting key, any shuffle folds like one of the two orders: the one in which that key's winner is last. */
  lemma ShuffleSerial(ts: seq<Tagged>, id1: nat, id2: nat, es: seq<Pending>, fs: seq<Pending>, m: Contents)
    requires Shuffle(ts, id1, id2, es, fs)
    requires forall a, b :: Differ(es, fs, a) && Differ(es, fs, b) ==> a == b
    ensures var r := FoldEntries(m, EntriesOf(ts));
            r == FoldEntries(FoldEntries(m, es), fs) || r == FoldEntries(FoldEntries(m, fs), es)
  {
    hide Of, EntriesOf, FoldEntries, Last, LastTagged;
    var r := FoldEntries(m, EntriesOf(ts));
    if c :| Differ(es, fs, c) && LastTagged(ts, c).Some? && LastTagged(ts, c).value.id == id1 {
      forall k
        ensures (k in r <==> k in FoldEntries(FoldEntries(m, fs), es)) && (k in r ==> r[k] == FoldEntries(FoldEntries(m, fs), es)[k])
      {
        SwapShuffle(ts, id1, id2, es, fs);
        Winner(ts, id1, id2, es, fs, k);
        assert Differ(es, fs, k) ==> k == c;
        ShuffleValue(ts, id2, id1, fs, es, m, k);
      }
    } else {
      forall k
        ensures (k in r <==> k in FoldEntries(FoldEntries(m, es), fs)) && (k in r ==> r[k] == FoldEntries(FoldEntries(m, es), fs)[k])
      {
        Winner(ts, id1, id2, es, fs, k);
        assert Differ(es, fs, k) && LastTagged(ts, k).Some? ==> LastTagged(ts, k).value.id != id1;
        ShuffleValue(ts, id1, id2, es, fs, m, k);
      }
    }
  }

  predicate Differ(es: seq<Pending>, fs: seq<Pending>, k: Bytes) {
    Last(es, k).Some? && Last(fs, k).Some? && Last(es, k) != Last(fs, k)
  }

  lemma SwapShuffle(ts: seq<Tagged>, id1: nat, id2: nat, es: seq<Pending>, fs: seq<Pending>)
    requires Shuffle(ts, id1, id2, es, fs)
    ensures Shuffle(ts, id2, id1, fs, es)
  {
    hide Of;
  }

  lemma Winner(ts: seq<Tagged>, id1: nat, id2: nat, es: seq<Pending>, fs: seq<Pending>, k: Bytes)
    requires Shuffle(ts, id1, id2, es, fs)
    ensures var t := LastTagged(ts, k);
            t.Some? ==> (t.value.id == id1 && Last(es, k).Some?) || (t.value.id == id2 && Last(fs, k).Some?)
  {
    hide Of, EntriesOf, Last, LastTagged;
    var t := LastTagged(ts, k);
    if t.Some? {
      LastIsOwn(ts, k, t.value.id);
      LastNothing(k);
    }
  }

  /** Two commits that overlap in any way, without two conflicting keys, leave what one of the two orders leaves. */
  lemma OverlapSerial(ss: seq<System>, evs: seq<Event>, db0: Db, m: Contents, merged: int, hash: Hash, id1: nat, id2: nat, ops1: seq<Op>, ops2: seq<Op>)
    requires Run(ss, evs, db0, hash) && Refines(db0.strings, m, merged) && OpsFit(ops1) && OpsFit(ops2) && !TwoConflicts(ops1, ops2)
    requires Quiet(ss[|evs|]) && OnlyTwo(ss[|evs|], id1, id2, ops1, ops2)
    ensures SerialEnd(ss[|evs|].db.strings, m, merged, ops1, ops2)
  {
    hide Refines, Enabled, Next, OpsFit, StrBuffer, Of, EntriesOf, FoldEntries, Last, FoldSets;
    RunApplied(ss, evs, db0, m, merged, hash, |evs|);
    var s, ts := ss[|evs|], Applied(ss, evs, |evs|);
    var es, fs := StrBuffer(ops1), StrBuffer(ops2);
    forall id
      ensures Of(ts, id) == if id == id1 then es else if id == id2 then fs else []
    {
      QuietShare(s, ts, id);
      NothingBufferedStr();
    }
    forall a, b | Differ(es, fs, a) && Differ(es, fs, b)
      ensures a == b
    {
      assert Conflict(ops1, ops2, a) && Conflict(ops1, ops2, b);
    }
    ShuffleSerial(ts, id1, id2, es, fs, m);
    BufferFolds(m, ops1);
    BufferFolds(m, ops2);
    BufferFolds(FoldSets(m, ops1), ops2);
    BufferFolds(FoldSets(m, ops2), ops1);
  }

  lemma NothingBufferedStr()
    ensures StrBuffer([]) == []
  {
  }

  /** Every run in which two transactions commit with these calls, and no other with any, ends like one of the two orders. */
  ghost predicate AlwaysSerial(db0: Db, m: Contents, merged: int, hash: Hash, ops1: seq<Op>, ops2: seq<Op>) {
    forall ss: seq<System>, evs: seq<Event>, id1: nat, id2: nat ::
      Run(ss, evs, db0, hash) && Quiet(ss[|evs|]) && OnlyTwo(ss[|evs|], id1, id2, ops1, ops2)
      ==> SerialEnd(ss[|evs|].db.strings, m, merged, ops1, ops2)
  }

  /**
   Overlapping commits, exactly. However two transactions overlap, the strings end like one of the two orders, if and only
   if they do not set two keys to different last values.
   */
  lemma SerialIff(db0: Db, m: Contents, merged: int, hash: Hash, ops1: seq<Op>, ops2: seq<Op>)
    requires Refines(db0.strings, m, merged) && OpsFit(ops1) && OpsFit(ops2)
    ensures AlwaysSerial(db0, m, merged, hash, ops1, ops2) <==> !TwoConflicts(ops1, ops2)
  {
    hide Refines, Run, Quiet, OnlyTwo, OpsFit, SerialEnd;
    if TwoConflicts(ops1, ops2) {
      NotAlways(db0, m, merged, hash, ops1, ops2);
    } else {
      forall ss: seq<System>, evs: seq<Event>, id1: nat, id2: nat | Run(ss, evs, db0, hash) && |ss| == |evs| + 1 && Quiet(ss[|evs|]) && OnlyTwo(ss[|evs|], id1, id2, ops1, ops2)
        ensures SerialEnd(ss[|evs|].db.strings, m, merged, ops1, ops2)
      {
        OverlapSerial(ss, evs, db0, m, merged, hash, id1, id2, ops1, ops2);
      }
      assert forall ss: seq<System>, evs: seq<Event> :: Run(ss, evs, db0, hash) ==> |ss| == |evs| + 1 by { RunLengths(db0, hash); }
    }
  }

  lemma RunLengths(db0: Db, hash: Hash)
    ensures forall ss: seq<System>, evs: seq<Event> :: Run(ss, evs, db0, hash) ==> |ss| == |evs| + 1
  {
  }

  lemma NotAlways(db0: Db, m: Contents, merged: int, hash: Hash, ops1: seq<Op>, ops2: seq<Op>)
    requires Refines(db0.strings, m, merged) && OpsFit(ops1) && OpsFit(ops2) && TwoConflicts(ops1, ops2)
    ensures !AlwaysSerial(db0, m, merged, hash, ops1, ops2)
  {
    hide Refines, OpsFit, StrBuffer, Last, FoldSets, Quiet, OnlyTwo;
    var a, b :| a != b && Conflict(ops1, ops2, a) && Conflict(ops1, ops2, b);
    var ss, evs, m' := ReadersCanMix(db0, m, merged, hash, ops1, ops2, a, b);
    var s := ss[|evs|].db.strings;
    var one, two := FoldSets(FoldSets(m, ops1), ops2), FoldSets(FoldSets(m, ops2), ops1);
    if Refines(s, one, merged) {
      OneCell(s, m', one, merged, a);
      OneCell(s, m', one, merged, b);
    }
    if Refines(s, two, merged) {
      OneCell(s, m', two, merged, a);
      OneCell(s, m', two, merged, b);
    }
    assert !SerialEnd(s, m, merged, ops1, ops2);
    assert OnlyTwo(ss[|evs|], 1, 2, ops1, ops2);
  }

  /** A store stands for at most one cell of a key that does not expire. */
  lemma OneCell(s: Store, m: Contents, m': Contents, merged: int, k: Bytes)
    requires Refines(s, m, merged) && Refines(s, m', merged) && k in m && k in m' && m[k].expiredAt == 0
    ensures m[k] == m'[k]
  {
    hide EntryAt, Used, Size;
    assert NodeOk(s, m, merged, k) && NodeOk(s, m', merged, k);
  }

  // --- the sets ---

  predicate AddedBy(ops: seq<Op>, k: Bytes, mem: Bytes) {
    exists i :: 0 <= i < |ops| && Adds(ops[i], k, mem)
  }

  predicate IsFor(x: Member, hash: Hash, k: Bytes, mem: Bytes) {
    x.entry.key == k && x.sum == hash(mem)
  }

  predicate Holding(ms: seq<Member>, hash: Hash, k: Bytes, mem: Bytes) {
    exists i :: 0 <= i < |ms| && IsFor(ms[i], hash, k, mem)
  }

  lemma HoldingAppend(a: seq<Member>, b: seq<Member>, hash: Hash, k: Bytes, mem: Bytes)
    ensures Holding(a + b, hash, k, mem) <==> Holding(a, hash, k, mem) || Holding(b, hash, k, mem)
  {
    if i :| 0 <= i < |a| && IsFor(a[i], hash, k, mem) {
      assert (a + b)[i] == a[i];
    }
    if i :| 0 <= i < |b| && IsFor(b[i], hash, k, mem) {
      assert (a + b)[|a| + i] == b[i];
    }
    if i :| 0 <= i < |a + b| && IsFor((a + b)[i], hash, k, mem) {
      assert (a + b)[i] == if i < |a| then a[i] else b[i - |a|];
    }
  }

  lemma {:induction false} PendingsHold(hash: Hash, key: Bytes, members: seq<Bytes>, k: Bytes, mem: Bytes)
    requires Injective(hash) && MembersFit(key, members)
    ensures Holding(Pendings(hash, key, members), hash, k, mem) <==> key == k && mem != [] && mem in members
    decreases |members|
  {
    hide Storable;
    if members != [] {
      PendingsHold(hash, key, members[1..], k, mem);
      if members[0] != [] {
        var x := Member(Plain(key, members[0]), hash(members[0]));
        HoldingAppend([x], Pendings(hash, key, members[1..]), hash, k, mem);
        assert [x][0] == x;
        assert Holding([x], hash, k, mem) <==> IsFor(x, hash, k, mem);
      } else {
        assert [] + Pendings(hash, key, members[1..]) == Pendings(hash, key, members[1..]);
      }
    }
  }

  /** The buffer holds a member exactly if a call added it. */
  lemma {:induction false} BufferHolds(ops: seq<Op>, hash: Hash, k: Bytes, mem: Bytes)
    requires OpsFit(ops) && Injective(hash)
    ensures Holding(SetBuffer(ops, hash), hash, k, mem) <==> AddedBy(ops, k, mem)
    decreases |ops|
  {
    hide Bufferable, MembersFit, Pendings, Holding, Injective;
    if ops == [] {
      NothingHeld(hash, k, mem);
    } else {
      var most, op := ops[..|ops| - 1], ops[|ops| - 1];
      BufferHolds(most, hash, k, mem);
      AddedByAppend(most, op, k, mem);
      assert most + [op] == ops;
      NothingHeld(hash, k, mem);
      if op.TxSAdd? {
        PendingsHold(hash, op.key, op.members, k, mem);
        HoldingAppend(SetBuffer(most, hash), Pendings(hash, op.key, op.members), hash, k, mem);
      } else {
        assert SetBuffer(most, hash) + [] == SetBuffer(most, hash);
      }
    }
  }

  lemma NothingHeld(hash: Hash, k: Bytes, mem: Bytes)
    ensures !Holding([], hash, k, mem)
  {
  }

  lemma AddedByAppend(ops: seq<Op>, op: Op, k: Bytes, mem: Bytes)
    ensures AddedBy(ops + [op], k, mem) <==> AddedBy(ops, k, mem) || Adds(op, k, mem)
  {
    AddedByConcat(ops, [op], k, mem);
    assert [op][0] == op;
    assert AddedBy([op], k, mem) <==> Adds(op, k, mem);
  }

  lemma AddedByConcat(a: seq<Op>, b: seq<Op>, k: Bytes, mem: Bytes)
    ensures AddedBy(a + b, k, mem) <==> AddedBy(a, k, mem) || AddedBy(b, k, mem)
  {
    if i :| 0 <= i < |a| && Adds(a[i], k, mem) {
      assert (a + b)[i] == a[i];
    }
    if i :| 0 <= i < |b| && Adds(b[i], k, mem) {
      assert (a + b)[|a| + i] == b[i];
    }
    if i :| 0 <= i < |a + b| && Adds((a + b)[i], k, mem) {
      assert (a + b)[i] == if i < |a| then a[i] else b[i - |a|];
    }
  }

  /** A member that a commit under way will still add, or has added, comes from its calls. */
  ghost predicate WorkOk(s: System, id: nat, hash: Hash, k: Bytes, mem: Bytes)
    requires InCommit(s, id)
  {
    var tx := s.txs[id];
    && (Holding(tx.phase.set_.todo, hash, k, mem) ==> AddedBy(tx.ops, k, mem))
    && (AddedBy(tx.ops, k, mem) ==> IsMember(s.db.sets, hash, k, mem) || Holding(tx.phase.set_.todo, hash, k, mem))
  }

  /** The member is there if it was there before, was committed, or is being committed and not still to come. */
  ghost predicate SetInv(s: System, db0: Db, hash: Hash, k: Bytes, mem: Bytes) {
    && (IsMember(db0.sets, hash, k, mem) || AddedBy(s.committed, k, mem) ==> IsMember(s.db.sets, hash, k, mem))
    && (forall id :: InCommit(s, id) ==> WorkOk(s, id, hash, k, mem))
    && (IsMember(s.db.sets, hash, k, mem) ==>
          IsMember(db0.sets, hash, k, mem) || AddedBy(s.committed, k, mem) || exists id :: InCommit(s, id) && AddedBy(s.txs[id].ops, k, mem))
  }

  lemma NextSets(s: System, ev: Event, db0: Db, hash: Hash, k: Bytes, mem: Bytes)
    requires Enabled(s, ev) && TxsOk(s, hash) && Injective(hash) && SetInv(s, db0, hash, k, mem)
    ensures SetInv(Next(s, ev, hash), db0, hash, k, mem)
  {
    hide OpsFit, StrBuffer, SetBuffer, Prepared, StrStep, SetStep, Pendings, OpFits, Unlock, Holding, AddedBy, Injective, IsMember, Buffered;
    match ev
    case Moves(id, strings) =>
      if !strings {
        MoveSets(s, id, db0, hash, k, mem);
      } else {
        SameSetInv(s, Next(s, ev, hash), db0, hash, k, mem);
      }
    case Commits(id) =>
      var tx := s.txs[id];
      assert TxOk(tx, s.db.sets, hash);
      if tx.phase.Open? && !s.closed {
        BufferHolds(tx.ops, hash, k, mem);
        StartSets(s, id, db0, hash, k, mem);
      }
    case Ends(id) => EndSets(s, id, db0, hash, k, mem);
    case Calls(id, op) =>
      BufferedOpen(s.txs[id], op, hash);
      TouchedMember(s.db, op, hash, k, mem);
      SameSetInv(s, Next(s, ev, hash), db0, hash, k, mem);
    case _ => SameSetInv(s, Next(s, ev, hash), db0, hash, k, mem);
  }

  lemma TouchedMember(db: Db, op: Op, hash: Hash, k: Bytes, mem: Bytes)
    ensures IsMember(Touched(db, op).sets, hash, k, mem) <==> IsMember(db.sets, hash, k, mem)
  {
  }

  lemma SameSetInv(s: System, r: System, db0: Db, hash: Hash, k: Bytes, mem: Bytes)
    requires SetInv(s, db0, hash, k, mem) && r.committed == s.committed
    requires IsMember(r.db.sets, hash, k, mem) <==> IsMember(s.db.sets, hash, k, mem)
    requires forall id :: InCommit(r, id) <==> InCommit(s, id)
    requires forall id :: InCommit(s, id) && InCommit(r, id) ==> r.txs[id].ops == s.txs[id].ops && r.txs[id].phase.set_ == s.txs[id].phase.set_
    ensures SetInv(r, db0, hash, k, mem)
  {
    hide Holding, AddedBy, IsMember;
    forall id | InCommit(r, id)
      ensures WorkOk(r, id, hash, k, mem)
    {
      assert WorkOk(s, id, hash, k, mem);
    }
    if id :| InCommit(s, id) && AddedBy(s.txs[id].ops, k, mem) {
      assert InCommit(r, id) && AddedBy(r.txs[id].ops, k, mem);
    }
  }

  lemma StartSets(s: System, id: nat, db0: Db, hash: Hash, k: Bytes, mem: Bytes)
    requires Enabled(s, Commits(id)) && SetInv(s, db0, hash, k, mem) && s.txs[id].phase.Open? && !s.closed
    requires Holding(s.txs[id].pendingSet, hash, k, mem) <==> AddedBy(s.txs[id].ops, k, mem)
    ensures SetInv(Next(s, Commits(id), hash), db0, hash, k, mem)
  {
    hide Holding, AddedBy, IsMember;
    var r := Next(s, Commits(id), hash);
    forall other | InCommit(r, other)
      ensures WorkOk(r, other, hash, k, mem)
    {
      if other != id {
        assert WorkOk(s, other, hash, k, mem);
      }
    }
    if other :| InCommit(s, other) && AddedBy(s.txs[other].ops, k, mem) {
      assert InCommit(r, other) && AddedBy(r.txs[other].ops, k, mem);
    }
  }

  lemma EndSets(s: System, id: nat, db0: Db, hash: Hash, k: Bytes, mem: Bytes)
    requires Enabled(s, Ends(id)) && SetInv(s, db0, hash, k, mem)
    ensures SetInv(Next(s, Ends(id), hash), db0, hash, k, mem)
  {
    hide Holding, AddedBy, IsMember, Unlock;
    var r := Next(s, Ends(id), hash);
    AddedByConcat(s.committed, s.txs[id].ops, k, mem);
    NothingHeld(hash, k, mem);
    assert WorkOk(s, id, hash, k, mem);
    forall other | InCommit(r, other)
      ensures WorkOk(r, other, hash, k, mem)
    {
      assert WorkOk(s, other, hash, k, mem);
    }
    if other :| InCommit(s, other) && AddedBy(s.txs[other].ops, k, mem) {
      assert other == id || (InCommit(r, other) && AddedBy(r.txs[other].ops, k, mem));
    }
  }

  /** One move of a set worker adds at most the member it has just written. */
  lemma StepMember(sets: Sets, w: SetWorker, hash: Hash, k: Bytes, mem: Bytes)
    ensures var (sets', w') := SetStep(sets, w);
            var adds := w.todo != [] && w.written.Some?;
            && w'.todo == (if adds then w.todo[1..] else w.todo)
            && (IsMember(sets', hash, k, mem) <==> IsMember(sets, hash, k, mem) || (adds && IsFor(w.todo[0], hash, k, mem)))
  {
    hide Write, Where, Storable;
  }

  lemma HoldingFirst(ms: seq<Member>, hash: Hash, k: Bytes, mem: Bytes)
    requires ms != []
    ensures Holding(ms, hash, k, mem) <==> IsFor(ms[0], hash, k, mem) || Holding(ms[1..], hash, k, mem)
  {
    assert ms == [ms[0]] + ms[1..];
    HoldingAppend([ms[0]], ms[1..], hash, k, mem);
    assert [ms[0]][0] == ms[0];
    assert Holding([ms[0]], hash, k, mem) <==> IsFor(ms[0], hash, k, mem);
  }

  lemma MoveSets(s: System, id: nat, db0: Db, hash: Hash, k: Bytes, mem: Bytes)
    requires Enabled(s, Moves(id, false)) && SetInv(s, db0, hash, k, mem)
    ensures SetInv(Next(s, Moves(id, false), hash), db0, hash, k, mem)
  {
    hide Holding, AddedBy, IsMember, SetStep, StrStep, IsFor;
    var r, w := Next(s, Moves(id, false), hash), s.txs[id].phase.set_;
    StepMember(s.db.sets, w, hash, k, mem);
    assert WorkOk(s, id, hash, k, mem);
    if w.todo != [] {
      HoldingFirst(w.todo, hash, k, mem);
    }
    assert forall other :: InCommit(r, other) <==> InCommit(s, other);
    forall other | InCommit(r, other)
      ensures WorkOk(r, other, hash, k, mem)
    {
      assert WorkOk(s, other, hash, k, mem);
    }
    if other :| InCommit(s, other) && AddedBy(s.txs[other].ops, k, mem) {
      assert InCommit(r, other) && AddedBy(r.txs[other].ops, k, mem);
    }
  }

  lemma {:induction false} RunSets(ss: seq<System>, evs: seq<Event>, db0: Db, hash: Hash, n: nat, k: Bytes, mem: Bytes)
    requires Run(ss, evs, db0, hash) && Injective(hash) && n < |ss|
    ensures SetInv(ss[n], db0, hash, k, mem)
    decreases n
  {
    hide Enabled, Next, TxsOk, LockInv, Injective, IsMember;
    if n > 0 {
      hide SetInv;
      RunSets(ss, evs, db0, hash, n - 1, k, mem);
      RunLocks(ss, evs, db0, hash, n - 1);
      NextSets(ss[n - 1], evs[n - 1], db0, hash, k, mem);
    }
  }

  /** Members. In every quiet state of every run, whatever overlapped, a set has what it had before and all committed members. */
  lemma MembersUnion(ss: seq<System>, evs: seq<Event>, db0: Db, hash: Hash, n: nat, k: Bytes, mem: Bytes)
    requires Run(ss, evs, db0, hash) && Injective(hash) && n < |ss| && Quiet(ss[n])
    ensures IsMember(ss[n].db.sets, hash, k, mem) <==> IsMember(db0.sets, hash, k, mem) || AddedBy(ss[n].committed, k, mem)
  {
    hide Enabled, Next, Injective, IsMember;
    RunSets(ss, evs, db0, hash, n, k, mem);
    forall id | InCommit(ss[n], id)
      ensures !AddedBy(ss[n].txs[id].ops, k, mem)
    {
      assert !Busy(ss[n], id);
    }
  }
}
