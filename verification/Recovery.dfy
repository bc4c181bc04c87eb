/** Rebuilding the index from the log: what commands, merges and reopening do to recoverability. */
module Recovery {
  import opened Bytes
  import opened LogEntry
  import opened LogFile
  import opened Decimal
  import opened Store
  import opened StoreLog
  import opened MergeSteps
  import opened Refinement

  /** The part of the index that leads into existing files, without the expiry that a replay does not restore. */
  function Live(s: Store): Index {
    map k | k in s.index && s.index[k].fid in s.files :: s.index[k].(expiredAt := 0)
  }

  /** Replaying the files rebuilds exactly the live part of the index. */
  predicate Durable(s: Store) {
    Live(s) == Rebuilt(s)
  }

  /** The same for one key. */
  predicate DurableAt(s: Store, k: Bytes) {
    Agree(Live(s), Rebuilt(s), k)
  }

  lemma DurableEverywhere(s: Store)
    ensures Durable(s) <==> forall k :: DurableAt(s, k)
  {
    hide Rebuilt, Live;
    if forall k :: DurableAt(s, k) {
      forall k
        ensures Agree(Live(s), Rebuilt(s), k)
      {
        assert DurableAt(s, k);
      }
      AgreeEverywhere(Live(s), Rebuilt(s));
    }
  }

  predicate Mentions(recs: seq<Rec>, k: Bytes) {
    exists i :: 0 <= i < |recs| && recs[i].entry.key == k
  }

  lemma AgreeEverywhere(a: Index, b: Index)
    requires forall k :: Agree(a, b, k)
    ensures a == b
  {
    forall k
      ensures (k in a <==> k in b) && (k in a ==> a[k] == b[k])
    {
      assert Agree(a, b, k);
    }
  }

  predicate Agree(a: Index, b: Index, k: Bytes) {
    (k in a <==> k in b) && (k in a ==> a[k] == b[k])
  }

  lemma MentionsCons(recs: seq<Rec>, k: Bytes)
    requires recs != []
    ensures Mentions(recs, k) <==> recs[0].entry.key == k || Mentions(recs[1..], k)
  {
    if Mentions(recs[1..], k) {
      var i :| 0 <= i < |recs[1..]| && recs[1..][i].entry.key == k;
      assert recs[i + 1].entry.key == k;
    }
    if Mentions(recs, k) && recs[0].entry.key != k {
      var i :| 0 <= i < |recs| && recs[i].entry.key == k;
      assert recs[1..][i - 1].entry.key == k;
    }
  }

  lemma MentionsAppend(a: seq<Rec>, b: seq<Rec>, k: Bytes)
    ensures Mentions(a + b, k) <==> Mentions(a, k) || Mentions(b, k)
  {
    if Mentions(a, k) {
      var i :| 0 <= i < |a| && a[i].entry.key == k;
      assert (a + b)[i].entry.key == k;
    }
    if Mentions(b, k) {
      var i :| 0 <= i < |b| && b[i].entry.key == k;
      assert (a + b)[|a| + i].entry.key == k;
    }
    if Mentions(a + b, k) && !Mentions(a, k) {
      var i :| 0 <= i < |a + b| && (a + b)[i].entry.key == k;
      assert i >= |a| && b[i - |a|].entry.key == k;
    }
  }

  lemma {:induction false} ReplayAppend(index: Index, a: seq<Rec>, b: seq<Rec>)
    requires RecsStorable(a) && RecsStorable(b)
    ensures Replay(index, a + b) == Replay(Replay(index, a), b)
    decreases |a|
  {
    hide Replay1, Storable;
    if a == [] {
      assert a + b == b;
    } else {
      assert (a + b)[1..] == a[1..] + b;
      ReplayAppend(Replay1(index, a[0]), a[1..], b);
    }
  }

  /** Keys that the records do not mention keep their node; the nodes of the others come from the records alone. */
  lemma {:induction false} ReplayKey(x: Index, y: Index, recs: seq<Rec>, k: Bytes)
    requires RecsStorable(recs)
    ensures !Mentions(recs, k) ==> Agree(Replay(x, recs), x, k)
    ensures Mentions(recs, k) ==> Agree(Replay(x, recs), Replay(y, recs), k)
    decreases |recs|
  {
    hide Storable, Size;
    if recs != [] {
      ReplayKey(Replay1(x, recs[0]), Replay1(y, recs[0]), recs[1..], k);
      MentionsCons(recs, k);
      if !Mentions(recs[1..], k) {
        ReplayKey(Replay1(y, recs[0]), x, recs[1..], k);
      }
    }
  }

  predicate FidsIn(recs: seq<Rec>, lo: nat, hi: nat) {
    forall i :: 0 <= i < |recs| ==> lo <= recs[i].fid <= hi
  }

  /** Rebuilt nodes lie in the files whose records were replayed. */
  lemma {:induction false} ReplayFids(index: Index, recs: seq<Rec>, lo: nat, hi: nat)
    requires RecsStorable(recs) && FidsIn(recs, lo, hi)
    requires forall k :: k in index ==> lo <= index[k].fid <= hi
    ensures forall k :: k in Replay(index, recs) ==> lo <= Replay(index, recs)[k].fid <= hi
    decreases |recs|
  {
    hide Storable, Size;
    if recs != [] {
      ReplayFids(Replay1(index, recs[0]), recs[1..], lo, hi);
    }
  }

  lemma {:induction false} RecsFids(fid: nat, es: Entries, off: nat)
    ensures FidsIn(Recs(fid, es, off), fid, fid)
    decreases |es|
  {
    if es != [] {
      RecsFids(fid, es[1..], off + Size(es[0]));
    }
  }

  lemma {:induction false} LogFids(files: Files, n: nat)
    ensures FidsIn(Log(files, n), 1, n)
  {
    if n > 0 {
      LogFids(files, n - 1);
      if n in files {
        RecsFids(n, files[n].entries, 0);
      }
    }
  }

  // --- commands ---

  lemma RebuiltAppend(s: Store, e: Entry)
    requires Wf(s) && Storable(e)
    ensures Rebuilt(Write(s, e)) == Replay1(Rebuilt(s), Rec(Where(s, e).fid, Where(s, e).offset, e))
  {
    hide Write, Where, Storable, Replay1, Log;
    WriteFacts(s, e);
    var rec := Rec(Where(s, e).fid, Where(s, e).offset, e);
    LogIsStorable(s.files, s.active);
    ReplayAppend(map[], Log(s.files, s.active), [rec]);
    var base := Rebuilt(s);
    assert Replay(base, [rec]) == Replay1(base, rec);
  }

  lemma PutLive(s: Store, e: Entry, send: bool)
    requires Wf(s) && Storable(e)
    ensures Live(Put(s, e, send)) == Live(s)[e.key := Where(s, e).(expiredAt := 0)]
  {
    hide Write, Where, Send, Storable, Log, Used, Replay;
    WriteFacts(s, e);
  }

  lemma PutDurableAt(s: Store, e: Entry, send: bool, k: Bytes)
    requires Wf(s) && DurableAt(s, k) && Storable(e) && e.stat != S_DELETE
    ensures DurableAt(Put(s, e, send), k)
  {
    hide Write, Rebuilt, Live, Size, Storable, Rolled, Send;
    PutLive(s, e, send);
    RebuiltAppend(s, e);
    RebuiltFromFiles(Put(s, e, send), Write(s, e));
  }

  lemma PutDurable(s: Store, e: Entry, send: bool)
    requires Wf(s) && Durable(s) && Storable(e) && e.stat != S_DELETE
    ensures Durable(Put(s, e, send))
  {
    hide Durable, DurableAt, Put;
    DurableEverywhere(s);
    DurableEverywhere(Put(s, e, send));
    forall k
      ensures DurableAt(Put(s, e, send), k)
    {
      PutDurableAt(s, e, send, k);
    }
  }

  lemma RebuiltFromFiles(s: Store, r: Store)
    requires s.files == r.files && s.active == r.active
    ensures Rebuilt(s) == Rebuilt(r)
  {
  }

  lemma RemoveLive(s: Store, key: Bytes)
    requires Wf(s) && Storable(Tombstone(key))
    ensures Live(Remove(s, key)) == Live(s) - {key}
  {
    hide Write, Where, Send, Size, Storable, Log, Used, Replay;
    WriteFacts(s, Tombstone(key));
  }

  lemma RemoveDurableAt(s: Store, key: Bytes, k: Bytes)
    requires Wf(s) && DurableAt(s, k) && Storable(Tombstone(key))
    ensures DurableAt(Remove(s, key), k)
  {
    hide Write, Rebuilt, Live, Size, Storable, Rolled, Send;
    RemoveLive(s, key);
    RebuiltAppend(s, Tombstone(key));
    RebuiltFromFiles(Remove(s, key), Write(s, Tombstone(key)));
  }

  // --- dropping a file ---

  /** The records of the files above `fid`. */
  function LogAbove(files: Files, fid: nat, n: nat): seq<Rec> {
    if n <= fid then [] else LogAbove(files, fid, n - 1) + FileLog(files, n)
  }

  /** The log is the older files, then the file, then the newer files. */
  lemma {:induction false} LogSplit(files: Files, fid: nat, n: nat)
    requires 1 <= fid <= n
    ensures Log(files, n) == Log(files, fid - 1) + (FileLog(files, fid) + LogAbove(files, fid, n))
  {
    hide FileLog;
    if n > fid {
      LogSplit(files, fid, n - 1);
    }
  }

  /** Without the file, it is what surrounds it. */
  lemma {:induction false} LogWithout(files: Files, fid: nat, n: nat)
    requires 1 <= fid <= n
    ensures Log(files - {fid}, n) == Log(files, fid - 1) + LogAbove(files, fid, n)
  {
    hide Recs;
    if n == fid {
      LogUnchanged(files, files - {fid}, fid - 1);
    } else {
      LogWithout(files, fid, n - 1);
      assert FileLog(files - {fid}, n) == FileLog(files, n);
    }
  }

  lemma {:induction false} LogAboveFacts(files: Files, fid: nat, n: nat)
    ensures FidsIn(LogAbove(files, fid, n), fid + 1, n) && RecsStorable(LogAbove(files, fid, n))
  {
    hide Storable;
    if n > fid {
      LogAboveFacts(files, fid, n - 1);
      if n in files {
        RecsFids(n, files[n].entries, 0);
        RecsAreStorable(n, files[n].entries, 0);
      }
    }
  }

  /** An older version of the key survives in an older file, and everything newer about it is in `fid`. */
  predicate Shadows(s: Store, fid: nat, k: Bytes)
    requires fid >= 1
  {
    LogIsStorable(s.files, fid - 1);
    && k in Replay(map[], Log(s.files, fid - 1))
    && Mentions(FileLog(s.files, fid), k)
    && !Mentions(LogAbove(s.files, fid, s.active), k)
  }

  lemma FileLogFacts(s: Store, fid: nat)
    requires fid in s.files
    ensures RecsStorable(FileLog(s.files, fid)) && FidsIn(FileLog(s.files, fid), fid, fid)
  {
    RecsAreStorable(fid, s.files[fid].entries, 0);
    RecsFids(fid, s.files[fid].entries, 0);
  }

  /** What leaving out the middle of a log does to one key. */
  lemma ReplayAround(older: seq<Rec>, middle: seq<Rec>, newer: seq<Rec>, fid: nat, n: nat, k: Bytes)
    requires fid >= 1 && RecsStorable(older) && RecsStorable(middle) && RecsStorable(newer)
    requires FidsIn(older, 1, fid - 1) && FidsIn(middle, fid, fid) && FidsIn(newer, fid + 1, n)
    ensures var base, full, without := Replay(map[], older), Replay(map[], older + (middle + newer)), Replay(map[], older + newer);
            if Mentions(newer, k) then Agree(full, without, k) && (k in full ==> full[k].fid > fid)
            else if Mentions(middle, k) then Agree(without, base, k) && (k in full ==> full[k].fid == fid)
            else Agree(full, without, k) && (k in full ==> full[k].fid < fid)
  {
    hide Storable, Mentions, Replay;
    var base := Replay(map[], older);
    ReplayAppend(map[], older, middle + newer);
    ReplayAppend(base, middle, newer);
    ReplayAppend(map[], older, newer);
    ReplayFids(map[], older, 1, fid - 1);
    ReplayFids(map[], middle, fid, fid);
    ReplayFids(map[], newer, fid + 1, n);
    ReplayKey(base, map[], middle, k);
    ReplayKey(Replay(base, middle), map[], newer, k);
    ReplayKey(base, map[], newer, k);
  }

  /** Key by key: dropping the file keeps the key recoverable if and only if the file shadows nothing for it. */
  lemma DropFileKey(s: Store, fid: nat, k: Bytes)
    requires Wf(s) && DurableAt(s, k) && fid in s.files && fid != s.active
    ensures DurableAt(DropFile(s, fid), k) <==> !Shadows(s, fid, k)
  {
    hide Storable, FileLog, Log, LogAbove, Mentions, Replay;
    LogSplit(s.files, fid, s.active);
    LogWithout(s.files, fid, s.active);
    LogAboveFacts(s.files, fid, s.active);
    LogIsStorable(s.files, fid - 1);
    LogFids(s.files, fid - 1);
    FileLogFacts(s, fid);
    ReplayAround(Log(s.files, fid - 1), FileLog(s.files, fid), LogAbove(s.files, fid, s.active), fid, s.active, k);
  }

  /** Dropping a file keeps the store durable if and only if it shadows no key. */
  lemma DropFileDurable(s: Store, fid: nat)
    requires Wf(s) && Durable(s) && fid in s.files && fid != s.active
    ensures Durable(DropFile(s, fid)) <==> forall k :: !Shadows(s, fid, k)
  {
    hide Durable, DurableAt, Shadows, DropFile;
    DurableEverywhere(s);
    DurableEverywhere(DropFile(s, fid));
    forall k
      ensures DurableAt(DropFile(s, fid), k) <==> !Shadows(s, fid, k)
    {
      DropFileKey(s, fid, k);
    }
  }

  // --- merge ---

  lemma PutWf(s: Store, e: Entry, send: bool)
    requires Wf(s) && Storable(e)
    ensures Wf(Put(s, e, send)) && Put(s, e, send).active >= s.active
  {
    hide Write, Size, HeaderSize, EntryCrc, Used, Rolled;
    WriteFacts(s, e);
  }

  /** A write extends the newer part of the log and nothing else. */
  lemma WriteAbove(s: Store, e: Entry, fid: nat)
    requires Wf(s) && Storable(e) && 1 <= fid < s.active
    ensures var r := Write(s, e);
            && Log(r.files, fid - 1) == Log(s.files, fid - 1) && FileLog(r.files, fid) == FileLog(s.files, fid)
            && LogAbove(r.files, fid, r.active) == LogAbove(s.files, fid, s.active) + [Rec(Where(s, e).fid, Where(s, e).offset, e)]
  {
    hide Recs, Where, Size, HeaderSize, EntryCrc, Used, FileLog, Log, LogAbove;
    var r := Write(s, e);
    WriteFacts(s, e);
    forall f | 1 <= f <= fid
      ensures (f in s.files <==> f in r.files) && (f in s.files ==> s.files[f].entries == r.files[f].entries)
    {
      if f in s.files {
        ArchivedUntouched(s, e, f);
      }
    }
    LogUnchanged(s.files, r.files, fid - 1);
    LogUnchanged(s.files, r.files, fid);
    SameFile(s.files, r.files, fid);
    LogSplit(s.files, fid, s.active);
    LogSplit(r.files, fid, r.active);
    var rec := Rec(Where(s, e).fid, Where(s, e).offset, e);
    Cancel(Log(s.files, fid - 1), FileLog(s.files, fid), LogAbove(r.files, fid, r.active), LogAbove(s.files, fid, s.active), [rec]);
  }

  lemma SameFile(before: Files, after: Files, fid: nat)
    requires (fid in before <==> fid in after) && (fid in before ==> before[fid].entries == after[fid].entries)
    ensures FileLog(before, fid) == FileLog(after, fid)
  {
  }

  lemma Cancel(a: seq<Rec>, b: seq<Rec>, x: seq<Rec>, y: seq<Rec>, z: seq<Rec>)
    requires a + (b + x) == a + (b + y) + z
    ensures x == y + z
  {
    var n := |a| + |b|;
    assert x == (a + (b + x))[n..];
    assert y + z == (a + (b + y) + z)[n..];
  }

  /** One turn of the loop. */
  lemma MergeOneDurable(s: Store, fid: nat, offset: nat, e: Entry, now: int, k: Bytes)
    requires Wf(s) && DurableAt(s, k) && Storable(e) && 1 <= fid < s.active
    ensures var r := MergeOne(s, fid, offset, e, now);
            && Wf(r) && DurableAt(r, k) && r.active >= s.active
            && Log(r.files, fid - 1) == Log(s.files, fid - 1) && FileLog(r.files, fid) == FileLog(s.files, fid)
            && (fid in r.files <==> fid in s.files)
            && (Mentions(LogAbove(r.files, fid, r.active), k)
                <==> Mentions(LogAbove(s.files, fid, s.active), k)
                     || (e.key == k && PointsAt(s.index, k, fid, offset) && !MergeDrops(e, now)))
  {
    hide Log, LogAbove, FileLog, Live, Rebuilt, Mentions, Where, Size, HeaderSize, EntryCrc, Used;
    if !MergeDrops(e, now) && PointsAt(s.index, e.key, fid, offset) {
      PutWf(s, e, false);
      PutDurableAt(s, e, false, k);
      WriteAbove(s, e, fid);
      WriteFacts(s, e);
      var rec := Rec(Where(s, e).fid, Where(s, e).offset, e);
      MentionsAppend(LogAbove(s.files, fid, s.active), [rec], k);
      MentionsOne(rec, k);
    }
  }

  lemma MentionsOne(rec: Rec, k: Bytes)
    ensures Mentions([rec], k) <==> rec.entry.key == k
  {
    if rec.entry.key == k {
      assert [rec][0].entry.key == k;
    }
  }

  lemma {:induction false} MergeLoopDurable(s: Store, fid: nat, es: Entries, offset: nat, clock: nat -> int, i: nat, k: Bytes)
    requires Wf(s) && DurableAt(s, k) && 1 <= fid < s.active
    ensures var r := MergeLoop(s, fid, es, offset, clock, i);
            && Wf(r) && DurableAt(r, k) && r.active >= s.active && (fid in r.files <==> fid in s.files)
            && Log(r.files, fid - 1) == Log(s.files, fid - 1) && FileLog(r.files, fid) == FileLog(s.files, fid)
            && (Mentions(LogAbove(r.files, fid, r.active), k)
                <==> Mentions(LogAbove(s.files, fid, s.active), k) || Rewrites(s.index, fid, es, offset, clock, i, k))
    decreases |es|
  {
    hide Log, LogAbove, FileLog, DurableAt, Mentions, Size, HeaderSize, EntryCrc, Used, MergeOne, Rewrites, PointsAt, MergeDrops;
    if es == [] {
      RewritesNothing(s.index, fid, offset, clock, i);
    } else {
      var e, next, j := es[0], offset + Size(es[0]), i + 1;
      var t := MergeOne(s, fid, offset, e, clock(i));
      MergeOneDurable(s, fid, offset, e, clock(i), k);
      MergeLoopDurable(t, fid, es[1..], next, clock, j, k);
      MergeOneAhead(s, fid, offset, e, clock(i), k);
      RewritesAhead(t.index, s.index, fid, es[1..], next, clock, j, k);
      RewritesCons(s.index, fid, es, offset, clock, i, k);
    }
  }

  /** The merge would let an older version of the key come back at the next start. */
  predicate Resurrects(s: Store, fid: nat, clock: nat -> int, k: Bytes)
    requires fid >= 1 && fid in s.files
  {
    Shadows(s, fid, k) && !Rewrites(s.index, fid, Readable(s.files[fid]), 0, clock, 0, k)
  }

  /**
   Merge and reopen, exactly, key by key. A merge keeps a key recoverable if and only if it drops no entry that hides an
   older version of the key in an older file.
   */
  lemma MergeDurableKey(s: Store, fid: nat, ratio: real, clock: nat -> int, k: Bytes)
    requires Wf(s) && DurableAt(s, k) && Mergeable(s, fid, ratio)
    ensures DurableAt(Merge(s, fid, ratio, clock), k) <==> !Resurrects(s, fid, clock, k)
  {
    hide DurableAt, Mentions, MergeLoop, Rewrites, Log, LogAbove, FileLog, Replay;
    var es := Readable(s.files[fid]);
    MergeLoopDurable(s, fid, es, 0, clock, 0, k);
    var r := MergeLoop(s, fid, es, 0, clock, 0);
    DropFileKey(r, fid, k);
    assert Shadows(r, fid, k) <==> Resurrects(s, fid, clock, k);
  }

  /** So a merge keeps the whole store recoverable if and only if it drops no such entry of any key. */
  lemma MergeDurableIff(s: Store, fid: nat, ratio: real, clock: nat -> int)
    requires Wf(s) && Durable(s) && Mergeable(s, fid, ratio)
    ensures Durable(Merge(s, fid, ratio, clock)) <==> forall k :: !Resurrects(s, fid, clock, k)
  {
    hide Durable, DurableAt, Merge, Resurrects, Used;
    OpenableWf(s);
    DurableEverywhere(s);
    DurableEverywhere(Merge(s, fid, ratio, clock));
    forall k
      ensures DurableAt(Merge(s, fid, ratio, clock), k) <==> !Resurrects(s, fid, clock, k)
    {
      MergeDurableKey(s, fid, ratio, clock, k);
    }
  }

  /** Merging the oldest file is always safe. */
  lemma OldestMergeDurable(s: Store, fid: nat, ratio: real, clock: nat -> int)
    requires Wf(s) && Durable(s) && Mergeable(s, fid, ratio) && forall f :: f in s.files ==> fid <= f
    ensures Durable(Merge(s, fid, ratio, clock))
  {
    hide Durable, Merge, Resurrects;
    MergeDurableIff(s, fid, ratio, clock);
    OldestHidesNothing(s, fid, clock);
  }

  lemma OldestHidesNothing(s: Store, fid: nat, clock: nat -> int)
    requires fid >= 1 && fid in s.files && forall f :: f in s.files ==> fid <= f
    ensures forall k :: !Resurrects(s, fid, clock, k)
  {
    hide Rewrites, LogAbove, FileLog, Log;
    NothingOlder(s.files, fid - 1);
  }

  lemma {:induction false} NothingOlder(files: Files, n: nat)
    requires forall f :: f in files ==> n < f
    ensures Log(files, n) == []
  {
    if n > 0 {
      NothingOlder(files, n - 1);
    }
  }

  // --- every command ---

  lemma RemoveWf(s: Store, key: Bytes)
    requires Wf(s) && Storable(Tombstone(key))
    ensures Wf(Remove(s, key))
  {
    hide Write, Size, HeaderSize, EntryCrc, Used, Rolled;
    WriteFacts(s, Tombstone(key));
  }

  lemma {:induction false} PutPairsDurable(s: Store, args: seq<Bytes>, k: Bytes)
    requires Wf(s) && DurableAt(s, k) && |args| % 2 == 0 && PairsStorable(args)
    ensures Wf(PutPairs(s, args)) && DurableAt(PutPairs(s, args), k)
    decreases |args|
  {
    hide DurableAt, Put, Storable;
    if |args| >= 2 {
      var e := Plain(args[0], args[1]);
      PutWf(s, e, true);
      PutDurableAt(s, e, true, k);
      PutPairsDurable(Put(s, e, true), args[2..], k);
    }
  }

  /** Every command keeps every key recoverable. */
  lemma ExecuteDurable(s: Store, c: Command, now: int, key: Bytes)
    requires Wf(s) && DurableAt(s, key) && Writable(c, OldValue(s, c, now))
    ensures Wf(Execute(s, c, now).0) && DurableAt(Execute(s, c, now).0, key)
  {
    hide DurableAt, Wf, Put, Remove, PutPairs, Get, OldValue, Incremented, Storable, PairsStorable;
    var was := OldValue(s, c, now);
    assert Openable(s) by { OpenableWf(s); }
    match c
    case Set(k, v) => PutKeeps(s, Plain(k, v), key);
    case SetEX(k, v, t) => PutKeeps(s, Expiring(k, v, t), key);
    case SetNX(k, v) => PutKeeps(s, Plain(k, v), key);
    case MSet(args) => if |args| % 2 == 0 { PutPairsDurable(s, args, key); }
    case Append(k, v) => PutKeeps(s, Plain(k, Appended(was, v)), key);
    case Delete(k) => RemoveWf(s, k); RemoveDurableAt(s, k, key);
    case GetDel(k) => RemoveWf(s, k); RemoveDurableAt(s, k, key);
    case IncrBy(k, d) =>
      var i := Incremented(TextOf(was), d);
      if i.Counted? {
        PutKeeps(s, Plain(k, i.text), key);
      }
  }

  lemma PutKeeps(s: Store, e: Entry, k: Bytes)
    requires Wf(s) && DurableAt(s, k) && Storable(e) && e.stat != S_DELETE
    ensures Wf(Put(s, e, true)) && DurableAt(Put(s, e, true), k)
  {
    hide DurableAt, Wf, Put, Storable;
    PutWf(s, e, true);
    PutDurableAt(s, e, true, k);
  }

  /** Draining the queue touches neither the files nor the index. */
  lemma DrainDurable(s: Store, k: Bytes)
    ensures DurableAt(Drain(s), k) <==> DurableAt(s, k)
    ensures Durable(Drain(s)) <==> Durable(s)
    ensures Wf(Drain(s)) <==> Wf(s)
  {
    hide Rebuilt, Used;
    RebuiltFromFiles(s, Drain(s));
    assert Live(Drain(s)) == Live(s);
  }

  lemma {:induction false} MergeLoopActive(s: Store, fid: nat, es: Entries, offset: nat, clock: nat -> int, i: nat)
    requires Wf(s)
    ensures Wf(MergeLoop(s, fid, es, offset, clock, i)) && MergeLoop(s, fid, es, offset, clock, i).active >= s.active
    decreases |es|
  {
    hide Wf, Put, Size, HeaderSize, EntryCrc;
    OpenableWf(s);
    if es != [] {
      if !MergeDrops(es[0], clock(i)) && PointsAt(s.index, es[0].key, fid, offset) {
        PutWf(s, es[0], false);
      }
      MergeLoopActive(MergeOne(s, fid, offset, es[0], clock(i)), fid, es[1..], offset + Size(es[0]), clock, i + 1);
    }
  }

  lemma EnsureActiveDurable(s: Store, k: Bytes)
    requires Wf(s) && DurableAt(s, k)
    ensures Wf(EnsureActive(s)) && DurableAt(EnsureActive(s), k)
  {
    hide Replay, Size, EntryCrc, Used;
    if s.active == 0 {
      NewFile(s, 1);
      assert forall k :: k !in s.index;
      assert Live(EnsureActive(s)) == Live(s);
    }
  }

  lemma MergeDurable(s: Store, fid: nat, ratio: real, clock: nat -> int, k: Bytes)
    requires Wf(s) && DurableAt(s, k)
    requires Mergeable(EnsureActive(s), fid, ratio) ==> !Resurrects(EnsureActive(s), fid, clock, k)
    ensures DurableAt(Merge(s, fid, ratio, clock), k)
  {
    hide DurableAt, Wf, MergeLoop, Resurrects;
    EnsureActiveDurable(s, k);
    if Mergeable(EnsureActive(s), fid, ratio) {
      MergeDurableKey(EnsureActive(s), fid, ratio, clock, k);
    }
  }

  // --- what a replay can read ---

  /** A replay reads the record. */
  predicate Roomy(files: Files, r: Rec) {
    r.fid in files && r.offset + MAX_HEADER_SIZE <= files[r.fid].length
  }

  function WithRoom(files: Files, recs: seq<Rec>): (r: seq<Rec>)
    ensures RecsStorable(recs) ==> RecsStorable(r)
  {
    if recs == [] then [] else (if Roomy(files, recs[0]) then [recs[0]] else []) + WithRoom(files, recs[1..])
  }

  lemma {:induction false} WithRoomAppend(files: Files, a: seq<Rec>, b: seq<Rec>)
    ensures WithRoom(files, a + b) == WithRoom(files, a) + WithRoom(files, b)
    decreases |a|
  {
    if a == [] {
      assert a + b == b;
    } else {
      assert (a + b)[1..] == a[1..] + b;
      WithRoomAppend(files, a[1..], b);
    }
  }

  lemma WithRoomCons(files: Files, fid: nat, es: Entries, off: nat)
    requires es != []
    ensures Storable(es[0])
    ensures var rec := Rec(fid, off, es[0]);
            WithRoom(files, Recs(fid, es, off)) == (if Roomy(files, rec) then [rec] else []) + WithRoom(files, Recs(fid, es[1..], off + Size(es[0])))
  {
    hide Size, HeaderSize, EntryCrc, Roomy;
    assert Recs(fid, es, off)[1..] == Recs(fid, es[1..], off + Size(es[0]));
  }

  lemma NoneLeft(files: Files, fid: nat, off: nat)
    ensures Recs(fid, [], off) == [] && WithRoom(files, []) == []
  {
  }

  lemma NonePrefix(es: Entries, off: nat, length: nat)
    requires es == [] || off + MAX_HEADER_SIZE > length
    ensures RoomedPrefix(es, off, length) == []
  {
  }

  lemma {:induction false} NoneRoomy(files: Files, fid: nat, es: Entries, off: nat)
    requires fid in files && off + MAX_HEADER_SIZE > files[fid].length
    ensures WithRoom(files, Recs(fid, es, off)) == []
    decreases |es|
  {
    hide Size, HeaderSize, EntryCrc, WithRoom, Recs;
    if es == [] {
      NoneLeft(files, fid, off);
    } else {
      WithRoomCons(files, fid, es, off);
      NoneRoomy(files, fid, es[1..], off + Size(es[0]));
    }
  }

  lemma {:induction false} FileWithRoom(files: Files, fid: nat, es: Entries, off: nat)
    requires fid in files
    ensures WithRoom(files, Recs(fid, es, off)) == Recs(fid, RoomedPrefix(es, off, files[fid].length), off)
    decreases |es|
  {
    hide Size, HeaderSize, EntryCrc, WithRoom, Recs, RoomedPrefix;
    NoneLeft(files, fid, off);
    if es == [] || off + MAX_HEADER_SIZE > files[fid].length {
      NonePrefix(es, off, files[fid].length);
      if es != [] {
        NoneRoomy(files, fid, es, off);
      }
    } else {
      WithRoomCons(files, fid, es, off);
      FileWithRoom(files, fid, es[1..], off + Size(es[0]));
      RecsOfPrefix(fid, es, off, files[fid].length);
    }
  }

  /** The log that a replay sees is the log without the records it cannot read. */
  lemma {:induction false} LogWithRoom(files: Files, n: nat)
    ensures Log(ReadableFiles(files), n) == WithRoom(files, Log(files, n))
  {
    hide Recs, RoomedPrefix, Readable;
    if n > 0 {
      LogWithRoom(files, n - 1);
      WithRoomAppend(files, Log(files, n - 1), FileLog(files, n));
      ReadableLog(files, n);
    }
  }

  lemma ReadableLog(files: Files, n: nat)
    ensures FileLog(ReadableFiles(files), n) == WithRoom(files, FileLog(files, n))
  {
    hide Recs, RoomedPrefix;
    if n in files {
      FileWithRoom(files, n, files[n].entries, 0);
    }
  }

  /** Some record of the key cannot be read. */
  predicate Unread(files: Files, recs: seq<Rec>, k: Bytes) {
    exists i :: 0 <= i < |recs| && recs[i].entry.key == k && !Roomy(files, recs[i])
  }

  /**
   Key by key: leaving out what cannot be read changes nothing for a key of which everything can be read, and nothing for
   a key whose last record is an entry that can be read.
   */
  lemma {:induction false} ReplayWithRoom(files: Files, recs: seq<Rec>, k: Bytes)
    requires RecsStorable(recs)
    ensures !Unread(files, recs, k) ==> Agree(Replay(map[], WithRoom(files, recs)), Replay(map[], recs), k)
    ensures var full := Replay(map[], recs);
            k in full && full[k].fid in files && full[k].offset + MAX_HEADER_SIZE <= files[full[k].fid].length
            ==> Agree(Replay(map[], WithRoom(files, recs)), full, k)
    decreases |recs|
  {
    hide Storable, Size, Replay, WithRoom;
    if recs == [] {
      NothingWithRoom(files);
    } else {
      var n := |recs| - 1;
      var most, x := recs[..n], recs[n];
      assert recs == most + [x];
      ReplayWithRoom(files, most, k);
      LastWithRoom(files, most, x);
      ReplayLast(most, x);
      if Roomy(files, x) {
        ReplayLast(WithRoom(files, most), x);
      }
      if Unread(files, most, k) {
        var i :| 0 <= i < |most| && most[i].entry.key == k && !Roomy(files, most[i]);
        assert recs[i] == most[i];
      }
      assert recs[n] == x;
    }
  }

  lemma NothingWithRoom(files: Files)
    ensures WithRoom(files, []) == []
  {
  }

  lemma LastWithRoom(files: Files, most: seq<Rec>, x: Rec)
    ensures WithRoom(files, most + [x]) == if Roomy(files, x) then WithRoom(files, most) + [x] else WithRoom(files, most)
  {
    WithRoomAppend(files, most, [x]);
    assert [x][1..] == [];
  }

  lemma ReplayLast(most: seq<Rec>, x: Rec)
    requires RecsStorable(most) && Storable(x.entry)
    ensures RecsStorable(most + [x]) && Replay(map[], most + [x]) == Replay1(Replay(map[], most), x)
  {
    hide Storable, Replay1;
    ReplayAppend(map[], most, [x]);
    var base := Replay(map[], most);
    assert Replay(base, [x]) == Replay1(base, x);
  }

  // --- where rebuilt nodes lead ---

  /** The node leads to an entry of the key that is not a tombstone. */
  predicate Leads(files: Files, n: Node, k: Bytes) {
    n.fid in files
    && match EntryAt(files[n.fid].entries, n.offset)
       case None => false
       case Some(e) => Storable(e) && e.key == k && e.stat != S_DELETE && n.size == Size(e) && n.expiredAt == 0
  }

  /** The record lies in the files where it says. */
  predicate Lies(files: Files, r: Rec) {
    r.fid in files && EntryAt(files[r.fid].entries, r.offset) == Some(r.entry)
  }

  lemma {:induction false} RecsLie(es: Entries, fid: nat, base: nat, i: nat)
    requires i < |es|
    ensures Recs(fid, es, base)[i].fid == fid && Recs(fid, es, base)[i].offset >= base
    ensures EntryAt(es, Recs(fid, es, base)[i].offset - base) == Some(Recs(fid, es, base)[i].entry)
    decreases |es|
  {
    if i > 0 {
      RecsLie(es[1..], fid, base + Size(es[0]), i - 1);
      assert Recs(fid, es, base)[i] == Recs(fid, es[1..], base + Size(es[0]))[i - 1];
    }
  }

  lemma {:induction false} LogLies(files: Files, n: nat, i: nat)
    requires i < |Log(files, n)|
    ensures Lies(files, Log(files, n)[i])
  {
    hide Size, EntryCrc, Recs, EntryAt;
    var below := |Log(files, n - 1)|;
    if i < below {
      LogLies(files, n - 1, i);
    } else {
      RecsLie(files[n].entries, n, 0, i - below);
    }
  }

  lemma {:induction false} ReplayLeads(files: Files, index: Index, recs: seq<Rec>)
    requires RecsStorable(recs) && forall i :: 0 <= i < |recs| ==> Lies(files, recs[i])
    requires forall k :: k in index ==> Leads(files, index[k], k)
    ensures forall k :: k in Replay(index, recs) ==> Leads(files, Replay(index, recs)[k], k)
    decreases |recs|
  {
    hide Size, EntryCrc, EntryAt;
    if recs != [] {
      assert Lies(files, recs[0]);
      ReplayLeads(files, Replay1(index, recs[0]), recs[1..]);
    }
  }

  /** The shape of the files alone. */
  predicate FilesWf(s: Store) {
    && s.maxSize > 0 && (if s.active == 0 then s.files == map[] else s.active in s.files)
    && forall f :: f in s.files ==> 1 <= f <= s.active && Used(s.files[f].entries) <= s.files[f].length && s.maxSize <= s.files[f].length
  }

  lemma RebuiltLeads(s: Store)
    requires FilesWf(s)
    ensures forall k :: k in Rebuilt(s) ==> Leads(s.files, Rebuilt(s)[k], k) && 1 <= Rebuilt(s)[k].fid <= s.active
  {
    hide Used, Size, EntryCrc, Log, Lies, Leads;
    var log := Log(s.files, s.active);
    LogIsStorable(s.files, s.active);
    LogFids(s.files, s.active);
    ReplayFids(map[], log, 1, s.active);
    forall i | 0 <= i < |log|
      ensures Lies(s.files, log[i])
    {
      LogLies(s.files, s.active, i);
    }
    ReplayLeads(s.files, map[], log);
  }

  lemma ReadableWf(s: Store)
    requires FilesWf(s)
    ensures FilesWf(s.(files := ReadableFiles(s.files)))
  {
    hide Used, RoomedPrefix;
    forall f | f in s.files
      ensures Used(Readable(s.files[f])) <= s.files[f].length
    {
      RoomedPrefixIs(s.files[f].entries, 0, s.files[f].length);
      UsedPrefix(Readable(s.files[f]), s.files[f].entries);
    }
  }

  // --- reopening ---

  /** The cell that the entry at a node wrote. */
  function CellAt(files: Files, n: Node): Cell {
    match if n.fid in files then EntryAt(files[n.fid].entries, n.offset) else None
    case Some(e) => Cell(e.value, e.expiredAt)
    case None => Cell([], 0)
  }

  /** What a restart finds: the last readable entry of each key. */
  function Recovered(s: Store): Contents {
    var r := Reopen(s);
    map k | k in r.index :: CellAt(r.files, r.index[k])
  }

  lemma ReopenState(s: Store)
    ensures var r := s.(files := ReadableFiles(s.files));
            Reopen(s).files == r.files && Reopen(s).active == s.active && Reopen(s).maxSize == s.maxSize && Reopen(s).index == Rebuilt(r)
            && Rebuilt(Reopen(s)) == Rebuilt(r)
  {
    RebuiltFromFiles(s.(files := ReadableFiles(s.files)), Reopen(s));
  }

  /** If everything can be read the files stay as they are. */
  lemma RoomedReopen(s: Store)
    requires AllRoomed(s)
    ensures Reopen(s).files == s.files && Reopen(s).index == Rebuilt(s)
  {
    hide Roomed, RoomedPrefix, Rebuilt;
    forall f | f in s.files
      ensures Readable(s.files[f]) == s.files[f].entries
    {
      RoomedPrefixComplete(s.files[f].entries, 0, s.files[f].length);
    }
    assert ReadableFiles(s.files) == s.files;
  }

  /** After any restart the store stands for what it found, all of which can be read, and would find the same again. */
  lemma ReopenRefines(s: Store, merged: int)
    requires FilesWf(s)
    ensures Refines(Reopen(s), Recovered(s), merged) && Durable(Reopen(s)) && forall k :: k in Recovered(s) ==> HasRoom(Reopen(s), k)
  {
    hide Rebuilt, Used, EntryAt, Reopen, ReadableFiles, Size;
    ReopenState(s);
    var r := Reopen(s);
    ReadableWf(s);
    RebuiltLeads(s.(files := ReadableFiles(s.files)));
    forall k | k in r.index
      ensures NodeOk(r, Recovered(s), merged, k)
    {
      assert Leads(r.files, r.index[k], k);
    }
    assert Live(r) == r.index by {
      assert forall k :: k in r.index ==> Leads(r.files, r.index[k], k);
    }
    forall k | k in Recovered(s)
      ensures HasRoom(r, k)
    {
      assert Leads(r.files, r.index[k], k);
      ReadablePlace(s, r.index[k]);
    }
  }

  lemma ReadablePlace(s: Store, n: Node)
    requires var fs := ReadableFiles(s.files); n.fid in fs && EntryAt(fs[n.fid].entries, n.offset).Some?
    ensures n.offset + MAX_HEADER_SIZE <= ReadableFiles(s.files)[n.fid].length
    ensures EntryAt(s.files[n.fid].entries, n.offset) == EntryAt(ReadableFiles(s.files)[n.fid].entries, n.offset)
  {
    hide EntryAt, RoomedPrefix;
    RoomedPrefixAt(s.files[n.fid].entries, n.offset, 0, s.files[n.fid].length);
  }

  /** Some entry of the key lies where it cannot be read. */
  predicate Hidden(s: Store, k: Bytes) {
    Unread(s.files, Log(s.files, s.active), k)
  }

  lemma {:induction false} RoomedAt(es: Entries, off: int, base: nat, length: nat)
    requires Roomed(es, base, length) && EntryAt(es, off).Some?
    ensures base + off + MAX_HEADER_SIZE <= length
    decreases |es|
  {
    if off != 0 {
      RoomedAt(es[1..], off - Size(es[0]), base + Size(es[0]), length);
    }
  }

  /** With room everywhere nothing is hidden. */
  lemma RoomedHidesNothing(s: Store, k: Bytes)
    requires AllRoomed(s)
    ensures !Hidden(s, k)
  {
    hide Roomed, EntryAt, Log;
    var log := Log(s.files, s.active);
    forall i | 0 <= i < |log|
      ensures Roomy(s.files, log[i])
    {
      LogLies(s.files, s.active, i);
      RoomedAt(s.files[log[i].fid].entries, log[i].offset, 0, s.files[log[i].fid].length);
    }
  }

  /**
   Restart, key by key. A restart rebuilds the live node of a recoverable key exactly, if and only if its entry
   has room; a key without a live node stays without one, unless some entry of it, such as its tombstone, has no room.
   */
  lemma RestartNode(s: Store, k: Bytes)
    requires Wf(s) && DurableAt(s, k)
    ensures k in Live(s) ==> (Agree(Reopen(s).index, Live(s), k) <==> HasRoom(s, k))
    ensures !Hidden(s, k) ==> Agree(Reopen(s).index, Live(s), k)
  {
    hide Log, Replay, Used, Reopen, EntryAt, Size;
    ReopenState(s);
    LogWithRoom(s.files, s.active);
    LogIsStorable(s.files, s.active);
    ReplayWithRoom(s.files, Log(s.files, s.active), k);
    if k in Live(s) && k in Reopen(s).index {
      var r := s.(files := ReadableFiles(s.files));
      hide Rebuilt;
      FilesOnly(s);
      ReadableWf(s);
      RebuiltLeads(r);
      assert Leads(r.files, Reopen(s).index[k], k);
      ReadablePlace(s, Reopen(s).index[k]);
    }
  }

  lemma FilesOnly(s: Store)
    requires Wf(s)
    ensures FilesWf(s)
  {
  }

  /** The last record of the key among those that can be read is an entry, not a tombstone. */
  predicate EndsReadable(files: Files, recs: seq<Rec>, k: Bytes) {
    exists i :: 0 <= i < |recs| && Roomy(files, recs[i]) && recs[i].entry.key == k && recs[i].entry.stat != S_DELETE
                && forall j :: i < j < |recs| && recs[j].entry.key == k ==> !Roomy(files, recs[j])
  }

  lemma {:induction false} ReplayEnds(files: Files, recs: seq<Rec>, k: Bytes)
    requires RecsStorable(recs)
    ensures k in Replay(map[], WithRoom(files, recs)) <==> EndsReadable(files, recs, k)
    decreases |recs|
  {
    hide Storable, Size, Replay, WithRoom, Roomy;
    if recs == [] {
      NothingWithRoom(files);
      assert Replay(map[], []) == map[] by { ReplayNothing(); }
    } else {
      var n := |recs| - 1;
      var most, x := recs[..n], recs[n];
      assert recs == most + [x];
      ReplayEnds(files, most, k);
      LastWithRoom(files, most, x);
      if Roomy(files, x) {
        ReplayLast(WithRoom(files, most), x);
      }
      EndsLast(files, most, x, k);
    }
  }

  lemma ReplayNothing()
    ensures Replay(map[], []) == map[]
  {
  }

  lemma EndsLast(files: Files, most: seq<Rec>, x: Rec, k: Bytes)
    ensures EndsReadable(files, most + [x], k)
            <==> if Roomy(files, x) && x.entry.key == k then x.entry.stat != S_DELETE else EndsReadable(files, most, k)
  {
    hide Roomy;
    var recs, n := most + [x], |most|;
    assert recs[n] == x;
    if EndsReadable(files, most, k) && !(Roomy(files, x) && x.entry.key == k) {
      var i :| 0 <= i < |most| && Roomy(files, most[i]) && most[i].entry.key == k && most[i].entry.stat != S_DELETE
               && forall j :: i < j < |most| && most[j].entry.key == k ==> !Roomy(files, most[j]);
      assert recs[i] == most[i];
    }
    if EndsReadable(files, recs, k) && !(Roomy(files, x) && x.entry.key == k) {
      var i :| 0 <= i < |recs| && Roomy(files, recs[i]) && recs[i].entry.key == k && recs[i].entry.stat != S_DELETE
               && forall j :: i < j < |recs| && recs[j].entry.key == k ==> !Roomy(files, recs[j]);
      assert i < n && most[i] == recs[i];
      assert forall j :: 0 <= j < n ==> most[j] == recs[j];
    }
  }

  /** After a restart a key is there, if and only if the last of its records that can be read is an entry. */
  lemma RestartIndexIff(s: Store, k: Bytes)
    ensures k in Reopen(s).index <==> EndsReadable(s.files, Log(s.files, s.active), k)
  {
    hide Log, Replay, Reopen, EndsReadable;
    ReopenState(s);
    LogWithRoom(s.files, s.active);
    LogIsStorable(s.files, s.active);
    ReplayEnds(s.files, Log(s.files, s.active), k);
  }

  /** A visible key that a restart still finds in the same place gives the same cell. */
  lemma SameCell(s: Store, m: Contents, merged: int, k: Bytes)
    requires Refines(s, m, merged) && k in Live(s) && Agree(Reopen(s).index, Live(s), k) && HasRoom(s, k)
    ensures k in m && k in Recovered(s) && Recovered(s)[k] == m[k]
  {
    hide Rebuilt, Used, EntryAt, RoomedPrefix, Size;
    assert NodeOk(s, m, merged, k);
    var n := s.index[k];
    RoomedPrefixAt(s.files[n.fid].entries, n.offset, 0, s.files[n.fid].length);
  }

  /**
   Recovery. Every read of a recoverable key that succeeds before a restart succeeds after it, at any time. If no entry of the
   key is hidden, the restart changes no answer for it, although the rebuilt index carries no expiry; a read that failed on a
   merged-away file becomes a plain miss.
   */
  lemma ReopenGet(s: Store, m: Contents, merged: int, k: Bytes, now: int)
    requires Refines(s, m, merged) && DurableAt(s, k)
    ensures forall v :: Get(s, k, now) == Found(v) ==> Get(Reopen(s), k, now) == Found(v)
    ensures !Hidden(s, k) ==> Get(Reopen(s), k, now) == if Get(s, k, now).LogFileNotExist? then KeyNotFound else Get(s, k, now)
  {
    hide Rebuilt, Reopen, EntryAt, Used, Hidden, Size, Recovered, Refines, Get, DurableAt;
    RefinesFiles(s, m, merged);
    ReopenRefines(s, merged);
    RestartNode(s, k);
    GetRefines(s, m, merged, k, now);
    GetRefines(Reopen(s), Recovered(s), merged, k, now);
    if k in Live(s) && HasRoom(s, k) {
      SameCell(s, m, merged, k);
    }
    if !Hidden(s, k) {
      SameAnswer(s, m, merged, k, now);
    }
  }

  lemma RefinesFiles(s: Store, m: Contents, merged: int)
    requires Refines(s, m, merged)
    ensures Wf(s) && FilesWf(s)
    ensures forall k :: HasRoom(s, k) ==> k in Live(s)
  {
  }

  lemma SameAnswer(s: Store, m: Contents, merged: int, k: Bytes, now: int)
    requires Refines(s, m, merged) && Agree(Reopen(s).index, Live(s), k) && (k in Live(s) ==> HasRoom(s, k))
    ensures Get(Reopen(s), k, now) == if Get(s, k, now).LogFileNotExist? then KeyNotFound else Get(s, k, now)
  {
    hide Rebuilt, EntryAt, Used, Size, HeaderSize, EntryCrc, RoomedPrefix;
    if k in Live(s) {
      assert NodeOk(s, m, merged, k);
      var n := s.index[k];
      RoomedPrefixAt(s.files[n.fid].entries, n.offset, 0, s.files[n.fid].length);
    }
  }
}
