/** What restarts keep at every point of every history: each live key, each queued count, and the balance of bytes. */
module Restarts {
  import opened Bytes
  import opened LogEntry
  import opened LogFile
  import opened Ledger
  import opened Reloading
  import opened Decimal
  import opened Store
  import opened StoreLog
  import opened Refinement
  import opened Recovery
  import opened Runs
  import opened Layout
  import opened Conservation

  // --- a live key is always found again ---

  /** If the index leads to a file that is there, a replay finds the key at the same place. */
  predicate LiveFound(s: Store, k: Bytes) {
    k in Live(s) ==> DurableAt(s, k)
  }

  lemma PutFound(s: Store, e: Entry, send: bool, k: Bytes)
    requires Wf(s) && LiveFound(s, k) && Storable(e) && e.stat != S_DELETE
    ensures Wf(Put(s, e, send)) && LiveFound(Put(s, e, send), k)
  {
    hide Write, Rebuilt, Live, Size, Storable, Rolled, Send;
    PutWf(s, e, send);
    PutLive(s, e, send);
    RebuiltAppend(s, e);
    RebuiltFromFiles(Put(s, e, send), Write(s, e));
  }

  lemma RemoveFound(s: Store, key: Bytes, k: Bytes)
    requires Wf(s) && LiveFound(s, k) && Storable(Tombstone(key))
    ensures Wf(Remove(s, key)) && LiveFound(Remove(s, key), k)
  {
    hide Write, Rebuilt, Live, Size, Storable, Rolled, Send;
    RemoveWf(s, key);
    RemoveLive(s, key);
    RebuiltAppend(s, Tombstone(key));
    RebuiltFromFiles(Remove(s, key), Write(s, Tombstone(key)));
  }

  lemma {:induction false} PairsFound(s: Store, args: seq<Bytes>, k: Bytes)
    requires Wf(s) && LiveFound(s, k) && |args| % 2 == 0 && PairsStorable(args)
    ensures Wf(PutPairs(s, args)) && LiveFound(PutPairs(s, args), k)
    decreases |args|
  {
    hide LiveFound, Put, Storable;
    if |args| >= 2 {
      PutFound(s, Plain(args[0], args[1]), true, k);
      PairsFound(Put(s, Plain(args[0], args[1]), true), args[2..], k);
    }
  }

  lemma ExecuteFound(s: Store, c: Command, now: int, k: Bytes)
    requires Wf(s) && LiveFound(s, k) && Writable(c, OldValue(s, c, now))
    ensures LiveFound(Execute(s, c, now).0, k)
  {
    hide LiveFound, Wf, Put, Remove, PutPairs, Get, OldValue, Incremented, Storable, PairsStorable;
    var was := OldValue(s, c, now);
    assert Openable(s) by { OpenableWf(s); }
    match c
    case Set(key, v) => PutFound(s, Plain(key, v), true, k);
    case SetEX(key, v, t) => PutFound(s, Expiring(key, v, t), true, k);
    case SetNX(key, v) => PutFound(s, Plain(key, v), true, k);
    case MSet(args) => if |args| % 2 == 0 { PairsFound(s, args, k); }
    case Append(key, v) => PutFound(s, Plain(key, Appended(was, v)), true, k);
    case Delete(key) => RemoveFound(s, key, k);
    case GetDel(key) => RemoveFound(s, key, k);
    case IncrBy(key, d) =>
      var i := Incremented(TextOf(was), d);
      if i.Counted? { PutFound(s, Plain(key, i.text), true, k); }
  }

  lemma {:induction false} LoopFound(s: Store, fid: nat, es: Entries, offset: nat, clock: nat -> int, i: nat, k: Bytes)
    requires Wf(s) && LiveFound(s, k)
    ensures Openable(s) && var r := MergeLoop(s, fid, es, offset, clock, i); Wf(r) && LiveFound(r, k) && r.active >= s.active && (fid in s.files ==> fid in r.files)
    decreases |es|
  {
    hide LiveFound, Put, Size, HeaderSize, EntryCrc, Wf;
    OpenableWf(s);
    if es != [] {
      if !MergeDrops(es[0], clock(i)) && PointsAt(s.index, es[0].key, fid, offset) {
        PutFound(s, es[0], false, k);
        PutGrows(s, es[0], fid);
      }
      LoopFound(MergeOne(s, fid, offset, es[0], clock(i)), fid, es[1..], offset + Size(es[0]), clock, i + 1, k);
    }
  }

  lemma PutGrows(s: Store, e: Entry, fid: nat)
    requires Wf(s) && Openable(s) && Storable(e)
    ensures var r := Put(s, e, false); r.active >= s.active && (fid in s.files ==> fid in r.files)
  {
    hide Write, Where, Storable, Log, EntryAt;
    WriteFacts(s, e);
  }

  /** A key that is live in another file does not notice that a file goes, whatever the file hid. */
  lemma DropFound(s: Store, fid: nat, k: Bytes)
    requires Wf(s) && LiveFound(s, k) && fid in s.files && fid != s.active
    ensures LiveFound(DropFile(s, fid), k)
  {
    hide Storable, FileLog, Log, LogAbove, Mentions, Replay;
    LogSplit(s.files, fid, s.active);
    LogWithout(s.files, fid, s.active);
    LogAboveFacts(s.files, fid, s.active);
    LogIsStorable(s.files, fid - 1);
    LogFids(s.files, fid - 1);
    FileLogFacts(s, fid);
    ReplayAround(Log(s.files, fid - 1), FileLog(s.files, fid), LogAbove(s.files, fid, s.active), fid, s.active, k);
  }

  lemma MergeFound(s: Store, fid: nat, ratio: real, clock: nat -> int, k: Bytes)
    requires Wf(s) && LiveFound(s, k)
    ensures Openable(s) && LiveFound(Merge(s, fid, ratio, clock), k)
  {
    hide LiveFound, MergeLoop, Readable, Candidate;
    OpenableWf(s);
    var s0 := EnsureActive(s);
    if s.active == 0 {
      NothingLiveYet(s, k);
    } else if Mergeable(s0, fid, ratio) {
      var es := Readable(s0.files[fid]);
      LoopFound(s0, fid, es, 0, clock, 0, k);
      DropFound(MergeLoop(s0, fid, es, 0, clock, 0), fid, k);
    }
  }

  lemma NothingLiveYet(s: Store, k: Bytes)
    requires Wf(s) && s.active == 0
    ensures Openable(s) && LiveFound(EnsureActive(s), k)
    ensures forall fid, ratio, clock :: Merge(s, fid, ratio, clock) == EnsureActive(s)
  {
    hide SetTotal, Candidate, MergeLoop;
  }

  lemma NextFound(s: Store, ev: Event, k: Bytes)
    requires Wf(s) && FilesWf(s) && Allowed(s, ev) && LiveFound(s, k)
    ensures LiveFound(NextStore(s, ev), k)
  {
    hide LiveFound, Execute, Merge, Reopen, Wf;
    match ev
    case Runs(c, now) => ExecuteFound(s, c, now, k);
    case Drains => DrainFound(s, k);
    case Merges(fid, ratio, clock) => MergeFound(s, fid, ratio, clock, k);
    case Reopens => ReopenFound(s, k);
  }

  lemma DrainFound(s: Store, k: Bytes)
    requires LiveFound(s, k)
    ensures LiveFound(Drain(s), k)
  {
    hide Rebuilt;
    RebuiltFromFiles(Drain(s), s);
  }

  lemma ReopenFound(s: Store, k: Bytes)
    requires FilesWf(s)
    ensures LiveFound(Reopen(s), k)
  {
    hide Reopen, DurableAt, Live;
    RestartDurable(s, 0, k);
  }

  lemma {:induction false} HistoryFound(ss: seq<Store>, evs: seq<Event>, maxSize: nat, i: nat, k: Bytes)
    requires Trace(ss, evs, maxSize) && i < |ss|
    ensures LiveFound(ss[i], k)
    decreases i
  {
    hide LiveFound, NextStore, Allowed;
    if i == 0 {
      EmptyFound(maxSize, k);
    } else {
      HistoryFound(ss, evs, maxSize, i - 1, k);
      HistoryLaidOut(ss, evs, maxSize, i - 1);
      NextFound(ss[i - 1], evs[i - 1], k);
    }
  }

  lemma EmptyFound(maxSize: nat, k: Bytes)
    ensures LiveFound(Empty(maxSize), k)
  {
    StartDurable(maxSize, k);
  }

  /** The stores of a history. */
  lemma Stores(ws: seq<World>, evs: seq<Event>, maxSize: nat, epoch: int) returns (ss: seq<Store>)
    requires History(ws, evs, maxSize, epoch)
    ensures Trace(ss, evs, maxSize) && |ss| == |ws| && forall i :: 0 <= i < |ss| ==> ss[i] == ws[i].store
  {
    hide NextStore, Allowed, Apply, Recovered, MergedContents, Execute;
    ss := seq(|ws|, i requires 0 <= i < |ws| => ws[i].store);
    forall i | 0 <= i < |evs|
      ensures Allowed(ss[i], evs[i]) && ss[i + 1] == NextStore(ss[i], evs[i])
    {
      assert ws[i + 1] == Next(ws[i], evs[i]);
    }
  }

  /**
   Restart, without any condition. At every point of every history, whatever was merged and whatever cannot be read, a
   restart loses no successful read of any key, at any time.
   */
  lemma RestartLosesNothing(ws: seq<World>, evs: seq<Event>, maxSize: nat, epoch: int, i: nat, k: Bytes, v: Bytes, now: int)
    requires History(ws, evs, maxSize, epoch) && i < |ws| && Get(ws[i].store, k, now) == Found(v)
    ensures Get(Reopen(ws[i].store), k, now) == Found(v)
  {
    hide Get, Reopen, Refines, DurableAt, Live, HasRoom, History, Trace;
    var w := ws[i];
    var ss := Stores(ws, evs, maxSize, epoch);
    HistoryFound(ss, evs, maxSize, i, k);
    HistoryGood(ws, evs, maxSize, epoch, i);
    RefinesFiles(w.store, w.contents, w.merged);
    GetRefines(w.store, w.contents, w.merged, k, now);
    ReopenGet(w.store, w.contents, w.merged, k, now);
  }

  // --- what is queued is counted before the table is read again ---

  predicate RegisteredIn(l: Ledger, f: nat) {
    f in l.location && Registered(At(l.records, l.location[f]), f)
  }

  lemma IncrRegistered(l: Ledger, fid: nat, delta: int, f: nat)
    requires Sound(l) && RegisteredIn(l, f)
    ensures RegisteredIn(Incr(l, fid, delta), f) && Incr(l, fid, delta).location[f] == l.location[f]
  {
    hide Sound;
    AllocSound(l, fid);
    var a := Alloc(l, fid);
    if f != fid && fid in a.location {
      OwnSlots(a, f, fid);
    }
  }

  /** Draining adds up what is queued for a file, on uint32, whatever else is queued. */
  lemma {:induction false} DrainedCounts(s: Store, f: nat)
    requires Sound(s.ledger) && RegisteredIn(s.ledger, f) && Counter(s.ledger, f) < U32
    ensures var l := Drained(s).ledger;
            && Sound(l) && RegisteredIn(l, f) && Counter(l, f) == (Counter(s.ledger, f) + Queued(s.queue, f)) % U32
    decreases |s.queue|
  {
    hide Sound, Registered, Counter, Incr;
    if s.queue != [] {
      var d, r := s.queue[0], Drain(s);
      IncrSound(s.ledger, d.fid, d.size);
      IncrRegistered(s.ledger, d.fid, d.size, f);
      DrainedCounts(r, f);
      ModAdd(Counter(s.ledger, f) + (if d.fid == f then d.size else 0), Queued(r.queue, f));
    }
  }

  lemma ReloadKeeps(l: Ledger, f: nat)
    requires Sound(l) && RegisteredIn(l, f)
    ensures RegisteredIn(Reload(l), f) && Counter(Reload(l), f) == Counter(l, f)
  {
    hide Sound, Scanned;
    ReloadFinds(l);
    LocatedRecord(l, f);
    SlotsBelow(l.location[f]);
  }

  /** A restart counts what was queued: the counter of a registered file is the old one and all queued sizes, on uint32. */
  lemma RestartCounts(s: Store, f: nat)
    requires Sound(s.ledger) && RegisteredIn(s.ledger, f) && Counter(s.ledger, f) < U32
    ensures RegisteredIn(Reopen(s).ledger, f)
    ensures Counter(Reopen(s).ledger, f) == (Counter(s.ledger, f) + Queued(s.queue, f)) % U32
  {
    hide Sound, Drained, Reload, RegisteredIn, Counter, Rebuilt;
    DrainedCounts(s, f);
    ReloadKeeps(Drained(s).ledger, f);
  }

  // --- the balance over restarts ---

  /** Every file that was ever counted is registered, and every size on the queue is for such a file. */
  ghost predicate Settled(s: Store) {
    AllRegistered(s.ledger) && forall i :: 0 <= i < |s.queue| && s.queue[i].size > 0 ==> s.queue[i].fid in s.ledger.location
  }

  lemma IncrSettled(l: Ledger, fid: nat, delta: nat)
    requires Sound(l) && Clean(l) && AllRegistered(l) && (delta > 0 ==> fid in l.location)
    ensures var r := Incr(l, fid, delta); Sound(r) && Clean(r) && AllRegistered(r) && r.location == l.location && r.exited == l.exited
  {
    hide Sound, Clean, Registered;
    IncrSound(l, fid, delta);
    CountRegistered(l, fid, delta);
  }

  lemma {:induction false} DrainedSettled(s: Store)
    requires Sound(s.ledger) && Clean(s.ledger) && Settled(s)
    ensures var l := Drained(s).ledger; Sound(l) && Clean(l) && AllRegistered(l) && l.location == s.ledger.location && l.exited == s.ledger.exited
    decreases |s.queue|
  {
    hide Sound, Clean, AllRegistered, Incr;
    if s.queue != [] {
      var d := s.queue[0];
      IncrSettled(s.ledger, d.fid, d.size);
      DrainedSettled(Drain(s));
    }
  }

  lemma ReloadSettled(l: Ledger)
    requires Sound(l) && Clean(l) && AllRegistered(l)
    ensures var r := Reload(l); Sound(r) && Clean(r) && r.location == l.location && r.exited == l.exited
  {
    hide Sound, Scanned, AllRegistered, Registered;
    ReloadSound(l);
    ReloadExact(l);
    var r := Reload(l);
    forall i | 0 <= i < |r.free|
      ensures At(r.records, r.free[i]).discarded == 0
    {
      assert r.free[i] in r.free;
      FreeIsZero(l, r.free[i]);
    }
  }

  lemma {:induction false} QueuedSettled(queue: seq<Discarded>, location: map<nat, nat>, f: nat)
    requires forall i :: 0 <= i < |queue| && queue[i].size > 0 ==> queue[i].fid in location
    ensures f !in location ==> Queued(queue, f) == 0
    decreases |queue|
  {
    if queue != [] {
      QueuedSettled(queue[1..], location, f);
    }
  }

  /** The table after the restart of a settled store. */
  lemma RestartTable(s: Store, f: nat)
    requires Sound(s.ledger) && Clean(s.ledger) && Settled(s) && Counter(s.ledger, f) < U32
    ensures var l := Reopen(s).ledger;
            && Sound(l) && Clean(l) && l.location == s.ledger.location && l.exited == s.ledger.exited
            && Counter(l, f) == (Counter(s.ledger, f) + Queued(s.queue, f)) % U32
  {
    hide Sound, Clean, Drained, Reload, Registered, Rebuilt;
    DrainedSettled(s);
    ReloadSettled(Drained(s).ledger);
    if f in s.ledger.location {
      RestartCounts(s, f);
    } else {
      QueuedSettled(s.queue, s.ledger.location, f);
    }
  }

  /** One key less on both sides. */
  lemma LiveBytesLess(a: Index, b: Index, k: Bytes, f: nat)
    requires k in a
    ensures LiveBytes(a, f) == LiveBytes(a - {k}, f) + Share(a[k], f)
    ensures LiveBytes(b, f) == LiveBytes(b - {k}, f) + if k in b then Share(b[k], f) else 0
    ensures |(a - {k}).Keys| < |a.Keys|
  {
    hide LiveBytes;
    LiveBytesSplit(a, k, f);
    assert (a - {k}).Keys == a.Keys - {k};
    if k in b {
      LiveBytesSplit(b, k, f);
    } else {
      assert b - {k} == b;
    }
  }

  /** Nodes that point elsewhere do not count. */
  lemma {:induction false} LiveBytesSame(a: Index, b: Index, f: nat)
    requires forall k :: k in b ==> k in a && Share(b[k], f) == Share(a[k], f)
    requires forall k :: k in a && k !in b ==> Share(a[k], f) == 0
    ensures LiveBytes(a, f) == LiveBytes(b, f)
    decreases |a.Keys|
  {
    hide LiveBytes, Share;
    if a == map[] {
      assert b == map[];
    } else {
      var k := Pick(a);
      LiveBytesLess(a, b, k, f);
      LiveBytesSame(a - {k}, b - {k}, f);
    }
  }

  lemma LiveBytesLive(s: Store, f: nat)
    requires f in s.files
    ensures LiveBytes(Live(s), f) == LiveBytes(s.index, f)
  {
    LiveBytesSame(s.index, Live(s), f);
  }

  /** A node that only one of two indices has makes a difference. */
  lemma LiveBytesMore(a: Index, b: Index, k: Bytes, f: nat)
    requires k in a && k !in b && Share(a[k], f) > 0 && forall j :: j in b ==> j in a && a[j] == b[j]
    ensures LiveBytes(a, f) > LiveBytes(b, f)
  {
    LiveBytesSplit(a, k, f);
    LiveBytesGrow(a - {k}, b, f);
  }

  lemma {:induction false} LiveBytesGrow(a: Index, b: Index, f: nat)
    requires forall j :: j in b ==> j in a && a[j] == b[j]
    ensures LiveBytes(a, f) >= LiveBytes(b, f)
    decreases |a.Keys|
  {
    hide LiveBytes, Share;
    if a == map[] {
      assert b == map[];
    } else {
      var k := Pick(a);
      LiveBytesLess(a, b, k, f);
      LiveBytesGrow(a - {k}, b - {k}, f);
    }
  }

  /** The counter of a file after the restart: its bytes less those of the nodes that were live before. */
  lemma RestartDead(s: Store, f: nat)
    requires Books(s, 0) && Settled(s) && f in s.files && f != 0
    ensures Counter(Reopen(s).ledger, f) == (Used(s.files[f].entries) - LiveBytes(Live(s), f)) % U32
    ensures Used(s.files[f].entries) >= LiveBytes(Live(s), f)
  {
    hide Sound, Clean, Counter, LiveBytes, Used, Reopen, Settled, Live;
    assert Balanced(s, f);
    RestartTable(s, f);
    LiveBytesLive(s, f);
    ModAdd(Dead(s, f), Queued(s.queue, f));
  }

  lemma RoomedFile(s: Store, f: nat)
    requires AllRoomed(s) && f in s.files
    ensures Reopen(s).files == s.files && Reopen(s).index == Rebuilt(s) && Reopen(s).queue == []
  {
    hide Roomed, Rebuilt, Drained, Reload;
    RoomedReopen(s);
  }

  /** Where a file stands after the restart of a settled store of which everything can be read. */
  lemma RestartBalance(s: Store, f: nat)
    requires Books(s, 0) && Settled(s) && AllRoomed(s) && f in s.files && f != 0
    ensures f in Reopen(s).files && Dead(Reopen(s), f) == Used(s.files[f].entries) - LiveBytes(Rebuilt(s), f)
    ensures Rebuilt(s) == Live(s) ==> Balanced(Reopen(s), f)
    ensures Used(s.files[f].entries) < U32 && Balanced(Reopen(s), f) ==> LiveBytes(Rebuilt(s), f) == LiveBytes(Live(s), f)
  {
    hide Books, Settled, AllRoomed, LiveBytes, Used, Reopen, Rebuilt, Live, Counter;
    RoomedFile(s, f);
    RestartDead(s, f);
  }

  /**
   The balance over a restart, exactly. In a settled store of which everything can be read, with files below 4 GiB, all files
   balance after the restart if and only if the log was recoverable.
   */
  lemma BalancedIff(ss: seq<Store>, evs: seq<Event>, maxSize: nat, i: nat)
    requires Trace(ss, evs, maxSize) && i < |ss| && Books(ss[i], 0) && Settled(ss[i]) && AllRoomed(ss[i])
    requires forall f :: f in ss[i].files ==> Used(ss[i].files[f].entries) < U32
    ensures (forall f :: f in Reopen(ss[i]).files ==> Balanced(Reopen(ss[i]), f)) <==> Durable(ss[i])
  {
    hide Books, Settled, AllRoomed, Balanced, Reopen, Rebuilt, Live, Used, NextStore, Allowed, Roomed, LiveBytes;
    var s := ss[i];
    HistoryLaidOut(ss, evs, maxSize, i);
    assert Reopen(s).files == s.files by { RoomedReopen(s); }
    if Durable(s) {
      forall f | f in s.files
        ensures Balanced(Reopen(s), f)
      {
        RestartBalance(s, f);
      }
    } else if forall f :: f in s.files ==> Balanced(Reopen(s), f) {
      DurableEverywhere(s);
      var k :| !DurableAt(s, k);
      var f := ComesBack(ss, evs, maxSize, i, k);
      RestartBalance(s, f);
      assert false;
    }
  }

  /** A key that is not recoverable is one that a replay brings back, and its node was counted as dead. */
  lemma ComesBack(ss: seq<Store>, evs: seq<Event>, maxSize: nat, i: nat, k: Bytes) returns (f: nat)
    requires Trace(ss, evs, maxSize) && i < |ss| && !DurableAt(ss[i], k)
    ensures f in ss[i].files && LiveBytes(Rebuilt(ss[i]), f) > LiveBytes(Live(ss[i]), f)
  {
    hide LiveBytes, Rebuilt, Live, NextStore, Allowed, Used;
    var s := ss[i];
    HistoryLaidOut(ss, evs, maxSize, i);
    RebuiltLeads(s);
    HistoryFound(ss, evs, maxSize, i, k);
    var n := Rebuilt(s)[k];
    f := n.fid;
    forall j | j in Live(s)
      ensures j in Rebuilt(s) && Rebuilt(s)[j] == Live(s)[j]
    {
      HistoryFound(ss, evs, maxSize, i, j);
    }
    LiveBytesMore(Rebuilt(s), Live(s), k, f);
  }

  /** What a restart needs so that the books stay in order. */
  ghost predicate Carries(s: Store) {
    AllRoomed(s) && Settled(s) && Durable(s)
  }

  lemma RestartConserved(s: Store)
    requires Wf(s) && Books(s, 0) && Carries(s)
    ensures Conserved(Reopen(s), 0)
  {
    hide AllRoomed, Settled, LiveBytes, Used, Counter, Reopen, Rebuilt, Sound, Clean;
    var r := Reopen(s);
    RoomedReopen(s);
    ReopenState(s);
    TableAnyway(s);
    forall f | f in r.files
      ensures Balanced(r, f)
    {
      hide Books, Balanced;
      RestartBalance(s, f);
    }
  }

  lemma TableAnyway(s: Store)
    requires Sound(s.ledger) && Clean(s.ledger) && Settled(s)
    ensures var l := Reopen(s).ledger; Sound(l) && Clean(l) && l.location == s.ledger.location && Reopen(s).queue == []
  {
    hide Sound, Clean, Drained, Reload, Rebuilt, Settled;
    DrainedSettled(s);
    ReloadSettled(Drained(s).ledger);
  }

  /**
   Conservation over restarts. At every point of every history whose restarts find everything readable, the log
   recoverable and no file counted that is not registered, the bytes of every file balance.
   */
  lemma {:induction false} BytesConservedOver(ss: seq<Store>, evs: seq<Event>, maxSize: nat, i: nat)
    requires Trace(ss, evs, maxSize) && i < |ss| && forall j :: 0 <= j < i && evs[j].Reopens? ==> Carries(ss[j])
    ensures Books(ss[i], 0)
    decreases i
  {
    hide Books, NextStore, Allowed, Wf, Carries;
    if i == 0 {
      EmptyConserved(maxSize);
    } else {
      BytesConservedOver(ss, evs, maxSize, i - 1);
      assert Wf(ss[i - 1]) by { HistoryLaidOut(ss, evs, maxSize, i - 1); }
      StepConserved(ss[i - 1], evs[i - 1]);
    }
  }

  lemma StepConserved(s: Store, ev: Event)
    requires Allowed(s, ev) && Wf(s) && Books(s, 0) && (ev.Reopens? ==> Carries(s))
    ensures Conserved(NextStore(s, ev), 0)
  {
    hide Books, Wf, Carries, Execute, Merge, Drain, Reopen;
    if ev.Reopens? {
      RestartConserved(s);
    } else {
      NextConserved(s, ev);
    }
  }
}
