/** Whole histories: commands, queue drains, merges and restarts in any order. */
module Runs {
  import opened Bytes
  import opened LogEntry
  import opened LogFile
  import opened Store
  import opened StoreLog
  import opened Refinement
  import opened Recovery

  datatype Event =
    | Runs(command: Command, now: int)
    | Drains
    | Merges(fid: nat, ratio: real, clock: nat -> int)
    | Reopens

  /** The store, the plain map it stands for, and the latest clock reading of a merge. */
  datatype World = World(store: Store, contents: Contents, merged: int)

  /** Commands write what the format can hold. Nothing else is asked of any event. */
  predicate Allowed(s: Store, ev: Event) {
    Openable(s) && (ev.Runs? ==> Writable(ev.command, OldValue(s, ev.command, ev.now)))
  }

  function NextStore(s: Store, ev: Event): Store
    requires Allowed(s, ev)
  {
    match ev
    case Runs(c, now) => Execute(s, c, now).0
    case Drains => Drain(s)
    case Merges(fid, ratio, clock) => Merge(s, fid, ratio, clock)
    case Reopens => Reopen(s)
  }

  /**
   The plain map takes every command that does not fail. A merge takes from it the keys that could not be read for want of
   room; a restart leaves in it what the log gives.
   */
  function Next(w: World, ev: Event): World
    requires Allowed(w.store, ev)
  {
    var r := NextStore(w.store, ev);
    match ev
    case Runs(c, now) => World(r, if Execute(w.store, c, now).1.Failed? then w.contents else Apply(w.contents, c, now).0, w.merged)
    case Drains => World(r, w.contents, w.merged)
    case Merges(fid, ratio, clock) =>
      var n := if fid in w.store.files then |w.store.files[fid].entries| else 0;
      World(r, MergedContents(w.store, w.contents, fid, ratio), Latest(clock, n, w.merged))
    case Reopens => World(r, Recovered(w.store), w.merged)
  }

  /** A history from an empty database, with the store before and after each event, as long as the process lives. */
  ghost predicate Trace(ss: seq<Store>, evs: seq<Event>, maxSize: nat) {
    && maxSize > 0 && |ss| == |evs| + 1 && ss[0] == Empty(maxSize)
    && (forall i :: 0 <= i < |evs| ==> Allowed(ss[i], evs[i]) && ss[i + 1] == NextStore(ss[i], evs[i]))
    && forall i :: 0 <= i < |ss| ==> !ss[i].ledger.exited
  }

  /** The same, with the plain map beside it. */
  ghost predicate History(ws: seq<World>, evs: seq<Event>, maxSize: nat, epoch: int) {
    && maxSize > 0 && |ws| == |evs| + 1 && ws[0] == World(Empty(maxSize), map[], epoch)
    && (forall i :: 0 <= i < |evs| ==> Allowed(ws[i].store, evs[i]) && ws[i + 1] == Next(ws[i], evs[i]))
    && forall i :: 0 <= i < |ws| ==> !ws[i].store.ledger.exited
  }

  // --- live reads ---

  lemma NextRefines(w: World, ev: Event)
    requires Refines(w.store, w.contents, w.merged) && Allowed(w.store, ev)
    ensures var r := Next(w, ev); Refines(r.store, r.contents, r.merged)
  {
    hide Refines, Execute, Apply, Merge, Reopen, Recovered, MergedContents;
    match ev
    case Runs(c, now) => ExecuteRefines(w.store, w.contents, w.merged, c, now);
    case Drains => DrainRefines(w.store, w.contents, w.merged);
    case Merges(fid, ratio, clock) =>
      var n := if fid in w.store.files then |w.store.files[fid].entries| else 0;
      MergeRefines(w.store, w.contents, w.merged, Latest(clock, n, w.merged), fid, ratio, clock);
    case Reopens =>
      RefinesFiles(w.store, w.contents, w.merged);
      ReopenRefines(w.store, w.merged);
  }

  lemma DrainRefines(s: Store, m: Contents, merged: int)
    requires Refines(s, m, merged)
    ensures Refines(Drain(s), m, merged)
  {
    hide WrittenAt, Used;
    var r := Drain(s);
    forall k | k in r.index
      ensures NodeOk(r, m, merged, k)
    {
      assert NodeOk(s, m, merged, k);
      if r.index[k].fid in r.files {
        SameWritten(s, r, r.index[k], k, m[k]);
      }
    }
  }

  lemma SameWritten(s: Store, r: Store, n: Node, k: Bytes, c: Cell)
    requires r.files == s.files && n.fid in s.files && WrittenAt(s, n, k, c)
    ensures WrittenAt(r, n, k, c)
  {
  }

  lemma {:induction false} HistoryGood(ws: seq<World>, evs: seq<Event>, maxSize: nat, epoch: int, i: nat)
    requires History(ws, evs, maxSize, epoch) && i < |ws|
    ensures Refines(ws[i].store, ws[i].contents, ws[i].merged)
    decreases i
  {
    hide Next, Allowed;
    if i > 0 {
      hide Refines;
      HistoryGood(ws, evs, maxSize, epoch, i - 1);
      NextRefines(ws[i - 1], evs[i - 1]);
    }
  }

  /**
   Live reads. At every point of every history and at any time, with rollovers, merges of any archived file and restarts in
   between, Get finds exactly what the plain map shows, provided the entry has room. Otherwise a visible key gives a
   read error; only a key whose time was up at a merge can have lost its file.
   */
  lemma LiveReads(ws: seq<World>, evs: seq<Event>, maxSize: nat, epoch: int, i: nat, k: Bytes, now: int)
    requires History(ws, evs, maxSize, epoch) && i < |ws|
    ensures var w := ws[i];
            && (forall v :: Get(w.store, k, now) == Found(v) <==> Lookup(w.contents, k, now) == Some(v) && HasRoom(w.store, k))
            && (Lookup(w.contents, k, now).Some? && !HasRoom(w.store, k) ==>
                  Get(w.store, k, now) == ReadError || (Get(w.store, k, now) == LogFileNotExist && Gone(w.contents[k], w.merged)))
  {
    HistoryGood(ws, evs, maxSize, epoch, i);
    hide Refines, Get;
    GetRefines(ws[i].store, ws[i].contents, ws[i].merged, k, now);
  }

  // --- restarts ---

  /** A merge of the event drops no entry that hides an older version of the key. */
  predicate SafeMerge(s: Store, ev: Event, k: Bytes) {
    ev.Merges? && ev.fid >= 1 && Mergeable(EnsureActive(s), ev.fid, ev.ratio) ==> !Resurrects(EnsureActive(s), ev.fid, ev.clock, k)
  }

  /** A merge of the event works on the oldest file there is. */
  predicate OldestMerge(s: Store, ev: Event) {
    ev.Merges? ==> forall f :: f in s.files ==> ev.fid <= f
  }

  predicate SafeMerges(ws: seq<World>, evs: seq<Event>, i: nat, j: nat, k: Bytes)
    requires i <= j <= |evs| && |ws| == |evs| + 1
  {
    forall n :: i <= n < j ==> SafeMerge(ws[n].store, evs[n], k)
  }

  lemma NextDurable(w: World, ev: Event, k: Bytes)
    requires Refines(w.store, w.contents, w.merged) && Allowed(w.store, ev) && DurableAt(w.store, k) && SafeMerge(w.store, ev, k)
    ensures DurableAt(Next(w, ev).store, k)
  {
    hide Refines, DurableAt, Execute, Apply, Merge, Reopen, Recovered, MergedContents, Resurrects, Wf;
    RefinesFiles(w.store, w.contents, w.merged);
    match ev
    case Runs(c, now) => ExecuteDurable(w.store, c, now, k);
    case Drains => DrainDurable(w.store, k);
    case Merges(fid, ratio, clock) => MergeDurable(w.store, fid, ratio, clock, k);
    case Reopens => RestartDurable(w.store, w.merged, k);
  }

  lemma RestartDurable(s: Store, merged: int, k: Bytes)
    requires FilesWf(s)
    ensures DurableAt(Reopen(s), k)
  {
    hide Reopen, Durable, DurableAt;
    ReopenRefines(s, merged);
    DurableEverywhere(Reopen(s));
  }

  /** From the start or a restart on, a key stays recoverable as long as merges are safe for it. */
  lemma {:induction false} HistoryDurable(ws: seq<World>, evs: seq<Event>, maxSize: nat, epoch: int, i: nat, j: nat, k: Bytes)
    requires History(ws, evs, maxSize, epoch) && i <= j <= |evs| && SafeMerges(ws, evs, i, j, k)
    requires i == 0 || evs[i - 1].Reopens?
    ensures DurableAt(ws[j].store, k)
    decreases j
  {
    hide DurableAt, Refines, SafeMerge, Reopen;
    if j > i {
      HistoryDurable(ws, evs, maxSize, epoch, i, j - 1, k);
      HistoryGood(ws, evs, maxSize, epoch, j - 1);
      NextDurable(ws[j - 1], evs[j - 1], k);
    } else if i == 0 {
      StartDurable(maxSize, k);
    } else {
      HistoryGood(ws, evs, maxSize, epoch, i - 1);
      RefinesFiles(ws[i - 1].store, ws[i - 1].contents, ws[i - 1].merged);
      RestartDurable(ws[i - 1].store, ws[i - 1].merged, k);
    }
  }

  lemma StartDurable(maxSize: nat, k: Bytes)
    ensures DurableAt(Empty(maxSize), k)
  {
    assert Live(Empty(maxSize)) == map[];
  }

  /**
   Restart. At every point of every history, for every key for which the merges since the last restart are safe: a restart
   loses no successful read of it, at any time. If none of its entries is hidden for want of room the restart changes no
   answer for it, so that it does not come back deleted or expired, except that a failed read of a merged-away file becomes a plain miss.
   */
  lemma RestartReads(ws: seq<World>, evs: seq<Event>, maxSize: nat, epoch: int, i: nat, j: nat, k: Bytes, now: int)
    requires History(ws, evs, maxSize, epoch) && i <= j <= |evs| && SafeMerges(ws, evs, i, j, k)
    requires i == 0 || evs[i - 1].Reopens?
    ensures var s := ws[j].store;
            && (forall v :: Get(s, k, now) == Found(v) ==> Get(Reopen(s), k, now) == Found(v))
            && (!Hidden(s, k) ==> Get(Reopen(s), k, now) == if Get(s, k, now).LogFileNotExist? then KeyNotFound else Get(s, k, now))
  {
    hide Get, Reopen, Refines, DurableAt, SafeMerges, Hidden, Next, Allowed;
    HistoryDurable(ws, evs, maxSize, epoch, i, j, k);
    HistoryGood(ws, evs, maxSize, epoch, j);
    ReopenGet(ws[j].store, ws[j].contents, ws[j].merged, k, now);
  }

  /** In a history that merges only oldest files all merges are safe, for every key. */
  lemma OldestMergesSafe(ws: seq<World>, evs: seq<Event>, maxSize: nat, epoch: int, k: Bytes)
    requires History(ws, evs, maxSize, epoch) && forall n :: 0 <= n < |evs| ==> OldestMerge(ws[n].store, evs[n])
    ensures SafeMerges(ws, evs, 0, |evs|, k)
  {
    hide Refines, SafeMerge, Next, Allowed, OldestMerge;
    forall n | 0 <= n < |evs|
      ensures SafeMerge(ws[n].store, evs[n], k)
    {
      HistoryGood(ws, evs, maxSize, epoch, n);
      RefinesFiles(ws[n].store, ws[n].contents, ws[n].merged);
      OldestMergeSafe(ws[n].store, evs[n], k);
    }
  }

  lemma OldestMergeSafe(s: Store, ev: Event, k: Bytes)
    requires Wf(s) && OldestMerge(s, ev)
    ensures SafeMerge(s, ev, k)
  {
    hide Resurrects, Used;
    if ev.Merges? && Mergeable(EnsureActive(s), ev.fid, ev.ratio) {
      assert s.active != 0;
      OldestHidesNothing(s, ev.fid, ev.clock);
    }
  }

  /** If no entry is shorter than a full header, every entry has room. */
  lemma LargeEntriesHaveRoom(s: Store)
    requires Wf(s) && forall f, i :: f in s.files && 0 <= i < |s.files[f].entries| ==> Size(s.files[f].entries[i]) >= MAX_HEADER_SIZE
    ensures AllRoomed(s)
  {
    forall f | f in s.files
      ensures Roomed(s.files[f].entries, 0, s.files[f].length)
    {
      LargeEntriesRoomed(s.files[f].entries, 0, s.files[f].length);
    }
  }

  /**
   Failures. With room everywhere, a read of a key fails if and only if the index still names a deleted file for it under an
   expiry that is not past. A cell that is lost that way was past its time at a merge.
   */
  lemma FailureIff(s: Store, m: Contents, merged: int, k: Bytes, now: int)
    requires Refines(s, m, merged) && AllRoomed(s)
    ensures Broken(Get(s, k, now)) <==> k in s.index && s.index[k].fid !in s.files && !Expired(s.index[k].expiredAt, now)
    ensures Broken(Get(s, k, now)) && k in m ==> Gone(m[k], merged)
  {
    hide Used, Roomed, Size, EntryCrc, EntryAt;
    if k in s.index {
      assert NodeOk(s, m, merged, k);
      var n := s.index[k];
      if n.fid in s.files {
        RoomedAt(s.files[n.fid].entries, n.offset, 0, s.files[n.fid].length);
      }
    }
  }
}
