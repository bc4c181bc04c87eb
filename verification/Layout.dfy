/** How the files themselves evolve. */
module Layout {
  import opened Bytes
  import opened LogEntry
  import opened LogFile
  import opened Decimal
  import opened Store
  import opened StoreLog
  import opened Recovery
  import opened Runs

  /** Within the maximum size, or a single entry that is larger than the maximum on its own. */
  predicate WithinLimit(f: File, maxSize: nat) {
    Used(f.entries) <= maxSize || |f.entries| == 1
  }

  predicate LaidOut(s: Store) {
    Wf(s) && forall f :: f in s.files ==> WithinLimit(s.files[f], s.maxSize)
  }

  /** From one state to a later one of the same session: files that exist in both only grew, and new files have new fids. */
  predicate Extends(s: Store, r: Store) {
    && r.maxSize == s.maxSize && r.active >= s.active
    && forall f :: f in r.files ==> if f in s.files then s.files[f].entries <= r.files[f].entries && s.files[f].length <= r.files[f].length else f > s.active
  }

  /** Over restarts: what could be read of a file is still there. */
  predicate Evolves(s: Store, r: Store) {
    && r.maxSize == s.maxSize && r.active >= s.active
    && forall f :: f in r.files ==> if f in s.files then Readable(s.files[f]) <= r.files[f].entries && s.files[f].length <= r.files[f].length else f > s.active
  }

  lemma {:induction false} RoomedGrows(ps: Entries, fs: Entries, off: nat, length: nat, length': nat)
    requires Roomed(ps, off, length) && ps <= fs && length <= length'
    ensures ps <= RoomedPrefix(fs, off, length')
    decreases |ps|
  {
    if ps != [] {
      assert ps[1..] <= fs[1..] && ps[0] == fs[0];
      RoomedGrows(ps[1..], fs[1..], off + Size(ps[0]), length, length');
    }
  }

  /** What could be read earlier can be read later. */
  lemma ReadableGrows(f: File, g: File)
    requires Readable(f) <= g.entries && f.length <= g.length
    ensures Readable(f) <= Readable(g)
  {
    hide RoomedPrefix;
    RoomedPrefixRoomed(f.entries, 0, f.length);
    RoomedGrows(Readable(f), g.entries, 0, f.length, g.length);
  }

  lemma EvolvesTransitive(a: Store, b: Store, c: Store)
    requires Wf(a) && Evolves(a, b) && Evolves(b, c)
    ensures Evolves(a, c)
  {
    hide Used, Readable;
    forall f | f in c.files
      ensures if f in a.files then Readable(a.files[f]) <= c.files[f].entries && a.files[f].length <= c.files[f].length else f > a.active
    {
      if f in a.files {
        assert f in b.files;
        ReadableGrows(a.files[f], b.files[f]);
        PrefixTransitive(Readable(a.files[f]), Readable(b.files[f]), c.files[f].entries);
      }
    }
  }

  lemma ExtendsEvolves(s: Store, r: Store)
    requires Extends(s, r)
    ensures Evolves(s, r)
  {
    hide RoomedPrefix;
    forall f | f in r.files && f in s.files
      ensures Readable(s.files[f]) <= r.files[f].entries
    {
      RoomedPrefixIs(s.files[f].entries, 0, s.files[f].length);
      PrefixTransitive(Readable(s.files[f]), s.files[f].entries, r.files[f].entries);
    }
  }

  lemma ExtendsTransitive(a: Store, b: Store, c: Store)
    requires Wf(a) && Extends(a, b) && Extends(b, c)
    ensures Extends(a, c)
  {
    hide Used;
    forall f | f in c.files
      ensures if f in a.files then a.files[f].entries <= c.files[f].entries && a.files[f].length <= c.files[f].length else f > a.active
    {
      if f in a.files {
        assert f in b.files;
        PrefixTransitive(a.files[f].entries, b.files[f].entries, c.files[f].entries);
      }
    }
  }

  lemma PrefixTransitive(a: seq<Entry>, b: seq<Entry>, c: seq<Entry>)
    requires a <= b <= c
    ensures a <= c
  {
    assert c[..|a|] == b[..|a|];
  }

  predicate Steps(s: Store, r: Store) {
    LaidOut(r) && Extends(s, r)
  }

  lemma NewFileLaidOut(s: Store, fid: nat)
    requires LaidOut(s) && fid == s.active + 1
    ensures Steps(s, WithFile(s, fid))
  {
    hide Size, EntryCrc, Used;
    UsedNothing();
    NewFile(s, fid);
  }

  lemma RolledLaidOut(s: Store, e: Entry)
    requires LaidOut(s) && Storable(e)
    ensures Steps(s, Rolled(s, e))
    ensures var f := ActiveFile(Rolled(s, e)); Used(f.entries) + Size(e) <= s.maxSize || f.entries == []
  {
    hide Used, Extends, WithinLimit;
    var s0 := EnsureActive(s);
    if s.active == 0 {
      NewFileLaidOut(s, 1);
    } else {
      ExtendsSame(s);
    }
    if Used(ActiveFile(s0).entries) + Size(e) > s0.maxSize {
      NewFileLaidOut(s0, s0.active + 1);
      ExtendsTransitive(s, s0, WithFile(s0, s0.active + 1));
    }
    SameLimit(s, s0);
  }

  lemma ExtendsSame(s: Store)
    ensures Extends(s, s)
  {
  }

  lemma SameLimit(s: Store, r: Store)
    requires Extends(s, r)
    ensures r.maxSize == s.maxSize
  {
  }

  lemma WriteLaidOut(s: Store, e: Entry)
    requires LaidOut(s) && Storable(e)
    ensures Steps(s, Write(s, e))
  {
    hide Used, Size, EntryCrc, Rolled;
    RolledLaidOut(s, e);
    WriteFacts(s, e);
    var m := Rolled(s, e);
    UsedAppend(ActiveFile(m).entries, e);
    UsedNothing();
    var r := Write(s, e);
    assert Extends(m, r);
    ExtendsTransitive(s, m, r);
  }

  /** What keeps the files and stays well formed keeps the layout. */
  lemma FilesDecide(s: Store, r: Store, t: Store)
    requires Steps(s, r) && Wf(t) && t.files == r.files && t.active == r.active && t.maxSize == r.maxSize
    ensures Steps(s, t)
  {
  }

  lemma PutLaidOut(s: Store, e: Entry, send: bool)
    requires LaidOut(s) && Storable(e)
    ensures Steps(s, Put(s, e, send))
  {
    hide Steps, Write, Where, Used, Size, EntryCrc;
    WriteLaidOut(s, e);
    PutWf(s, e, send);
    FilesDecide(s, Write(s, e), Put(s, e, send));
  }

  lemma RemoveLaidOut(s: Store, key: Bytes)
    requires LaidOut(s) && Storable(Tombstone(key))
    ensures Steps(s, Remove(s, key))
  {
    hide Steps, Write, Where, Used, Size, EntryCrc;
    WriteLaidOut(s, Tombstone(key));
    RemoveWf(s, key);
    FilesDecide(s, Write(s, Tombstone(key)), Remove(s, key));
  }

  lemma StepsTransitive(a: Store, b: Store, c: Store)
    requires LaidOut(a) && Steps(a, b) && Steps(b, c)
    ensures Steps(a, c)
  {
    hide Used, Extends, WithinLimit;
    ExtendsTransitive(a, b, c);
  }

  lemma StepsSame(s: Store)
    requires LaidOut(s)
    ensures Steps(s, s)
  {
  }

  lemma {:induction false} PutPairsLaidOut(s: Store, args: seq<Bytes>)
    requires LaidOut(s) && |args| % 2 == 0 && PairsStorable(args)
    ensures Steps(s, PutPairs(s, args))
    decreases |args|
  {
    hide Put, Storable, Extends, Wf, WithinLimit;
    OpenableWf(s);
    StepsSame(s);
    if |args| >= 2 {
      var e := Plain(args[0], args[1]);
      PutLaidOut(s, e, true);
      PutPairsLaidOut(Put(s, e, true), args[2..]);
      StepsTransitive(s, Put(s, e, true), PutPairs(s, args));
    }
  }

  lemma ExecuteLaidOut(s: Store, c: Command, now: int)
    requires LaidOut(s) && Writable(c, OldValue(s, c, now))
    ensures Steps(s, Execute(s, c, now).0)
  {
    hide LaidOut, Steps, Put, Remove, PutPairs, Get, OldValue, Incremented, Storable, PairsStorable;
    LaidOutOpenable(s);
    var was := OldValue(s, c, now);
    StepsSame(s);
    match c
    case Set(k, v) => PutLaidOut(s, Plain(k, v), true);
    case SetEX(k, v, t) => PutLaidOut(s, Expiring(k, v, t), true);
    case SetNX(k, v) => PutLaidOut(s, Plain(k, v), true);
    case MSet(args) => if |args| % 2 == 0 { PutPairsLaidOut(s, args); }
    case Append(k, v) => PutLaidOut(s, Plain(k, Appended(was, v)), true);
    case Delete(k) => RemoveLaidOut(s, k);
    case GetDel(k) => RemoveLaidOut(s, k);
    case IncrBy(k, d) =>
      var i := Incremented(TextOf(was), d);
      if i.Counted? { PutLaidOut(s, Plain(k, i.text), true); }
  }

  lemma LaidOutOpenable(s: Store)
    requires LaidOut(s)
    ensures Openable(s)
  {
  }

  lemma {:induction false} MergeLoopLaidOut(s: Store, fid: nat, es: Entries, offset: nat, clock: nat -> int, i: nat)
    requires LaidOut(s)
    ensures Steps(s, MergeLoop(s, fid, es, offset, clock, i))
    decreases |es|
  {
    hide Put, Size, HeaderSize, EntryCrc, Extends, Wf, WithinLimit;
    OpenableWf(s);
    StepsSame(s);
    if es != [] {
      var t := MergeOne(s, fid, offset, es[0], clock(i));
      if !MergeDrops(es[0], clock(i)) && PointsAt(s.index, es[0].key, fid, offset) {
        PutLaidOut(s, es[0], false);
      }
      MergeLoopLaidOut(t, fid, es[1..], offset + Size(es[0]), clock, i + 1);
      StepsTransitive(s, t, MergeLoop(s, fid, es, offset, clock, i));
    }
  }

  lemma MergeLaidOut(s: Store, fid: nat, ratio: real, clock: nat -> int)
    requires LaidOut(s)
    ensures Steps(s, Merge(s, fid, ratio, clock))
  {
    var s0 := EnsureActive(s);
    StepsSame(s);
    if s.active == 0 {
      NewFileLaidOut(s, 1);
    }
    if Mergeable(s0, fid, ratio) {
      hide Used, MergeLoop, Extends, WithinLimit;
      var t := MergeLoop(s0, fid, Readable(s0.files[fid]), 0, clock, 0);
      MergeLoopLaidOut(s0, fid, Readable(s0.files[fid]), 0, clock, 0);
      StepsTransitive(s, s0, t);
      DropLaidOut(s, s0, t, fid);
    }
  }

  lemma DropLaidOut(s: Store, s0: Store, t: Store, fid: nat)
    requires Steps(s, t) && Steps(s0, t) && fid in s0.files && fid < s0.active
    ensures Steps(s, DropFile(t, fid))
  {
    hide Used;
  }

  lemma ReopenLaidOut(s: Store)
    requires LaidOut(s)
    ensures LaidOut(Reopen(s)) && Evolves(s, Reopen(s))
  {
    hide Used, Reopen, RoomedPrefix, EntryAt, Recovered;
    FilesOnly(s);
    ReopenRefines(s, 0);
    ReopenState(s);
    forall f | f in s.files
      ensures WithinLimit(Reopen(s).files[f], s.maxSize)
    {
      RoomedPrefixIs(s.files[f].entries, 0, s.files[f].length);
      UsedPrefix(Readable(s.files[f]), s.files[f].entries);
      UsedNothing();
    }
  }

  lemma NextLaidOut(s: Store, ev: Event)
    requires LaidOut(s) && Allowed(s, ev)
    ensures var r := NextStore(s, ev); LaidOut(r) && Evolves(s, r) && (!ev.Reopens? ==> Extends(s, r))
  {
    hide Execute, Merge, Reopen, LaidOut, Extends, Evolves, Steps, Drain;
    match ev
    case Runs(c, now) => ExecuteLaidOut(s, c, now); StepsParts(s, NextStore(s, ev));
    case Drains => DrainLaidOut(s); StepsParts(s, Drain(s));
    case Merges(fid, ratio, clock) => MergeLaidOut(s, fid, ratio, clock); StepsParts(s, NextStore(s, ev));
    case Reopens => ReopenLaidOut(s);
  }

  lemma StepsParts(s: Store, r: Store)
    requires Steps(s, r)
    ensures LaidOut(r) && Extends(s, r) && Evolves(s, r)
  {
    ExtendsEvolves(s, r);
  }

  lemma DrainLaidOut(s: Store)
    requires LaidOut(s)
    ensures Steps(s, Drain(s))
  {
    hide Used;
  }

  lemma {:induction false} HistoryLaidOut(ss: seq<Store>, evs: seq<Event>, maxSize: nat, i: nat)
    requires Trace(ss, evs, maxSize) && i < |ss|
    ensures LaidOut(ss[i])
    decreases i
  {
    hide NextStore, Allowed, Used;
    if i > 0 {
      HistoryLaidOut(ss, evs, maxSize, i - 1);
      NextLaidOut(ss[i - 1], evs[i - 1]);
    }
  }

  /**
   Layout. In every history, archived fids are below the active one, fids are never reused, and every file is within the
   size limit or holds a single oversized entry. Within a session a file that exists at two points holds at the later one
   everything it held at the earlier one in the same place; over restarts it holds everything that could be read.
   */
  lemma {:induction false} FilesOnlyGrow(ss: seq<Store>, evs: seq<Event>, maxSize: nat, i: nat, j: nat)
    requires Trace(ss, evs, maxSize) && i <= j < |ss|
    ensures LaidOut(ss[i]) && LaidOut(ss[j]) && Evolves(ss[i], ss[j])
    ensures (forall n :: i <= n < j ==> !evs[n].Reopens?) ==> Extends(ss[i], ss[j])
    decreases j - i
  {
    hide NextStore, Allowed, Evolves, Extends, LaidOut;
    HistoryLaidOut(ss, evs, maxSize, i);
    HistoryLaidOut(ss, evs, maxSize, j);
    LaidOutWf(ss[i]);
    if i == j {
      ExtendsSame(ss[i]);
      ExtendsEvolves(ss[i], ss[j]);
    } else {
      FilesOnlyGrow(ss, evs, maxSize, i, j - 1);
      NextLaidOut(ss[j - 1], evs[j - 1]);
      EvolvesTransitive(ss[i], ss[j - 1], ss[j]);
      if forall n :: i <= n < j ==> !evs[n].Reopens? {
        ExtendsTransitive(ss[i], ss[j - 1], ss[j]);
      }
    }
  }

  lemma LaidOutWf(s: Store)
    requires LaidOut(s)
    ensures Wf(s)
  {
  }

  /** A restart keeps the entries of a file exactly if all of them can be read; the others can be overwritten afterwards. */
  lemma RestartForgets(s: Store, f: nat)
    requires f in s.files
    ensures f in Reopen(s).files
    ensures Reopen(s).files[f].entries == s.files[f].entries <==> Roomed(s.files[f].entries, 0, s.files[f].length)
  {
    RoomedPrefixComplete(s.files[f].entries, 0, s.files[f].length);
  }

  /** A file that is gone stays gone. */
  lemma FidsNotReused(ss: seq<Store>, evs: seq<Event>, maxSize: nat, i: nat, j: nat, l: nat, f: nat)
    requires Trace(ss, evs, maxSize) && i <= j <= l < |ss|
    requires f in ss[i].files && f !in ss[j].files
    ensures f !in ss[l].files
  {
    hide Trace, Readable;
    FilesOnlyGrow(ss, evs, maxSize, i, j);
    FilesOnlyGrow(ss, evs, maxSize, j, l);
  }
}
