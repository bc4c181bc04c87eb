/** What writing does to the files and to the log as a whole. */
module StoreLog {
  import opened Bytes
  import opened LogEntry
  import opened LogFile
  import opened Ledger
  import opened Store

  /** The shape every reachable state has. */
  predicate Wf(s: Store) {
    && s.maxSize > 0
    && (if s.active == 0 then s.files == map[] else s.active in s.files)
    && (forall f :: f in s.files ==> 1 <= f <= s.active && Used(s.files[f].entries) <= s.files[f].length && s.maxSize <= s.files[f].length)
    && (forall k :: k in s.index ==> 1 <= s.index[k].fid <= s.active)
  }

  /** Files keep what they hold: each old file is still there, with at most more entries behind the old ones. */
  predicate Grows(before: Files, after: Files) {
    forall f :: f in before ==> f in after && before[f].entries <= after[f].entries && before[f].length <= after[f].length
  }

  lemma {:induction false} LogUnchanged(before: Files, after: Files, n: nat)
    requires forall f :: 1 <= f <= n ==> (f in before <==> f in after) && (f in before ==> before[f].entries == after[f].entries)
    ensures Log(after, n) == Log(before, n)
  {
    if n > 0 {
      LogUnchanged(before, after, n - 1);
    }
  }

  /** A new, empty file above all others adds nothing to the log. */
  lemma NewFile(s: Store, fid: nat)
    requires Wf(s) && fid == s.active + 1
    ensures var r := WithFile(s, fid);
            Wf(r) && Grows(s.files, r.files) && (forall f :: f in r.files ==> f in s.files || f > s.active)
            && Log(r.files, r.active) == Log(s.files, s.active)
  {
    hide Size, EntryCrc, SetTotal, Log, Used;
    assert Used([]) == 0 by { UsedNothing(); }
    NewFileLog(s.files, WithFile(s, fid).files, fid);
  }

  lemma UsedNothing()
    ensures Used([]) == 0
  {
  }

  lemma NewFileLog(before: Files, after: Files, fid: nat)
    requires fid > 0 && fid in after && after[fid].entries == []
    requires forall f :: f < fid ==> (f in before <==> f in after) && (f in before ==> before[f].entries == after[f].entries)
    ensures Log(after, fid) == Log(before, fid - 1)
  {
    LogUnchanged(before, after, fid - 1);
    assert FileLog(after, fid) == [];
  }

  lemma RolledFacts(s: Store, e: Entry)
    requires Wf(s) && Storable(e)
    ensures var r := Rolled(s, e);
            && Wf(r) && Grows(s.files, r.files) && (forall f :: f in r.files ==> f in s.files || f > s.active)
            && Log(r.files, r.active) == Log(s.files, s.active)
            && r.index == s.index && r.queue == s.queue && r.maxSize == s.maxSize && r.active >= s.active
  {
    hide Size, EntryCrc, SetTotal, Log, Recs, Used;
    var s0 := EnsureActive(s);
    if s.active == 0 {
      NewFile(s, 1);
    }
    if Used(ActiveFile(s0).entries) + Size(e) > s0.maxSize {
      NewFile(s0, s0.active + 1);
    }
  }

  /** A write appends one record at the end of the log, at the place it reports, and disturbs nothing. */
  lemma WriteFacts(s: Store, e: Entry)
    requires Wf(s) && Storable(e)
    ensures var r, p := Write(s, e), Where(s, e);
            && Wf(r) && Grows(s.files, r.files) && (forall f :: f in r.files ==> f in s.files || f > s.active)
            && p.fid == r.active >= s.active
            && EntryAt(r.files[p.fid].entries, p.offset) == Some(e)
            && Log(r.files, r.active) == Log(s.files, s.active) + [Rec(p.fid, p.offset, e)]
  {
    hide Size, EntryCrc, SetTotal, Log, Used, Rolled, EntryAt;
    RolledFacts(s, e);
    var m := Rolled(s, e);
    var f := ActiveFile(m);
    UsedAppend(f.entries, e);
    EntryAtAppend(f.entries, e, Used(f.entries));
    AppendLog(m.files, Write(s, e).files, m.active, e);
  }

  lemma AppendLog(before: Files, after: Files, fid: nat, e: Entry)
    requires fid > 0 && Storable(e) && fid in before && fid in after && after[fid].entries == before[fid].entries + [e]
    requires forall f :: f < fid ==> (f in before <==> f in after) && (f in before ==> before[f].entries == after[f].entries)
    ensures Log(after, fid) == Log(before, fid) + [Rec(fid, Used(before[fid].entries), e)]
  {
    hide Size, EntryCrc, Recs, Used;
    LogUnchanged(before, after, fid - 1);
    RecsAppend(fid, before[fid].entries, e, 0);
  }

  /** Entries stay where they are while their file grows. */
  lemma {:induction false} EntryAtPrefix(es: Entries, fs: Entries, off: int)
    requires es <= fs && EntryAt(es, off).Some?
    ensures EntryAt(fs, off) == EntryAt(es, off)
    decreases |es|
  {
    if off != 0 {
      assert es[1..] <= fs[1..] && es[0] == fs[0];
      EntryAtPrefix(es[1..], fs[1..], off - Size(es[0]));
    }
  }

  /** An entry that a merge drops changes nothing. */
  lemma MergeSkips(s: Store, fid: nat, offset: nat, e: Entry, now: int)
    requires Openable(s) && Storable(e) && MergeDrops(e, now)
    ensures MergeOne(s, fid, offset, e, now) == s
  {
  }

  lemma RestStorable(args: seq<Bytes>)
    requires |args| >= 2 && PairsStorable(args)
    ensures Storable(Plain(args[0], args[1])) && PairsStorable(args[2..])
  {
    hide Storable;
  }

  lemma OpenableWf(s: Store)
    requires Wf(s)
    ensures Openable(s)
  {
  }
}
