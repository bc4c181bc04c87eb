/** Every file of every history is registered in the discard table, so that Merge works on a file exactly by its count. */
module Registration {
  import opened Bytes
  import opened LogEntry
  import opened LogFile
  import opened Ledger
  import opened Reloading
  import opened Decimal
  import opened Store
  import opened StoreLog
  import opened Recovery
  import opened Runs
  import opened Layout
  import opened Conservation

  // --- the table ---

  /** The file has a slot, with its fid and this total. */
  predicate Enlisted(l: Ledger, f: nat, total: nat) {
    f in l.location && At(l.records, l.location[f]).fid == f && At(l.records, l.location[f]).total == total
  }

  lemma SetTotalEnlists(l: Ledger, fid: nat, total: nat)
    requires Sound(l) && fid != 0 && total != 0 && fid !in l.location && !SetTotal(l, fid, total).exited
    ensures var r := SetTotal(l, fid, total);
            && Sound(r) && Enlisted(r, fid, total) && r.location.Keys == l.location.Keys + {fid}
            && forall f, n :: Enlisted(l, f, n) ==> Enlisted(r, f, n)
  {
    hide Sound;
    SetTotalSound(l, fid, total);
    AllocSound(l, fid);
    var a := Alloc(l, fid);
    forall f, n | Enlisted(l, f, n)
      ensures Enlisted(SetTotal(l, fid, total), f, n)
    {
      OwnSlots(a, f, fid);
    }
  }

  lemma IncrEnlists(l: Ledger, fid: nat, delta: int)
    requires Sound(l)
    ensures var r := Incr(l, fid, delta);
            Sound(r) && r.location.Keys <= l.location.Keys + {fid} && forall f, n :: Enlisted(l, f, n) ==> Enlisted(r, f, n)
  {
    hide Sound;
    IncrSound(l, fid, delta);
    AllocSound(l, fid);
    var a := Alloc(l, fid);
    forall f, n | Enlisted(l, f, n)
      ensures Enlisted(Incr(l, fid, delta), f, n)
    {
      if f != fid && fid in a.location {
        OwnSlots(a, f, fid);
      }
    }
  }

  lemma ClearEnlists(l: Ledger, fid: nat)
    requires Sound(l) && !Clear(l, fid).exited
    ensures var r := Clear(l, fid);
            && Sound(r) && r.location.Keys == l.location.Keys - {fid}
            && forall f, n :: f != fid && Enlisted(l, f, n) ==> Enlisted(r, f, n)
  {
    hide Sound;
    ClearSound(l, fid);
    AllocSound(l, fid);
    var a := Alloc(l, fid);
    forall f, n | f != fid && Enlisted(l, f, n)
      ensures Enlisted(Clear(l, fid), f, n)
    {
      OwnSlots(a, f, fid);
    }
  }

  lemma ReloadEnlists(l: Ledger)
    requires Sound(l)
    ensures var r := Reload(l);
            && Sound(r) && r.location.Keys <= l.location.Keys && r.exited == l.exited
            && forall f, n :: f != 0 && n != 0 && Enlisted(l, f, n) ==> Enlisted(r, f, n)
  {
    hide Sound, Scanned;
    ReloadSound(l);
    ReloadFinds(l);
    var r := Reload(l);
    forall f | f in r.location
      ensures f in l.location
    {
      var g := Owner(l, r.location[f]);
    }
    forall f, n | f != 0 && n != 0 && Enlisted(l, f, n)
      ensures Enlisted(r, f, n)
    {
      LocatedRecord(l, f);
      SlotsBelow(l.location[f]);
    }
  }

  // --- the store ---

  ghost predicate AllEnlisted(s: Store) {
    && Sound(s.ledger)
    && (forall f :: f in s.ledger.location ==> f <= s.active)
    && (forall i :: 0 <= i < |s.queue| ==> s.queue[i].fid <= s.active)
    && forall f :: f in s.files ==> Enlisted(s.ledger, f, s.maxSize % U32)
  }

  ghost predicate Enrolled(s: Store) {
    Wf(s) && s.maxSize % U32 != 0 && (!s.ledger.exited ==> AllEnlisted(s))
  }

  lemma NewFileEnrolled(s: Store)
    requires Enrolled(s)
    ensures Enrolled(WithFile(s, s.active + 1))
  {
    hide Sound, SetTotal, Used, Enlisted;
    var fid := s.active + 1;
    NewFile(s, fid);
    if !WithFile(s, fid).ledger.exited {
      SetTotalEnlists(s.ledger, fid, s.maxSize % U32);
    }
  }

  lemma RolledEnrolled(s: Store, e: Entry)
    requires Enrolled(s) && Openable(s) && Storable(e)
    ensures Enrolled(Rolled(s, e))
  {
    hide Enrolled, Used, Size, EntryCrc;
    var s0 := EnsureActive(s);
    if s.active == 0 {
      NewFileEnrolled(s);
    }
    if Used(ActiveFile(s0).entries) + Size(e) > s0.maxSize {
      NewFileEnrolled(s0);
    }
  }

  lemma WriteEnrolled(s: Store, e: Entry)
    requires Enrolled(s) && Openable(s) && Storable(e)
    ensures var r := Write(s, e); Enrolled(r) && r.queue == s.queue && r.active >= s.active && Where(s, e).fid == r.active
  {
    hide Sound, Used, Size, EntryCrc, Enlisted, Rolled, Log, EntryAt;
    RolledEnrolled(s, e);
    RolledFacts(s, e);
    WriteFacts(s, e);
  }

  lemma PutEnrolled(s: Store, e: Entry, send: bool)
    requires Enrolled(s) && Openable(s) && Storable(e)
    ensures Enrolled(Put(s, e, send))
  {
    hide Sound, Enlisted, Write, Where, Storable, Used;
    WriteEnrolled(s, e);
    PutWf(s, e, send);
    if !s.ledger.exited {
      SentBelow(s, e.key);
    }
    StillExited(s, e);
  }

  lemma RemoveEnrolled(s: Store, key: Bytes)
    requires Enrolled(s) && Openable(s) && Storable(Tombstone(key))
    ensures Enrolled(Remove(s, key))
  {
    hide Sound, Enlisted, Write, Where, Storable, Used;
    WriteEnrolled(s, Tombstone(key));
    RemoveWf(s, key);
    if !s.ledger.exited {
      SentBelow(s, key);
    }
    StillExited(s, Tombstone(key));
  }

  lemma {:induction false} PairsEnrolled(s: Store, args: seq<Bytes>)
    requires Enrolled(s) && Openable(s) && |args| % 2 == 0 && PairsStorable(args)
    ensures Enrolled(PutPairs(s, args))
    decreases |args|
  {
    hide Enrolled, Put, Storable;
    if |args| >= 2 {
      PutEnrolled(s, Plain(args[0], args[1]), true);
      PairsEnrolled(Put(s, Plain(args[0], args[1]), true), args[2..]);
    }
  }

  lemma ExecuteEnrolled(s: Store, c: Command, now: int)
    requires Enrolled(s) && Openable(s) && Writable(c, OldValue(s, c, now))
    ensures Enrolled(Execute(s, c, now).0)
  {
    hide Enrolled, Put, Remove, PutPairs, Get, OldValue, Incremented, Storable, PairsStorable;
    var was := OldValue(s, c, now);
    match c
    case Set(k, v) => PutEnrolled(s, Plain(k, v), true);
    case SetEX(k, v, t) => PutEnrolled(s, Expiring(k, v, t), true);
    case SetNX(k, v) => PutEnrolled(s, Plain(k, v), true);
    case MSet(args) => if |args| % 2 == 0 { PairsEnrolled(s, args); }
    case Append(k, v) => PutEnrolled(s, Plain(k, Appended(was, v)), true);
    case Delete(k) => RemoveEnrolled(s, k);
    case GetDel(k) => RemoveEnrolled(s, k);
    case IncrBy(k, d) =>
      var i := Incremented(TextOf(was), d);
      if i.Counted? { PutEnrolled(s, Plain(k, i.text), true); }
  }

  lemma DrainEnrolled(s: Store)
    requires Enrolled(s)
    ensures Enrolled(Drain(s))
  {
    hide Sound, Enlisted, Incr, Used;
    if s.queue != [] && !s.ledger.exited {
      IncrEnlists(s.ledger, s.queue[0].fid, s.queue[0].size);
    }
  }

  lemma {:induction false} DrainedEnrolled(s: Store)
    requires Enrolled(s)
    ensures var r := Drained(s); Enrolled(r) && r.files == s.files && r.active == s.active && r.maxSize == s.maxSize
    decreases |s.queue|
  {
    hide Enrolled, Incr;
    if s.queue != [] {
      DrainEnrolled(s);
      DrainedEnrolled(Drain(s));
    }
  }

  lemma {:induction false} LoopEnrolled(s: Store, fid: nat, es: Entries, offset: nat, clock: nat -> int, i: nat)
    requires Enrolled(s) && Openable(s)
    ensures Enrolled(MergeLoop(s, fid, es, offset, clock, i))
    decreases |es|
  {
    hide Enrolled, Put, Size, HeaderSize, EntryCrc;
    if es != [] {
      if !MergeDrops(es[0], clock(i)) && PointsAt(s.index, es[0].key, fid, offset) {
        PutEnrolled(s, es[0], false);
      }
      LoopEnrolled(MergeOne(s, fid, offset, es[0], clock(i)), fid, es[1..], offset + Size(es[0]), clock, i + 1);
    }
  }

  /** A file that goes loses its slot. */
  lemma DropEnrolled(s: Store, fid: nat)
    requires Enrolled(s) && fid != s.active
    ensures var r := DropFile(s, fid); Enrolled(r) && (!r.ledger.exited ==> fid !in r.ledger.location)
  {
    hide Sound, Enlisted, Clear, Used;
    if !DropFile(s, fid).ledger.exited {
      ClearEnlists(s.ledger, fid);
    }
  }

  lemma MergeEnrolled(s: Store, fid: nat, ratio: real, clock: nat -> int)
    requires Enrolled(s) && Openable(s)
    ensures var r := Merge(s, fid, ratio, clock);
            && Enrolled(r)
            && (Mergeable(EnsureActive(s), fid, ratio) && !r.ledger.exited ==> fid !in r.files && fid !in r.ledger.location)
  {
    hide Enrolled, MergeLoop, Candidate, Readable, Clear;
    var s0 := EnsureActive(s);
    if s.active == 0 {
      NewFileEnrolled(s);
    }
    if Mergeable(s0, fid, ratio) {
      var es := Readable(s0.files[fid]);
      LoopEnrolled(s0, fid, es, 0, clock, 0);
      LoopActive(s0, fid, es, 0, clock, 0);
      DropEnrolled(MergeLoop(s0, fid, es, 0, clock, 0), fid);
    }
  }

  lemma LoopActive(s: Store, fid: nat, es: Entries, offset: nat, clock: nat -> int, i: nat)
    requires Enrolled(s) && Openable(s) && fid in s.files && fid != s.active
    ensures MergeLoop(s, fid, es, offset, clock, i).active != fid
  {
    hide MergeLoop, Used, AllEnlisted;
    MergeLoopActive(s, fid, es, offset, clock, i);
  }

  lemma ReopenEnrolled(s: Store)
    requires Enrolled(s)
    ensures Enrolled(Reopen(s))
  {
    hide Sound, Enlisted, Drained, Reload, Rebuilt, Used, RoomedPrefix;
    var d := Drained(s);
    DrainedEnrolled(s);
    RebuiltWf(s);
    ReloadFlag(d.ledger);
    if !d.ledger.exited {
      ReloadEnlists(d.ledger);
    }
  }

  lemma ReloadFlag(l: Ledger)
    ensures Reload(l).exited == l.exited
  {
    hide Scanned;
  }

  lemma RebuiltWf(s: Store)
    requires Wf(s)
    ensures Wf(Reopen(s)) && Reopen(s).maxSize == s.maxSize && Reopen(s).active == s.active && Reopen(s).files.Keys == s.files.Keys
    ensures Reopen(s).ledger == Reload(Drained(s).ledger) && Reopen(s).queue == []
  {
    hide Drained, Reload, Rebuilt, RoomedPrefix;
    ReopenState(s);
    ReopenRefines(s, 0);
  }

  lemma {:induction false} HistoryEnrolled(ss: seq<Store>, evs: seq<Event>, maxSize: nat, i: nat)
    requires Trace(ss, evs, maxSize) && maxSize % U32 != 0 && i < |ss|
    ensures Enrolled(ss[i])
    decreases i
  {
    hide Enrolled, NextStore, Allowed;
    if i == 0 {
      EmptyEnrolled(maxSize);
    } else {
      HistoryEnrolled(ss, evs, maxSize, i - 1);
      NextEnrolled(ss[i - 1], evs[i - 1]);
    }
  }

  lemma EmptyEnrolled(maxSize: nat)
    requires maxSize > 0 && maxSize % U32 != 0
    ensures Enrolled(Empty(maxSize))
  {
    hide Sound, Fresh;
    FreshSound();
  }

  lemma NextEnrolled(s: Store, ev: Event)
    requires Enrolled(s) && Allowed(s, ev)
    ensures Enrolled(NextStore(s, ev))
  {
    hide Enrolled, Execute, Merge, Reopen, Drain;
    match ev
    case Runs(c, now) => ExecuteEnrolled(s, c, now);
    case Drains => DrainEnrolled(s);
    case Merges(fid, ratio, clock) => MergeEnrolled(s, fid, ratio, clock);
    case Reopens => ReopenEnrolled(s);
  }

  /**
   What Merge works on, in plain terms. At every point of every history, restarts included, Merge takes a file if and only if
   it is archived and its count is more than `ratio` of the maximum file size. Afterwards file and slot are gone.
   */
  lemma MergeableIff(ss: seq<Store>, evs: seq<Event>, maxSize: nat, i: nat, fid: nat, ratio: real)
    requires Trace(ss, evs, maxSize) && 0 < maxSize < U32 && i < |ss|
    ensures Mergeable(ss[i], fid, ratio)
            <==> fid in ss[i].files && fid != ss[i].active && Counter(ss[i].ledger, fid) as real / maxSize as real > ratio
  {
    hide Sound, Used, Candidate, NextStore, Allowed, Readable;
    HistoryEnrolled(ss, evs, maxSize, i);
    FilesOnlyGrow(ss, evs, maxSize, 0, i);
    if fid in ss[i].files {
      CandidateIff(ss[i].ledger, fid, ss[i].active, ratio);
    }
  }
}
