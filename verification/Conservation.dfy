/** Every byte appended to a file is live, counted as dead, or on its way to the counter. */
module Conservation {
  import opened Bytes
  import opened LogEntry
  import opened LogFile
  import opened Ledger
  import opened Reloading
  import opened Decimal
  import opened Store
  import opened StoreLog
  import opened Recovery
  import opened Runs

  function Share(n: Node, f: nat): nat {
    if n.fid == f then n.size else 0
  }

  ghost function Pick(index: Index): (k: Bytes)
    requires index != map[]
    ensures k in index
  {
    var k :| k in index;
    k
  }

  /** The sizes of the index nodes that point at file `f`. */
  ghost function LiveBytes(index: Index, f: nat): nat
    decreases |index.Keys|
  {
    if index == map[] then 0
    else
      var k := Pick(index);
      assert (index - {k}).Keys == index.Keys - {k};
      Share(index[k], f) + LiveBytes(index - {k}, f)
  }

  /** The sizes queued for file `f`. */
  function Queued(queue: seq<Discarded>, f: nat): nat {
    if queue == [] then 0 else (if queue[0].fid == f then queue[0].size else 0) + Queued(queue[1..], f)
  }

  /** Any key can be counted first. */
  lemma {:induction false} LiveBytesSplit(index: Index, k: Bytes, f: nat)
    requires k in index
    ensures LiveBytes(index, f) == Share(index[k], f) + LiveBytes(index - {k}, f)
    decreases |index.Keys|
  {
    var j := Pick(index);
    if j != k {
      assert (index - {j}).Keys == index.Keys - {j} && (index - {k}).Keys == index.Keys - {k};
      LiveBytesSplit(index - {j}, k, f);
      LiveBytesSplit(index - {k}, j, f);
      assert index - {j} - {k} == index - {k} - {j};
    }
  }

  /** Replacing a node moves exactly its share. */
  lemma LiveBytesPut(index: Index, k: Bytes, n: Node, f: nat)
    ensures LiveBytes(index[k := n], f) == LiveBytes(index - {k}, f) + Share(n, f)
    ensures LiveBytes(index, f) == LiveBytes(index - {k}, f) + (if k in index then Share(index[k], f) else 0)
  {
    LiveBytesSplit(index[k := n], k, f);
    assert index[k := n] - {k} == index - {k};
    if k in index {
      LiveBytesSplit(index, k, f);
    } else {
      assert index - {k} == index;
    }
  }

  lemma {:induction false} QueuedAppend(queue: seq<Discarded>, d: Discarded, f: nat)
    ensures Queued(queue + [d], f) == Queued(queue, f) + (if d.fid == f then d.size else 0)
    decreases |queue|
  {
    if queue == [] {
      assert queue + [d] == [d];
    } else {
      assert (queue + [d])[1..] == queue[1..] + [d];
      QueuedAppend(queue[1..], d, f);
    }
  }

  /** What a file must have lost so far: its bytes that are neither live nor queued. */
  ghost function Dead(s: Store, f: nat): int
    requires f in s.files
  {
    Used(s.files[f].entries) - LiveBytes(s.index, f) - Queued(s.queue, f)
  }

  /** The counter of the file holds exactly its dead bytes, as a uint32. */
  ghost predicate Balanced(s: Store, f: nat)
    requires f in s.files
  {
    Dead(s, f) >= 0 && Counter(s.ledger, f) == Dead(s, f) % U32
  }

  /** All files but `except` balance, where fid 0 does not exist, and the table is sound and clean. */
  ghost predicate Books(s: Store, except: nat) {
    && Sound(s.ledger) && Clean(s.ledger)
    && (forall f :: f in s.files && f != except ==> Balanced(s, f))
    && (forall f :: f in s.ledger.location ==> f <= s.active)
    && (forall i :: 0 <= i < |s.queue| ==> s.queue[i].fid <= s.active)
    && (forall k :: k in s.index ==> s.index[k].size > 0)
  }

  /** The books are in order as long as the process lives. */
  ghost predicate Conserved(s: Store, except: nat) {
    Wf(s) && (!s.ledger.exited ==> Books(s, except))
  }

  lemma ConservedOpenable(s: Store, except: nat)
    requires Conserved(s, except)
    ensures Openable(s)
  {
  }

  lemma {:induction false} NothingQueued(queue: seq<Discarded>, f: nat)
    requires forall i :: 0 <= i < |queue| ==> queue[i].fid < f
    ensures Queued(queue, f) == 0
  {
    if queue != [] {
      NothingQueued(queue[1..], f);
    }
  }

  lemma {:induction false} NothingLive(index: Index, f: nat)
    requires forall k :: k in index ==> index[k].fid != f
    ensures LiveBytes(index, f) == 0
    decreases |index.Keys|
  {
    if index != map[] {
      var k := Pick(index);
      assert (index - {k}).Keys == index.Keys - {k};
      NothingLive(index - {k}, f);
    }
  }

  /** What a step of the table does to the counters, for the files that exist. */
  lemma SetTotalCounts(l: Ledger, fid: nat, total: nat)
    requires Sound(l) && Clean(l) && fid !in l.location
    ensures var r := SetTotal(l, fid, total);
            Sound(r) && Clean(r) && (forall f :: Counter(r, f) == Counter(l, f)) && r.location.Keys <= l.location.Keys + {fid}
  {
    hide Sound;
    SetTotalSound(l, fid, total);
  }

  lemma IncrCounts(l: Ledger, fid: nat, delta: nat)
    requires Sound(l) && Clean(l) && !Incr(l, fid, delta).exited
    ensures var r := Incr(l, fid, delta);
            && Sound(r) && Clean(r) && r.location.Keys <= l.location.Keys + {fid}
            && (delta > 0 ==> Counter(r, fid) == (Counter(l, fid) + delta) % U32)
            && forall f :: f != fid || delta == 0 ==> Counter(r, f) == Counter(l, f)
  {
    hide Sound;
    IncrSound(l, fid, delta);
  }

  lemma ClearCounts(l: Ledger, fid: nat)
    requires Sound(l) && Clean(l)
    ensures var r := Clear(l, fid);
            && Sound(r) && Clean(r) && (forall f :: f != fid ==> Counter(r, f) == Counter(l, f))
            && (!r.exited ==> r.location.Keys <= l.location.Keys)
  {
    hide Sound;
    ClearSound(l, fid);
  }

  /** A new file starts with nothing live, nothing queued and a counter of 0. */
  lemma NewFileConserved(s: Store, fid: nat, except: nat)
    requires Conserved(s, except) && fid == s.active + 1
    ensures Conserved(WithFile(s, fid), except)
  {
    hide LiveBytes, Queued, Used, Size, EntryCrc, Sound, Clean, SetTotal, Counter;
    NewFile(s, fid);
    var r := WithFile(s, fid);
    if !r.ledger.exited {
      UsedNothing();
      NothingQueued(s.queue, fid);
      NothingLive(s.index, fid);
      SetTotalCounts(s.ledger, fid, s.maxSize % U32);
      NoCounter(s.ledger, fid);
      forall f | f in r.files && f != except
        ensures Balanced(r, f)
      {
        if f != fid {
          assert Balanced(s, f);
        }
      }
    }
  }

  lemma NoCounter(l: Ledger, fid: nat)
    requires fid !in l.location
    ensures Counter(l, fid) == 0
  {
  }

  lemma RolledConserved(s: Store, e: Entry, except: nat)
    requires Conserved(s, except) && Storable(e)
    ensures Conserved(Rolled(s, e), except)
  {
    hide Conserved, Used, Size, EntryCrc;
    ConservedOpenable(s, except);
    var s0 := EnsureActive(s);
    if s.active == 0 {
      NewFileConserved(s, 1, except);
    }
    if Used(ActiveFile(s0).entries) + Size(e) > s0.maxSize {
      NewFileConserved(s0, s0.active + 1, except);
    }
  }

  /** The books after an entry was written to `p`, which the index and the queue do not know of yet. */
  ghost predicate Written(r: Store, p: Node, except: nat) {
    && Sound(r.ledger) && Clean(r.ledger)
    && (forall f :: f in r.files && f != except ==>
          Dead(r, f) >= Share(p, f) && Counter(r.ledger, f) == (Dead(r, f) - Share(p, f)) % U32)
    && (forall f :: f in r.ledger.location ==> f <= r.active)
  }

  /** What a write does to the books before the index and the queue are updated. */
  lemma WriteDead(s: Store, e: Entry, except: nat)
    requires Conserved(s, except) && Storable(e)
    ensures var r := Write(s, e);
            && r.index == s.index && r.queue == s.queue && r.active >= s.active && (s.ledger.exited ==> r.ledger.exited)
            && (!r.ledger.exited ==> Written(r, Where(s, e), except))
  {
    hide LiveBytes, Queued, Used, Size, HeaderSize, EntryCrc, Rolled, SetTotal, Sound, Clean, Counter;
    StillExited(s, e);
    RolledFacts(s, e);
    RolledConserved(s, e, except);
    var m, r, p := Rolled(s, e), Write(s, e), Where(s, e);
    UsedAppend(ActiveFile(m).entries, e);
    if !r.ledger.exited {
      forall f | f in r.files && f != except
        ensures Dead(r, f) >= Share(p, f) && Counter(r.ledger, f) == (Dead(r, f) - Share(p, f)) % U32
      {
        assert Balanced(m, f);
      }
    }
  }

  lemma StillExited(s: Store, e: Entry)
    requires Openable(s) && Storable(e)
    ensures s.ledger.exited ==> Rolled(s, e).ledger.exited
    ensures Write(s, e).ledger == Rolled(s, e).ledger
  {
    hide Used, Size, SetTotal;
  }

  lemma SendQueued(queue: seq<Discarded>, index: Index, k: Bytes, f: nat)
    ensures Queued(Send(queue, index, k), f) == Queued(queue, f) + (if k in index then Share(index[k], f) else 0)
  {
    if k in index && index[k].size != 0 {
      QueuedAppend(queue, Discarded(index[k].fid, index[k].size), f);
    }
  }

  /** A write with its index update; an old node is queued, or it points at the excepted file. */
  lemma PutConserved(s: Store, e: Entry, send: bool, except: nat)
    requires Conserved(s, except) && Storable(e)
    requires !send && e.key in s.index ==> s.index[e.key].fid == except
    ensures Conserved(Put(s, e, send), except)
  {
    hide Books, Written, Wf, Put, Write, Where, Storable;
    ConservedOpenable(s, except);
    PutWf(s, e, send);
    WriteDead(s, e, except);
    SameLedger(s, e, send);
    if !Put(s, e, send).ledger.exited {
      PutBooks(s, e, send, except);
    }
  }

  lemma SameLedger(s: Store, e: Entry, send: bool)
    requires Openable(s) && Storable(e)
    ensures Put(s, e, send).ledger == Write(s, e).ledger
  {
    hide Write, Where, Send;
  }

  lemma PutBooks(s: Store, e: Entry, send: bool, except: nat)
    requires Wf(s) && Openable(s) && Books(s, except) && Storable(e) && Written(Write(s, e), Where(s, e), except)
    requires Write(s, e).index == s.index && Write(s, e).queue == s.queue && Write(s, e).active >= s.active
    requires !send && e.key in s.index ==> s.index[e.key].fid == except
    ensures Books(Put(s, e, send), except)
  {
    hide LiveBytes, Queued, Used, Size, HeaderSize, EntryCrc, Rolled, Write, Where, Counter, Sound, Clean;
    SentBelow(s, e.key);
    WhereSize(s, e);
    hide Wf, Send;
    var r := Put(s, e, send);
    forall f | f in r.files && f != except
      ensures Balanced(r, f)
    {
      PutDead(s, e, send, except, f);
    }
  }

  /** What is sent for a key goes to a file that has existed. */
  lemma SentBelow(s: Store, key: Bytes)
    requires Wf(s) && forall i :: 0 <= i < |s.queue| ==> s.queue[i].fid <= s.active
    ensures forall i :: 0 <= i < |Send(s.queue, s.index, key)| ==> Send(s.queue, s.index, key)[i].fid <= s.active
  {
    hide Used;
  }

  lemma PutDead(s: Store, e: Entry, send: bool, except: nat, f: nat)
    requires Openable(s) && Storable(e) && (!send && e.key in s.index ==> s.index[e.key].fid == except) && f != except
    requires Write(s, e).index == s.index && Write(s, e).queue == s.queue && f in Write(s, e).files
    ensures Dead(Put(s, e, send), f) == Dead(Write(s, e), f) - Share(Where(s, e), f)
  {
    hide LiveBytes, Queued, Used, Size, HeaderSize, EntryCrc, Rolled, Write, Where;
    LiveBytesPut(s.index, e.key, Where(s, e), f);
    SendQueued(s.queue, s.index, e.key, f);
  }

  lemma WhereSize(s: Store, e: Entry)
    requires Openable(s) && Storable(e)
    ensures Where(s, e).size == Size(e) > 0
  {
    hide Used, Rolled;
  }

  lemma RemoveConserved(s: Store, key: Bytes, except: nat)
    requires Conserved(s, except) && Storable(Tombstone(key))
    ensures Conserved(Remove(s, key), except)
  {
    hide Books, Written, Wf, Write, Where, Storable, Send;
    ConservedOpenable(s, except);
    RemoveWf(s, key);
    WriteDead(s, Tombstone(key), except);
    if !Remove(s, key).ledger.exited {
      RemoveBooks(s, key, except);
    }
  }

  lemma RemoveBooks(s: Store, key: Bytes, except: nat)
    requires Wf(s) && Openable(s) && Books(s, except) && Storable(Tombstone(key))
    requires var t := Tombstone(key);
             Written(Write(s, t), Where(s, t), except) && Write(s, t).index == s.index && Write(s, t).queue == s.queue && Write(s, t).active >= s.active
    ensures Books(Remove(s, key), except)
  {
    hide LiveBytes, Queued, Used, HeaderSize, EntryCrc, Rolled, Write, Counter, Where, Size, Sound, Clean;
    SentBelow(s, key);
    WhereActive(s, Tombstone(key));
    hide Wf, Send;
    var r := Remove(s, key);
    forall f | f in r.files && f != except
      ensures Balanced(r, f)
    {
      RemoveDead(s, key, f);
    }
  }

  lemma WhereActive(s: Store, e: Entry)
    requires Openable(s) && Storable(e)
    ensures Where(s, e).fid == Write(s, e).active
  {
    hide Used, Rolled, Size;
  }

  lemma RemoveDead(s: Store, key: Bytes, f: nat)
    requires Openable(s) && Storable(Tombstone(key)) && f in Write(s, Tombstone(key)).files
    requires Write(s, Tombstone(key)).index == s.index && Write(s, Tombstone(key)).queue == s.queue
    ensures var t := Tombstone(key); Dead(Remove(s, key), f) == Dead(Write(s, t), f) - Share(Where(s, t), f)
  {
    hide LiveBytes, Queued, Used, HeaderSize, EntryCrc, Rolled, Write, Where, Size;
    var t := Tombstone(key);
    WhereSize(s, t);
    LiveBytesPut(s.index, key, Where(s, t), f);
    SendQueued(s.queue, s.index, key, f);
    QueuedAppend(Send(s.queue, s.index, key), Discarded(Where(s, t).fid, Size(t)), f);
  }

  lemma {:induction false} PutPairsConserved(s: Store, args: seq<Bytes>)
    requires Conserved(s, 0) && |args| % 2 == 0 && PairsStorable(args)
    ensures Conserved(PutPairs(s, args), 0)
    decreases |args|
  {
    hide Conserved, Put, Storable;
    ConservedOpenable(s, 0);
    if |args| >= 2 {
      var e := Plain(args[0], args[1]);
      PutConserved(s, e, true, 0);
      PutPairsConserved(Put(s, e, true), args[2..]);
    }
  }

  lemma ExecuteConserved(s: Store, c: Command, now: int)
    requires Conserved(s, 0) && Writable(c, OldValue(s, c, now))
    ensures Conserved(Execute(s, c, now).0, 0)
  {
    hide Conserved, Put, Remove, PutPairs, Get, OldValue, Incremented, Storable, PairsStorable;
    ConservedOpenable(s, 0);
    var was := OldValue(s, c, now);
    match c
    case Set(k, v) => PutConserved(s, Plain(k, v), true, 0);
    case SetEX(k, v, t) => PutConserved(s, Expiring(k, v, t), true, 0);
    case SetNX(k, v) => PutConserved(s, Plain(k, v), true, 0);
    case MSet(args) => if |args| % 2 == 0 { PutPairsConserved(s, args); }
    case Append(k, v) => PutConserved(s, Plain(k, Appended(was, v)), true, 0);
    case Delete(k) => RemoveConserved(s, k, 0);
    case GetDel(k) => RemoveConserved(s, k, 0);
    case IncrBy(k, d) =>
      var i := Incremented(TextOf(was), d);
      if i.Counted? { PutConserved(s, Plain(k, i.text), true, 0); }
  }

  lemma DrainConserved(s: Store)
    requires Conserved(s, 0)
    ensures Conserved(Drain(s), 0)
  {
    hide LiveBytes, Used, Sound, Clean, Incr, Counter;
    var r := Drain(s);
    if s.queue != [] && !r.ledger.exited {
      var d := s.queue[0];
      IncrCounts(s.ledger, d.fid, d.size);
      forall f | f in r.files && f != 0
        ensures Balanced(r, f)
      {
        assert Balanced(s, f);
        assert Queued(s.queue, f) == (if d.fid == f then d.size else 0) + Queued(r.queue, f);
        ModAdd(Dead(s, f), d.size);
      }
    }
  }

  lemma ModAdd(a: int, b: int)
    ensures (a % U32 + b) % U32 == (a + b) % U32
  {
    var q := a / U32;
    assert a == q * U32 + a % U32;
    ModShift(a % U32 + b, q);
  }

  lemma {:induction false} MergeLoopConserved(s: Store, fid: nat, es: Entries, offset: nat, clock: nat -> int, i: nat)
    requires Conserved(s, fid)
    ensures Conserved(MergeLoop(s, fid, es, offset, clock, i), fid)
    decreases |es|
  {
    hide Conserved, Put, Size, HeaderSize, EntryCrc;
    ConservedOpenable(s, fid);
    if es != [] {
      if !MergeDrops(es[0], clock(i)) && PointsAt(s.index, es[0].key, fid, offset) {
        PutConserved(s, es[0], false, fid);
      }
      MergeLoopConserved(MergeOne(s, fid, offset, es[0], clock(i)), fid, es[1..], offset + Size(es[0]), clock, i + 1);
    }
  }

  lemma ConservedExcept(s: Store, fid: nat)
    requires Conserved(s, 0)
    ensures Conserved(s, fid)
  {
    hide Used, LiveBytes;
  }

  lemma DropFileConserved(s: Store, fid: nat)
    requires Conserved(s, fid) && fid != s.active
    ensures Conserved(DropFile(s, fid), 0)
  {
    hide Used, LiveBytes, Queued, Sound, Clean, Clear, Counter;
    var r := DropFile(s, fid);
    if !r.ledger.exited {
      ClearCounts(s.ledger, fid);
      forall f | f in r.files && f != 0
        ensures Balanced(r, f)
      {
        assert Balanced(s, f);
      }
    }
  }

  lemma MergeConserved(s: Store, fid: nat, ratio: real, clock: nat -> int)
    requires Conserved(s, 0)
    ensures Conserved(Merge(s, fid, ratio, clock), 0)
  {
    var s0 := EnsureActive(s);
    if s.active == 0 {
      NewFileConserved(s, 1, 0);
    }
    if Mergeable(s0, fid, ratio) {
      hide Used, LiveBytes, Queued, MergeLoop;
      var es := Readable(s0.files[fid]);
      ConservedExcept(s0, fid);
      MergeLoopConserved(s0, fid, es, 0, clock, 0);
      MergeLoopActive(s0, fid, es, 0, clock, 0);
      DropFileConserved(MergeLoop(s0, fid, es, 0, clock, 0), fid);
    }
  }

  lemma NextConserved(s: Store, ev: Event)
    requires Conserved(s, 0) && Allowed(s, ev) && !ev.Reopens?
    ensures Conserved(NextStore(s, ev), 0)
  {
    hide Books, Execute, Merge, Drain, Wf;
    match ev
    case Runs(c, now) => ExecuteConserved(s, c, now);
    case Drains => DrainConserved(s);
    case Merges(fid, ratio, clock) => MergeConserved(s, fid, ratio, clock);
  }

  /**
   Conservation. At every point of every session on a fresh database, for every existing file: bytes appended
   are the sizes of the index nodes pointing at it, plus its counter, plus what is queued for it, where the
   counter counts modulo 2^32.
   */
  lemma {:induction false} BytesConserved(ss: seq<Store>, evs: seq<Event>, maxSize: nat, i: nat)
    requires Trace(ss, evs, maxSize) && i < |ss| && forall j :: 0 <= j < i ==> !evs[j].Reopens?
    ensures Books(ss[i], 0) && Conserved(ss[i], 0)
    decreases i
  {
    hide Books, NextStore, Allowed, Wf;
    if i == 0 {
      EmptyConserved(maxSize);
    } else {
      BytesConserved(ss, evs, maxSize, i - 1);
      NextConserved(ss[i - 1], evs[i - 1]);
    }
  }

  lemma EmptyConserved(maxSize: nat)
    requires maxSize > 0
    ensures Conserved(Empty(maxSize), 0) && !Empty(maxSize).ledger.exited
  {
    hide Fresh, Sound, Clean;
    FreshSound();
  }

  /** In files below 4 GiB the counter never wraps, and the books balance exactly. */
  lemma CounterExact(s: Store, f: nat)
    requires Books(s, 0) && f in s.files && f != 0 && Used(s.files[f].entries) < U32
    ensures Used(s.files[f].entries) == LiveBytes(s.index, f) + Counter(s.ledger, f) + Queued(s.queue, f)
  {
    hide Used, LiveBytes, Queued, Size, EntryCrc, Sound, Clean, Counter;
    assert Balanced(s, f);
  }

  /** A counter equal to the bytes appended means that no index node points at the file: it can go. */
  lemma FullyDead(ss: seq<Store>, evs: seq<Event>, maxSize: nat, i: nat, f: nat, k: Bytes)
    requires Trace(ss, evs, maxSize) && i < |ss| && forall j :: 0 <= j < i ==> !evs[j].Reopens?
    requires f in ss[i].files && f != 0 && Used(ss[i].files[f].entries) < U32
    requires Counter(ss[i].ledger, f) == Used(ss[i].files[f].entries)
    requires k in ss[i].index
    ensures ss[i].index[k].fid != f
  {
    hide Used, LiveBytes, Queued, HeaderSize, EntryCrc, Sound, Clean, Counter, Wf, NextStore, Allowed;
    BytesConserved(ss, evs, maxSize, i);
    CounterExact(ss[i], f);
    LiveBytesSplit(ss[i].index, k, f);
  }
}
