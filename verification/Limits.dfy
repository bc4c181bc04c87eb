/** The histories on which the store does not keep what it seems to promise, one lemma each. */
module Limits {
  import opened Bytes
  import opened Varint
  import opened LogEntry
  import opened LogFile
  import opened Ledger
  import opened Reloading
  import opened Store
  import opened StoreLog
  import opened MergeSteps
  import opened Refinement
  import opened MergeReads
  import opened Recovery

  // --- the table behind small histories ---

  /** The file is registered, with this count. */
  predicate Entered(l: Ledger, f: nat, total: nat, d: nat) {
    f in l.location && At(l.records, l.location[f]) == Record(f, total, d)
  }

  /** Exactly the files 1 up to `n` are registered, and nothing was counted yet. */
  ghost predicate Opens(l: Ledger, n: nat, total: nat) {
    && Sound(l) && !l.exited && |l.location| == n && (forall f :: f in l.location <==> 1 <= f <= n) && Clean(l)
    && forall f :: 1 <= f <= n ==> Entered(l, f, total, 0)
  }

  lemma FreshOpens(total: nat)
    ensures Opens(Fresh(), 0, total)
  {
    hide Fresh, Sound, Clean;
    FreshSound();
  }

  lemma NextOpens(l: Ledger, n: nat, total: nat)
    requires Opens(l, n, total) && n < SLOTS && total > 0
    ensures Opens(SetTotal(l, n + 1, total), n + 1, total)
  {
    hide Clean, Counter, Sound;
    var r := SetTotal(l, n + 1, total);
    StillFree(l);
    SetTotalSound(l, n + 1, total);
    OneMore(l.location, n + 1, r.location[n + 1]);
    LeftoverZero(l);
    forall f | 1 <= f <= n + 1
      ensures Entered(r, f, total, 0)
    {
      if f <= n {
        assert Entered(l, f, total, 0);
        OwnSlots(r, f, n + 1);
      } else {
        RegisteredRecord(l, f, total);
      }
    }
  }

  lemma StillFree(l: Ledger)
    requires Sound(l) && |l.location| < SLOTS
    ensures l.free != []
  {
  }

  lemma LeftoverZero(l: Ledger)
    requires Clean(l)
    ensures Leftover(l) == 0
  {
  }

  lemma RegisteredRecord(l: Ledger, f: nat, total: nat)
    requires f != 0 && total != 0 && f !in l.location && l.free != []
    ensures Entered(SetTotal(l, f, total), f, total, Leftover(l))
  {
  }

  /** Counting a registered file. */
  lemma CountEntered(l: Ledger, f: nat, total: nat, d: nat, delta: nat)
    requires Entered(l, f, total, d) && delta > 0
    ensures var r := Incr(l, f, delta); Entered(r, f, total, (d + delta) % U32) && r.exited == l.exited
  {
  }

  lemma CountElsewhere(l: Ledger, f: nat, total: nat, d: nat, g: nat, delta: nat)
    requires Sound(l) && Entered(l, f, total, d) && g in l.location && f != g
    ensures Entered(Incr(l, g, delta), f, total, d)
  {
    OwnSlots(l, f, g);
  }

  lemma EnteredCandidate(l: Ledger, f: nat, total: nat, d: nat, active: nat, ratio: real)
    requires Sound(l) && Entered(l, f, total, d) && f != 0 && f != active && total > 0 && d as real / total as real > ratio
    ensures Candidate(l, f, active, ratio)
  {
    CandidateIff(l, f, active, ratio);
  }

  lemma UsedOne(e: Entry)
    requires Storable(e)
    ensures Used([]) == 0 && Used([e]) == Size(e) && EntryAt([e], 0) == Some(e)
  {
    hide Size, EntryCrc;
  }

  /** With a maximum size of one byte every write starts a file of its own. */
  lemma OwnFile(s: Store, e: Entry)
    requires Wf(s) && s.maxSize == 1 && s.active > 0 && Storable(e)
    ensures Where(s, e) == Node(s.active + 1, 0, Size(e), e.expiredAt)
    ensures Write(s, e).files == s.files[s.active + 1 := File([e], Size(e))]
    ensures Write(s, e).active == s.active + 1 && Write(s, e).maxSize == 1
    ensures Write(s, e).ledger == SetTotal(s.ledger, s.active + 1, 1)
  {
    hide EntryCrc, HeaderSize, SetTotal;
    UsedOne(e);
    assert [] + [e] == [e];
  }

  lemma FirstFile()
    ensures Wf(WithFile(Empty(1), 1)) && EnsureActive(Empty(1)) == WithFile(Empty(1), 1) && Opens(WithFile(Empty(1), 1).ledger, 1, 1)
  {
    hide Opens, SetTotal, Fresh;
    NewFile(Empty(1), 1);
    FreshOpens(1);
    NextOpens(Fresh(), 0, 1);
  }

  /** An entry shorter than a full header that ends exactly at the end of its file cannot be read back. */
  lemma ShortEntryAtEnd(k: Bytes, v: Bytes, now: int)
    requires Storable(Plain(k, v)) && Size(Plain(k, v)) < MAX_HEADER_SIZE
    ensures var s := Execute(Empty(Size(Plain(k, v))), Set(k, v), now).0;
            Get(s, k, now) == ReadError && Lookup(Apply(map[], Set(k, v), now).0, k, now) == Some(v)
  {
    hide EntryCrc, HeaderSize, SetTotal;
    UsedOne(Plain(k, v));
  }

  function OwnFiles(a: Entry, t: Entry, b: Entry): Files
    requires Storable(a) && Storable(t) && Storable(b)
  {
    map[1 := File([], 1), 2 := File([a], Size(a)), 3 := File([t], Size(t)), 4 := File([b], Size(b))]
  }

  /** Setting `k` on a fresh database of maximum size 1: file 2 holds the entry. */
  function AfterSet(k: Bytes, v: Bytes): Store
    requires Storable(Plain(k, v))
  {
    Put(WithFile(Empty(1), 1), Plain(k, v), true)
  }

  /** Then deleting it: file 3 holds the tombstone. */
  function AfterDelete(k: Bytes, v: Bytes): Store
    requires Storable(Plain(k, v)) && Storable(Tombstone(k))
  {
    Remove(AfterSet(k, v), k)
  }

  /** Then setting `j`: file 4 holds it, and file 3 is archived. */
  function AfterSetOther(k: Bytes, v: Bytes, j: Bytes, w: Bytes): Store
    requires Storable(Plain(k, v)) && Storable(Tombstone(k)) && Storable(Plain(j, w))
  {
    Put(AfterDelete(k, v), Plain(j, w), true)
  }

  lemma AfterSetState(k: Bytes, v: Bytes)
    requires Storable(Plain(k, v))
    ensures var s := AfterSet(k, v);
            && Wf(s) && s.active == 2 && s.maxSize == 1 && s.queue == []
            && s.files == map[1 := File([], 1), 2 := File([Plain(k, v)], Size(Plain(k, v)))]
            && s.index == map[k := Node(2, 0, Size(Plain(k, v)), 0)]
            && Opens(s.ledger, 2, 1)
  {
    hide Write, Where, Size, HeaderSize, EntryCrc, Storable, Wf, Opens, SetTotal, Fresh;
    var s0 := WithFile(Empty(1), 1);
    FirstFile();
    NextOpens(s0.ledger, 1, 1);
    OwnFile(s0, Plain(k, v));
    PutWf(s0, Plain(k, v), true);
  }

  lemma AfterDeleteState(k: Bytes, v: Bytes)
    requires Storable(Plain(k, v)) && Storable(Tombstone(k))
    ensures var s, n, t := AfterDelete(k, v), Size(Plain(k, v)), Tombstone(k);
            && Wf(s) && s.active == 3 && s.maxSize == 1 && s.index == map[]
            && s.files == map[1 := File([], 1), 2 := File([Plain(k, v)], n), 3 := File([t], Size(t))]
            && s.queue == [Discarded(2, n), Discarded(3, Size(t))]
            && Opens(s.ledger, 3, 1)
  {
    hide Write, Where, Size, HeaderSize, EntryCrc, Storable, AfterSet, Opens, SetTotal;
    AfterSetState(k, v);
    NextOpens(AfterSet(k, v).ledger, 2, 1);
    OwnFile(AfterSet(k, v), Tombstone(k));
    RemoveWf(AfterSet(k, v), k);
  }

  lemma AfterSetOtherState(k: Bytes, v: Bytes, j: Bytes, w: Bytes)
    requires Storable(Plain(k, v)) && Storable(Tombstone(k)) && Storable(Plain(j, w))
    ensures var s, t, b := AfterSetOther(k, v, j, w), Tombstone(k), Plain(j, w);
            && Wf(s) && s.active == 4 && s.maxSize == 1
            && s.files == OwnFiles(Plain(k, v), t, b)
            && s.index == map[j := Node(4, 0, Size(b), 0)]
            && s.queue == [Discarded(2, Size(Plain(k, v))), Discarded(3, Size(t))]
            && Opens(s.ledger, 4, 1)
  {
    hide Write, Where, Size, HeaderSize, EntryCrc, Storable, AfterDelete, Opens, SetTotal;
    AfterDeleteState(k, v);
    NextOpens(AfterDelete(k, v).ledger, 3, 1);
    OwnFile(AfterDelete(k, v), Plain(j, w));
    PutWf(AfterDelete(k, v), Plain(j, w), true);
  }

  /** Both queued sizes have reached the counters. */
  function Settled(k: Bytes, v: Bytes, j: Bytes, w: Bytes): Store
    requires Storable(Plain(k, v)) && Storable(Tombstone(k)) && Storable(Plain(j, w))
  {
    Drain(Drain(AfterSetOther(k, v, j, w)))
  }

  /**
   Merging a file that is not the oldest can bring a deleted key back: here file 3, whose only entry
   is the tombstone of `k`. Before and after the merge `k` is gone; after a restart it is there again.
   */
  lemma DeletedKeyReturns(k: Bytes, v: Bytes, j: Bytes, w: Bytes, clock: nat -> int, now: int)
    requires Storable(Plain(k, v)) && Storable(Tombstone(k)) && Storable(Plain(j, w)) && j != k
    requires Size(Plain(k, v)) >= MAX_HEADER_SIZE && Size(Plain(j, w)) >= MAX_HEADER_SIZE
    requires MAX_HEADER_SIZE <= Size(Tombstone(k)) < U32
    ensures var s := Settled(k, v, j, w);
            var r := Merge(s, 3, 0.5, clock);
            && Mergeable(s, 3, 0.5) && AllRoomed(s) && AllRoomed(r)
            && Get(s, k, now) == KeyNotFound && Get(r, k, now) == KeyNotFound
            && Get(Reopen(r), k, now) == Found(v)
  {
    hide Size, HeaderSize, EntryCrc, Settled, Merge, Reopen, AllRoomed, EntryAt, Rebuilt, Mergeable;
    var s, a := Settled(k, v, j, w), Plain(k, v);
    SettledState(k, v, j, w);
    MergeOnlyTombstone(s, 3, Tombstone(k), clock);
    var r := Merge(s, 3, 0.5, clock);
    DropKeepsRoom(s, 3);
    RebuiltWithoutTombstone(r, k, v, j, w);
    RoomedReopen(r);
    UsedOne(a);
    assert Fetch(Reopen(r), Node(2, 0, Size(a), 0)) == Some(a);
  }

  lemma SettledState(k: Bytes, v: Bytes, j: Bytes, w: Bytes)
    requires Storable(Plain(k, v)) && Storable(Tombstone(k)) && Storable(Plain(j, w))
    requires Size(Plain(k, v)) >= MAX_HEADER_SIZE && Size(Plain(j, w)) >= MAX_HEADER_SIZE
    requires MAX_HEADER_SIZE <= Size(Tombstone(k)) < U32
    ensures var s, t, b := Settled(k, v, j, w), Tombstone(k), Plain(j, w);
            && Opened(s) && s.active == 4 && s.index == map[j := Node(4, 0, Size(b), 0)]
            && s.files == OwnFiles(Plain(k, v), t, b)
            && Mergeable(s, 3, 0.5) && AllRoomed(s)
  {
    hide Size, HeaderSize, EntryCrc, AfterSetOther, Roomed, Candidate, Incr, Sound, Clean;
    AfterSetOtherState(k, v, j, w);
    OneEntryRoomed(Plain(k, v));
    OneEntryRoomed(Tombstone(k));
    OneEntryRoomed(Plain(j, w));
    var l, a, t := AfterSetOther(k, v, j, w).ledger, Size(Plain(k, v)), Size(Tombstone(k));
    assert Entered(l, 3, 1, 0);
    CountElsewhere(l, 3, 1, 0, 2, a);
    IncrSound(l, 2, a);
    CountEntered(Incr(l, 2, a), 3, 1, 0, t);
    IncrSound(Incr(l, 2, a), 3, t);
    EnteredCandidate(Incr(Incr(l, 2, a), 3, t), 3, 1, t, 4, 0.5);
  }

  lemma DropKeepsRoom(s: Store, fid: nat)
    requires AllRoomed(s)
    ensures AllRoomed(DropFile(s, fid))
  {
  }

  lemma MergeOnlyTombstone(s: Store, fid: nat, t: Entry, clock: nat -> int)
    requires Opened(s) && Mergeable(s, fid, 0.5) && Storable(t) && t.stat == S_DELETE && Size(t) >= MAX_HEADER_SIZE
    requires s.files[fid] == File([t], Size(t))
    ensures Merge(s, fid, 0.5, clock) == DropFile(s, fid)
  {
    hide Size, EntryCrc;
    OneEntryRoomed(t);
    assert [t][1..] == [];
    assert MergeLoop(s, fid, [t], 0, clock, 0) == s;
  }

  lemma OneEntryRoomed(e: Entry)
    requires Storable(e) && Size(e) >= MAX_HEADER_SIZE
    ensures Roomed([e], 0, Size(e)) && RoomedPrefix([e], 0, Size(e)) == [e] && Roomed([], 0, 1)
  {
    hide Size, EntryCrc;
    assert [e][1..] == [];
  }

  lemma RebuiltWithoutTombstone(r: Store, k: Bytes, v: Bytes, j: Bytes, w: Bytes)
    requires Storable(Plain(k, v)) && Storable(Plain(j, w)) && j != k && r.active == 4
    requires Storable(Tombstone(k)) && r.files == OwnFiles(Plain(k, v), Tombstone(k), Plain(j, w)) - {3}
    ensures k in Rebuilt(r) && Rebuilt(r)[k] == Node(2, 0, Size(Plain(k, v)), 0)
  {
    hide Size, HeaderSize, EntryCrc, Storable, Log, Recs;
    LogWithoutTombstone(r.files, Plain(k, v), Tombstone(k), Plain(j, w));
    TwoReplayed(Rec(2, 0, Plain(k, v)), Rec(4, 0, Plain(j, w)));
  }

  lemma LogWithoutTombstone(files: Files, a: Entry, t: Entry, b: Entry)
    requires Storable(a) && Storable(t) && Storable(b) && files == OwnFiles(a, t, b) - {3}
    ensures Log(files, 4) == [Rec(2, 0, a), Rec(4, 0, b)]
  {
    hide Size, Storable, Recs;
    OneRec(2, a);
    OneRec(4, b);
    NoRec(1);
    assert Log(files, 0) == [];
    assert Log(files, 1) == [];
    assert Log(files, 2) == Log(files, 3) == [Rec(2, 0, a)];
  }

  lemma TwoReplayed(x: Rec, y: Rec)
    requires RecsStorable([x, y]) && x.entry.stat != S_DELETE && y.entry.stat != S_DELETE && x.entry.key != y.entry.key
    ensures var index := Replay(map[], [x, y]);
            Storable(x.entry) && x.entry.key in index && index[x.entry.key] == Node(x.fid, x.offset, Size(x.entry), 0)
  {
    hide Size, Storable;
    assert [x, y][0] == x && [x, y][1] == y && [x, y][1..] == [y];
    var index: Index := Replay1(map[], x);
    assert Replay(map[], [x, y]) == Replay(index, [y]) == Replay1(index, y);
  }

  lemma NoRec(fid: nat)
    ensures Recs(fid, [], 0) == []
  {
  }

  lemma OneRec(fid: nat, e: Entry)
    requires Storable(e)
    ensures Recs(fid, [e], 0) == [Rec(fid, 0, e)]
  {
    hide Size, EntryCrc;
    assert [e][1..] == [];
  }

  // --- two entries in one file, one of them replaced ---

  /** `a` and `b` in a database of this maximum size, which holds both in file 1. */
  function Together(maxSize: nat, a: Entry, b: Entry): Store
    requires Storable(a) && Storable(b)
  {
    Put(Put(Empty(maxSize), a, true), b, true)
  }

  /** Then `c`, which replaces `a` and starts file 2, so that the size of `a` goes to the counter of file 1. */
  function Replaced(maxSize: nat, a: Entry, b: Entry, c: Entry): Store
    requires Storable(a) && Storable(b) && Storable(c)
  {
    Drain(Put(Together(maxSize, a, b), c, true))
  }

  /** The sizes make it so. */
  predicate Arranged(maxSize: nat, a: Entry, b: Entry, c: Entry) {
    && Storable(a) && Storable(b) && Storable(c) && a.key == c.key != b.key && a.stat != S_DELETE && b.stat != S_DELETE && c.stat != S_DELETE
    && Size(a) + Size(b) <= maxSize < Size(a) + Size(b) + Size(c) && Size(c) <= maxSize < U32
  }

  lemma EmptyWf(maxSize: nat)
    requires maxSize > 0
    ensures Wf(Empty(maxSize)) && Durable(Empty(maxSize))
  {
    assert Live(Empty(maxSize)) == map[];
  }

  lemma TogetherState(maxSize: nat, a: Entry, b: Entry, c: Entry)
    requires Arranged(maxSize, a, b, c)
    ensures var s := Together(maxSize, a, b);
            && Wf(s) && Durable(s) && s.active == 1 && s.files == map[1 := File([a, b], maxSize)] && s.queue == []
            && s.index == map[a.key := Node(1, 0, Size(a), a.expiredAt), b.key := Node(1, Size(a), Size(b), b.expiredAt)]
            && s.ledger == SetTotal(Fresh(), 1, maxSize) && s.maxSize == maxSize
  {
    hide Size, HeaderSize, EntryCrc, SetTotal, Used, Wf, Durable, Fresh;
    var s0 := Empty(maxSize);
    SomeSize(a);
    EmptyWf(maxSize);
    PutWf(s0, a, true);
    PutDurable(s0, a, true);
    PutWf(Put(s0, a, true), b, true);
    PutDurable(Put(s0, a, true), b, true);
    UsedOne(a);
    UsedAppend([a], b);
    assert [] + [a] == [a] && [a] + [b] == [a, b];
  }

  ghost predicate IsReplaced(s: Store, maxSize: nat, a: Entry, b: Entry, c: Entry)
    requires Arranged(maxSize, a, b, c)
  {
    && Wf(s) && Opened(s) && Durable(s) && s.active == 2 && s.queue == [] && s.maxSize == maxSize
    && s.files == map[1 := File([a, b], maxSize), 2 := File([c], maxSize)]
    && s.index == map[c.key := Node(2, 0, Size(c), c.expiredAt), b.key := Node(1, Size(a), Size(b), b.expiredAt)]
    && Sound(s.ledger) && Entered(s.ledger, 1, maxSize, Size(a))
  }

  lemma ReplacedState(maxSize: nat, a: Entry, b: Entry, c: Entry)
    requires Arranged(maxSize, a, b, c)
    ensures IsReplaced(Replaced(maxSize, a, b, c), maxSize, a, b, c)
  {
    hide Size, HeaderSize, EntryCrc, SetTotal, Together, Used, Wf, Durable, Fresh, Incr, Opens, Sound, Entered, Put;
    TogetherState(maxSize, a, b, c);
    var s := Together(maxSize, a, b);
    SomeSize(a);
    ThirdPut(s, maxSize, a, b, c);
    PutWf(s, c, true);
    PutDurable(s, c, true);
    DrainDurable(Put(s, c, true), c.key);
    ReplacedLedger(maxSize, Size(a));
  }

  lemma ThirdPut(s: Store, maxSize: nat, a: Entry, b: Entry, c: Entry)
    requires Arranged(maxSize, a, b, c) && s.active == 1 && s.files == map[1 := File([a, b], maxSize)] && s.queue == [] && s.maxSize == maxSize
    requires s.index == map[a.key := Node(1, 0, Size(a), a.expiredAt), b.key := Node(1, Size(a), Size(b), b.expiredAt)] && Size(a) > 0
    ensures var r := Put(s, c, true);
            && r.active == 2 && r.maxSize == maxSize && r.queue == [Discarded(1, Size(a))]
            && r.files == map[1 := File([a, b], maxSize), 2 := File([c], maxSize)]
            && r.index == map[c.key := Node(2, 0, Size(c), c.expiredAt), b.key := Node(1, Size(a), Size(b), b.expiredAt)]
            && r.ledger == SetTotal(s.ledger, 2, maxSize)
  {
    hide Size, HeaderSize, EntryCrc, SetTotal, Used, Rolled;
    ThirdRolls(s, maxSize, a, b, c);
    UsedOne(c);
    assert [] + [c] == [c];
  }

  lemma ThirdRolls(s: Store, maxSize: nat, a: Entry, b: Entry, c: Entry)
    requires Arranged(maxSize, a, b, c) && s.active == 1 && s.files == map[1 := File([a, b], maxSize)] && s.maxSize == maxSize
    ensures Rolled(s, c) == WithFile(s, 2)
  {
    hide Size, HeaderSize, EntryCrc, SetTotal, Used;
    UsedOne(a);
    UsedAppend([a], b);
    assert [a] + [b] == [a, b];
  }

  lemma ReplacedLedger(maxSize: nat, size: nat)
    requires 0 < size <= maxSize < U32
    ensures var l := Incr(SetTotal(SetTotal(Fresh(), 1, maxSize), 2, maxSize), 1, size); Sound(l) && Entered(l, 1, maxSize, size)
  {
    hide Fresh, Sound, Clean, SetTotal;
    FreshOpens(maxSize);
    NextOpens(Fresh(), 0, maxSize);
    var a := SetTotal(Fresh(), 1, maxSize);
    NextOpens(a, 1, maxSize);
    var b := SetTotal(a, 2, maxSize);
    CountEntered(b, 1, maxSize, 0, size);
    IncrSound(b, 1, size);
  }

  lemma Candidate1(maxSize: nat, a: Entry, b: Entry, c: Entry)
    requires Arranged(maxSize, a, b, c)
    ensures Mergeable(Replaced(maxSize, a, b, c), 1, 0.0)
  {
    hide Size, Replaced, Candidate, Sound;
    ReplacedState(maxSize, a, b, c);
    SomeSize(a);
    EnteredCandidate(Replaced(maxSize, a, b, c).ledger, 1, maxSize, Size(a), 2, 0.0);
  }

  lemma TwoEntries(a: Entry, b: Entry, maxSize: nat)
    requires Storable(a) && Storable(b) && Size(a) + MAX_HEADER_SIZE <= maxSize
    ensures EntryAt([a, b], Size(a)) == Some(b) && RoomedPrefix([a, b], 0, maxSize) == [a, b] && Roomed([a, b], 0, maxSize)
  {
    hide HeaderSize, EntryCrc;
    assert [a, b][1..] == [b] && [b][1..] == [];
    assert RoomedPrefix([b], Size(a), maxSize) == [b] && Roomed([b], Size(a), maxSize);
  }

  // --- the second at which an entry expires ---

  /**
   At the very second an entry expires a read still finds it, but a merge in that second drops it, and the
   read then fails on the missing file. This is why merges are compared with later reads only.
   */
  lemma ExpiringEntryDropped(maxSize: nat, a: Entry, b: Entry, c: Entry, clock: nat -> int, now: int64)
    requires Arranged(maxSize, a, b, c) && Size(a) + MAX_HEADER_SIZE <= maxSize
    requires b.expiredAt == now != 0 && clock(1) == now
    ensures var s := Replaced(maxSize, a, b, c);
            var r := Merge(s, 1, 0.0, clock);
            Mergeable(s, 1, 0.0) && Get(s, b.key, now) == Found(b.value) && Get(r, b.key, now) == LogFileNotExist
  {
    hide Size, HeaderSize, EntryCrc, Replaced, Mergeable, Durable, Clear;
    ReplacedState(maxSize, a, b, c);
    Candidate1(maxSize, a, b, c);
    TwoEntries(a, b, maxSize);
    MergeOnlyExpired(Replaced(maxSize, a, b, c), maxSize, a, b, clock);
  }

  lemma MergeOnlyExpired(s: Store, maxSize: nat, a: Entry, b: Entry, clock: nat -> int)
    requires Storable(a) && Storable(b) && Size(a) + MAX_HEADER_SIZE <= maxSize
    requires Opened(s) && Mergeable(s, 1, 0.0) && s.files[1] == File([a, b], maxSize)
    requires !PointsAt(s.index, a.key, 1, 0) && MergeDrops(b, clock(1))
    ensures Merge(s, 1, 0.0, clock) == DropFile(s, 1)
  {
    hide Size, EntryCrc, Candidate;
    TwoEntries(a, b, maxSize);
    assert [a, b][1..] == [b] && [b][1..] == [];
    assert MergeLoop(s, 1, [b], Size(a), clock, 1) == s;
    assert MergeLoop(s, 1, [a, b], 0, clock, 0) == s;
  }

  // --- a merge after a restart ---

  /**
   A restart loses the expiry in the index. If the expired key is then merged away, every later read of it fails on the
   missing file, where before the restart it was a plain miss; SetNX reports that failure instead of setting the key.
   */
  lemma ExpiryForgotten(maxSize: nat, a: Entry, b: Entry, c: Entry, clock: nat -> int, now: int, v: Bytes)
    requires Arranged(maxSize, a, b, c) && Size(a) + MAX_HEADER_SIZE <= maxSize && MAX_HEADER_SIZE <= maxSize
    requires 0 != b.expiredAt <= clock(1) && clock(1) < now && Storable(Plain(b.key, v))
    ensures var s := Reopen(Replaced(maxSize, a, b, c));
            && Openable(s) && Mergeable(s, 1, 0.0)
            && Get(Merge(Replaced(maxSize, a, b, c), 1, 0.0, clock), b.key, now) == KeyNotFound
            && var r := Merge(s, 1, 0.0, clock);
            && Openable(r) && Execute(r, SetNX(b.key, v), now) == (r, Failed(LogFileNotExist))
  {
    hide Size, HeaderSize, EntryCrc, Replaced, Mergeable, Reopen, Clear, Rebuilt, Sound, Durable, Used, RoomedPrefix, EntryAt, Wf, Merge;
    var t := Replaced(maxSize, a, b, c);
    ReplacedState(maxSize, a, b, c);
    Candidate1(maxSize, a, b, c);
    TwoEntries(a, b, maxSize);
    MergeOnlyExpired(t, maxSize, a, b, clock);
    ReplacedReopened(maxSize, a, b, c);
    MergeOnlyExpired(Reopen(t), maxSize, a, b, clock);
  }

  lemma ReplacedReopened(maxSize: nat, a: Entry, b: Entry, c: Entry)
    requires Arranged(maxSize, a, b, c) && Size(a) + MAX_HEADER_SIZE <= maxSize && MAX_HEADER_SIZE <= maxSize
    ensures var t := Replaced(maxSize, a, b, c);
            && Reopen(t).files == t.files && Reopen(t).active == 2 && Opened(Reopen(t)) && Mergeable(Reopen(t), 1, 0.0)
            && Reopen(t).index == map[c.key := Node(2, 0, Size(c), 0), b.key := Node(1, Size(a), Size(b), 0)]
  {
    hide Size, HeaderSize, EntryCrc, Replaced, Rebuilt, Roomed, Candidate, Reload, Drained, Sound, RoomedPrefix, Used, EntryAt;
    var t := Replaced(maxSize, a, b, c);
    ReplacedState(maxSize, a, b, c);
    Candidate1(maxSize, a, b, c);
    TwoEntries(a, b, maxSize);
    AloneRoomed(c, maxSize);
    assert AllRoomed(t);
    RoomedReopen(t);
    assert Live(t) == map[c.key := Node(2, 0, Size(c), 0), b.key := Node(1, Size(a), Size(b), 0)];
    assert Reopen(t).ledger.records == t.ledger.records by { NothingDrained(t); }
    assert Candidate(Reopen(t).ledger, 1, 2, 0.0) by { SameCandidates(t.ledger, Reopen(t).ledger, 1, 2, 0.0); }
  }

  lemma NothingDrained(s: Store)
    requires s.queue == []
    ensures Reopen(s).ledger.records == s.ledger.records
  {
    hide Scanned, Rebuilt;
  }

  lemma SameCandidates(l: Ledger, r: Ledger, f: nat, active: nat, ratio: real)
    requires l.records == r.records && Candidate(l, f, active, ratio)
    ensures Candidate(r, f, active, ratio)
  {
  }

  lemma AloneRoomed(e: Entry, maxSize: nat)
    requires Storable(e) && MAX_HEADER_SIZE <= maxSize
    ensures Roomed([e], 0, maxSize)
  {
    hide Size;
    assert [e][1..] == [];
  }

  // --- room ---

  /** A short entry that can be read can lose its room when a merge rewrites it to the end of the active file. */
  lemma RoomLost(maxSize: nat, a: Entry, b: Entry, c: Entry, clock: nat -> int, now: int)
    requires Arranged(maxSize, a, b, c) && Size(a) + MAX_HEADER_SIZE <= maxSize
    requires b.expiredAt == 0 && Size(b) < MAX_HEADER_SIZE && maxSize == Size(c) + Size(b)
    ensures var s := Replaced(maxSize, a, b, c);
            && Mergeable(s, 1, 0.0) && Get(s, b.key, now) == Found(b.value) && Openable(s)
            && Get(Merge(s, 1, 0.0, clock), b.key, now) != Found(b.value)
  {
    hide Size, HeaderSize, EntryCrc, Replaced, Mergeable, Merge, Durable, Refines;
    var s := Replaced(maxSize, a, b, c);
    ReplacedState(maxSize, a, b, c);
    Candidate1(maxSize, a, b, c);
    TwoEntries(a, b, maxSize);
    ReplacedRefines(maxSize, a, b, c);
    MergeKeepsRead(s, ReplacedContents(b, c), 0, 1, 0.0, clock, b.key, b.value, now);
    UsedOne(c);
    LandsAtEnd(s, maxSize, a, b, c, clock);
  }

  lemma LandsAtEnd(s: Store, maxSize: nat, a: Entry, b: Entry, c: Entry, clock: nat -> int)
    requires Storable(a) && Storable(b) && Storable(c) && a.key != b.key && Size(a) + MAX_HEADER_SIZE <= maxSize
    requires Opened(s) && s.active == 2 && s.maxSize == maxSize == Size(c) + Size(b) && Size(b) < MAX_HEADER_SIZE
    requires s.files == map[1 := File([a, b], maxSize), 2 := File([c], maxSize)]
    requires !PointsAt(s.index, a.key, 1, 0) && PointsAt(s.index, b.key, 1, Size(a)) && Used([c]) == Size(c)
    ensures !RewrittenWithRoom(s, 1, clock, b.key)
  {
    hide Size, HeaderSize, EntryCrc, Used, Rewrites;
    TwoEntries(a, b, maxSize);
    assert [a, b][1..] == [b] && [b][1..] == [];
    if Rewrites(s.index, 1, [a, b], 0, clock, 0, b.key) {
      RewritesCons(s.index, 1, [a, b], 0, clock, 0, b.key);
      RewritesCons(s.index, 1, [b], Size(a), clock, 1, b.key);
      RewritesNothing(s.index, 1, Size(a) + Size(b), clock, 2);
      assert Landing(s.index, End(s), maxSize, 1, [b], Size(a), clock, 1, b.key) == Place(Size(c), maxSize);
    }
  }

  function ReplacedContents(b: Entry, c: Entry): Contents {
    map[c.key := Cell(c.value, c.expiredAt), b.key := Cell(b.value, b.expiredAt)]
  }

  lemma ReplacedRefines(maxSize: nat, a: Entry, b: Entry, c: Entry)
    requires Arranged(maxSize, a, b, c)
    ensures Refines(Replaced(maxSize, a, b, c), ReplacedContents(b, c), 0)
  {
    hide Size, HeaderSize, EntryCrc, Replaced, Durable, Used;
    ReplacedState(maxSize, a, b, c);
    UsedOne(c);
    PairEntryAt(a, b);
  }

  lemma PairEntryAt(a: Entry, b: Entry)
    requires Storable(a) && Storable(b)
    ensures EntryAt([a, b], Size(a)) == Some(b)
  {
    hide HeaderSize, EntryCrc;
    assert [a, b][1..] == [b];
  }

  /** A tombstone without room is lost at a restart, and the key it deleted is back. */
  lemma TombstoneUnread(k: Bytes, v: Bytes, now: int)
    requires Storable(Plain(k, v)) && Storable(Tombstone(k)) && Size(Tombstone(k)) < MAX_HEADER_SIZE
    requires MAX_HEADER_SIZE <= Size(Plain(k, v)) + Size(Tombstone(k))
    ensures var s := Remove(Put(Empty(Size(Plain(k, v)) + Size(Tombstone(k))), Plain(k, v), true), k);
            Get(s, k, now) == KeyNotFound && Get(Reopen(s), k, now) == Found(v)
  {
    hide Size, HeaderSize, EntryCrc, Reopen, Put, Remove;
    var e, t := Plain(k, v), Tombstone(k);
    var n := Size(e) + Size(t);
    SetThenDeleted(k, v, n);
    UnreadReopened(Remove(Put(Empty(n), e, true), k), e, t, n);
  }

  lemma SetThenDeleted(k: Bytes, v: Bytes, n: nat)
    requires Storable(Plain(k, v)) && Storable(Tombstone(k)) && n == Size(Plain(k, v)) + Size(Tombstone(k))
    ensures var s := Remove(Put(Empty(n), Plain(k, v), true), k);
            s.files == map[1 := File([Plain(k, v), Tombstone(k)], n)] && s.active == 1 && k !in s.index
  {
    hide Size, HeaderSize, EntryCrc, SetTotal, Fresh, Used, Storable, Put;
    var e, t := Plain(k, v), Tombstone(k);
    FirstPut(e, n);
    UsedOne(e);
    UsedAppend([e], t);
    assert [e] + [t] == [e, t];
  }

  lemma FirstPut(e: Entry, n: nat)
    requires Storable(e) && Size(e) <= n
    ensures var p := Put(Empty(n), e, true); p.files == map[1 := File([e], n)] && p.active == 1 && p.maxSize == n
  {
    hide Size, HeaderSize, EntryCrc, SetTotal, Fresh, Storable;
    UsedOne(e);
    assert [] + [e] == [e];
  }

  lemma UnreadReopened(s: Store, e: Entry, t: Entry, n: nat)
    requires Storable(e) && Storable(t) && e.stat != S_DELETE && e.expiredAt == 0
    requires s.files == map[1 := File([e, t], n)] && s.active == 1 && n == Size(e) + Size(t) && MAX_HEADER_SIZE <= n && Size(t) < MAX_HEADER_SIZE
    ensures forall now :: Get(Reopen(s), e.key, now) == Found(e.value)
  {
    hide Size, HeaderSize, EntryCrc, Used;
    ReopenState(s);
    var r := s.(files := ReadableFiles(s.files));
    assert r.files == map[1 := File([e], n)] by {
      assert [e, t][1..] == [t];
      assert RoomedPrefix([t], Size(e), n) == [];
      assert RoomedPrefix([e, t], 0, n) == [e];
    }
    OneRebuilt(r, e, n);
    UsedOne(e);
  }

  /** Replaying a single file that holds a single entry. */
  lemma OneRebuilt(s: Store, e: Entry, n: nat)
    requires Storable(e) && e.stat != S_DELETE && s.files == map[1 := File([e], n)] && s.active == 1
    ensures Rebuilt(s) == map[e.key := Node(1, 0, Size(e), 0)]
  {
    hide Size, HeaderSize, EntryCrc;
    OneRec(1, e);
    var rec := Rec(1, 0, e);
    assert Log(s.files, 0) == [] && Log(s.files, 1) == [rec];
    assert [rec][1..] == [];
    calc {
      Rebuilt(s);
      Replay(map[], [rec]);
      Replay(Replay1(map[], rec), []);
      Replay1(map[], rec);
      map[e.key := Node(1, 0, Size(e), 0)];
    }
  }
}
