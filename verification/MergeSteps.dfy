/** What the loop of Merge does to the index, key by key. */
module MergeSteps {
  import opened Bytes
  import opened LogEntry
  import opened LogFile
  import opened Store
  import opened StoreLog

  /** The loop rewrites the key: the index points at one of the entries, and its time is not up when it is reached. */
  predicate Rewrites(index: Index, fid: nat, es: Entries, offset: nat, clock: nat -> int, i: nat, k: Bytes)
    decreases |es|
  {
    es != []
    && ((es[0].key == k && PointsAt(index, k, fid, offset) && !MergeDrops(es[0], clock(i)))
        || Rewrites(index, fid, es[1..], offset + Size(es[0]), clock, i + 1, k))
  }

  lemma RewritesNothing(index: Index, fid: nat, offset: nat, clock: nat -> int, i: nat)
    ensures forall k :: !Rewrites(index, fid, [], offset, clock, i, k)
  {
  }

  lemma RewritesCons(index: Index, fid: nat, es: Entries, offset: nat, clock: nat -> int, i: nat, k: Bytes)
    requires es != []
    ensures Rewrites(index, fid, es, offset, clock, i, k)
            <==> (es[0].key == k && PointsAt(index, k, fid, offset) && !MergeDrops(es[0], clock(i)))
                 || Rewrites(index, fid, es[1..], offset + Size(es[0]), clock, i + 1, k)
  {
  }

  /** Only nodes that lie ahead matter for what the rest of the loop rewrites. */
  lemma {:induction false} RewritesAhead(a: Index, b: Index, fid: nat, es: Entries, offset: nat, clock: nat -> int, i: nat, k: Bytes)
    requires forall o :: o >= offset ==> (PointsAt(a, k, fid, o) <==> PointsAt(b, k, fid, o))
    ensures Rewrites(a, fid, es, offset, clock, i, k) <==> Rewrites(b, fid, es, offset, clock, i, k)
    decreases |es|
  {
    hide Size;
    if es != [] {
      assert PointsAt(a, k, fid, offset) <==> PointsAt(b, k, fid, offset);
      RewritesAhead(a, b, fid, es[1..], offset + Size(es[0]), clock, i + 1, k);
    }
  }

  /** A rewritten key has its node in the file, ahead of where the loop is and with room if that is what it reads. */
  lemma {:induction false} RewritesWhere(index: Index, fid: nat, es: Entries, offset: nat, length: nat, clock: nat -> int, i: nat, k: Bytes)
    requires Rewrites(index, fid, es, offset, clock, i, k)
    ensures k in index && index[k].fid == fid && offset <= index[k].offset
    ensures Roomed(es, offset, length) ==> index[k].offset + MAX_HEADER_SIZE <= length
    decreases |es|
  {
    hide Size;
    RewritesCons(index, fid, es, offset, clock, i, k);
    if !(es[0].key == k && PointsAt(index, k, fid, offset) && !MergeDrops(es[0], clock(i))) {
      RewritesWhere(index, fid, es[1..], offset + Size(es[0]), length, clock, i + 1, k);
    }
  }

  lemma MergeOneIndex(s: Store, fid: nat, offset: nat, e: Entry, now: int)
    requires Wf(s) && Storable(e) && 1 <= fid < s.active
    ensures var r := MergeOne(s, fid, offset, e, now);
            && Wf(r) && r.active >= s.active && r.maxSize == s.maxSize
            && if !MergeDrops(e, now) && PointsAt(s.index, e.key, fid, offset)
               then r.index == s.index[e.key := Where(s, e)] && Where(s, e).fid >= s.active
               else r == s
  {
    hide Size, HeaderSize, EntryCrc, Used, Write, Where;
    WriteFacts(s, e);
    WriteKeepsSize(s, e);
  }

  lemma WriteKeepsSize(s: Store, e: Entry)
    requires Openable(s) && Storable(e)
    ensures Write(s, e).maxSize == s.maxSize
  {
    hide Used, Size;
  }

  lemma MergeOneAhead(s: Store, fid: nat, offset: nat, e: Entry, now: int, k: Bytes)
    requires Wf(s) && Storable(e) && 1 <= fid < s.active
    ensures forall o :: o >= offset + Size(e) ==> (PointsAt(MergeOne(s, fid, offset, e, now).index, k, fid, o) <==> PointsAt(s.index, k, fid, o))
  {
    hide Size, HeaderSize, EntryCrc, Where, MergeOne, Wf;
    SomeSize(e);
    MergeOneIndex(s, fid, offset, e, now);
  }

  lemma SomeSize(e: Entry)
    requires Storable(e)
    ensures Size(e) > 0
  {
  }

  /** The loop moves exactly the keys it rewrites, out of the file, and leaves every other node alone. */
  lemma {:induction false} MergeLoopIndex(s: Store, fid: nat, es: Entries, offset: nat, clock: nat -> int, i: nat, k: Bytes)
    requires Wf(s) && 1 <= fid < s.active
    ensures var r := MergeLoop(s, fid, es, offset, clock, i);
            && Wf(r) && r.active >= s.active && r.maxSize == s.maxSize && (k in r.index <==> k in s.index)
            && if Rewrites(s.index, fid, es, offset, clock, i, k) then k in s.index && r.index[k].fid >= s.active
               else k in s.index ==> r.index[k] == s.index[k]
    decreases |es|
  {
    hide Wf, Size, HeaderSize, EntryCrc, MergeOne, Rewrites, Where, MergeDrops;
    OpenableWf(s);
    if es == [] {
      RewritesNothing(s.index, fid, offset, clock, i);
    } else {
      var e, next, j := es[0], offset + Size(es[0]), i + 1;
      var t := MergeOne(s, fid, offset, e, clock(i));
      MergeOneIndex(s, fid, offset, e, clock(i));
      MergeLoopIndex(t, fid, es[1..], next, clock, j, k);
      MergeOneAhead(s, fid, offset, e, clock(i), k);
      RewritesAhead(t.index, s.index, fid, es[1..], next, clock, j, k);
      RewritesCons(s.index, fid, es, offset, clock, i, k);
    }
  }

  lemma {:induction false} LoopSendsNothing(s: Store, fid: nat, es: Entries, offset: nat, clock: nat -> int, i: nat)
    requires Openable(s)
    ensures var r := MergeLoop(s, fid, es, offset, clock, i); r.queue == s.queue && (Opened(s) ==> Opened(r))
    decreases |es|
  {
    hide Size, HeaderSize, EntryCrc, Write, Where;
    if es != [] {
      if !MergeDrops(es[0], clock(i)) && PointsAt(s.index, es[0].key, fid, offset) {
        WriteQueues(s, es[0]);
      }
      LoopSendsNothing(MergeOne(s, fid, offset, es[0], clock(i)), fid, es[1..], offset + Size(es[0]), clock, i + 1);
    }
  }

  lemma WriteQueues(s: Store, e: Entry)
    requires Openable(s) && Storable(e)
    ensures Write(s, e).queue == s.queue
  {
    hide Used, Size;
  }

  /** Merge counts nothing as dead: what it rewrites goes without a discard. There is an active file afterwards in any case. */
  lemma MergeSendsNothing(s: Store, fid: nat, ratio: real, clock: nat -> int)
    requires Openable(s)
    ensures Merge(s, fid, ratio, clock).queue == s.queue && Merge(s, fid, ratio, clock).active != 0
  {
    hide MergeLoop, Readable;
    var s0 := EnsureActive(s);
    if Mergeable(s0, fid, ratio) {
      LoopSendsNothing(s0, fid, Readable(s0.files[fid]), 0, clock, 0);
    }
  }
}
