/** Exactly which reads a merge keeps. */
module MergeReads {
  import opened Bytes
  import opened LogEntry
  import opened LogFile
  import opened Ledger
  import opened Store
  import opened StoreLog
  import opened MergeSteps
  import opened Refinement

  /** A place in a file: where an entry starts, and how long the file is. */
  datatype Place = Place(offset: nat, length: nat)

  /** Where an entry of this size goes when the active file is filled up to `at.offset`. */
  function Fits(at: Place, size: nat, maxSize: nat): Place {
    var p := if at.offset + size > maxSize then Place(0, maxSize) else at;
    p.(length := Max(p.length, p.offset + size))
  }

  /** Where the loop will put the entry of `k`, from what the index and the active file are when it starts. */
  function Landing(index: Index, at: Place, maxSize: nat, fid: nat, es: Entries, offset: nat, clock: nat -> int, i: nat, k: Bytes): Place
    decreases |es|
  {
    if es == [] then at
    else
      var e, next := es[0], offset + Size(es[0]);
      if MergeDrops(e, clock(i)) || !PointsAt(index, e.key, fid, offset) then Landing(index, at, maxSize, fid, es[1..], next, clock, i + 1, k)
      else
        var p := Fits(at, Size(e), maxSize);
        if e.key == k then p else Landing(index, p.(offset := p.offset + Size(e)), maxSize, fid, es[1..], next, clock, i + 1, k)
  }

  function End(s: Store): Place
    requires Opened(s)
  {
    Place(Used(ActiveFile(s).entries), ActiveFile(s).length)
  }

  /** A write goes where it fits, and makes no file longer that was there before. */
  lemma WritePlace(s: Store, e: Entry)
    requires Wf(s) && Opened(s) && Storable(e)
    ensures var r, p, at := Write(s, e), Where(s, e), Fits(End(s), Size(e), s.maxSize);
            && p.offset == at.offset && p.fid == r.active && p.fid in r.files && r.files[p.fid].length == at.length
            && End(r) == Place(at.offset + Size(e), at.length)
            && forall f :: f in s.files ==> f in r.files && r.files[f].length == s.files[f].length
  {
    hide Size, HeaderSize, EntryCrc, Used;
    UsedNothing();
    UsedAppend(ActiveFile(Rolled(s, e)).entries, e);
  }

  /** Files that are there keep their length throughout the loop. */
  lemma {:induction false} LoopLengths(s: Store, fid: nat, es: Entries, offset: nat, clock: nat -> int, i: nat, f: nat)
    requires Wf(s) && Opened(s) && 1 <= fid < s.active && f in s.files
    ensures var r := MergeLoop(s, fid, es, offset, clock, i); f in r.files && r.files[f].length == s.files[f].length
    decreases |es|
  {
    hide Wf, Size, HeaderSize, EntryCrc, Where, Used, MergeDrops, Write, Fits;
    if es != [] {
      WritePlace(s, es[0]);
      MergeOneIndex(s, fid, offset, es[0], clock(i));
      LoopLengths(MergeOne(s, fid, offset, es[0], clock(i)), fid, es[1..], offset + Size(es[0]), clock, i + 1, f);
    }
  }

  lemma OneMoves(s: Store, fid: nat, offset: nat, e: Entry, now: int)
    requires Wf(s) && Opened(s) && Storable(e) && !MergeDrops(e, now) && PointsAt(s.index, e.key, fid, offset)
    ensures var t, at := MergeOne(s, fid, offset, e, now), Fits(End(s), Size(e), s.maxSize);
            && Opened(t) && e.key in t.index && t.index[e.key].offset == at.offset && t.index[e.key].fid in t.files
            && t.files[t.index[e.key].fid].length == at.length && End(t) == Place(at.offset + Size(e), at.length)
  {
    hide Wf, Size, HeaderSize, EntryCrc, Where, Used, MergeDrops, Write, Fits;
    WritePlace(s, e);
  }

  ghost predicate SameAhead(a: Index, b: Index, fid: nat, offset: nat, key: Bytes) {
    forall o :: o >= offset ==> (PointsAt(a, key, fid, o) <==> PointsAt(b, key, fid, o))
  }

  /** Only nodes that lie ahead matter for where the rest of the loop puts a key. */
  lemma {:induction false} LandingAhead(a: Index, b: Index, at: Place, maxSize: nat, fid: nat, es: Entries, offset: nat, clock: nat -> int, i: nat, k: Bytes)
    requires forall key :: SameAhead(a, b, fid, offset, key)
    ensures Landing(a, at, maxSize, fid, es, offset, clock, i, k) == Landing(b, at, maxSize, fid, es, offset, clock, i, k)
    decreases |es|
  {
    hide Size, PointsAt, MergeDrops, Fits;
    if es != [] {
      var e, next := es[0], offset + Size(es[0]);
      assert SameAhead(a, b, fid, offset, e.key);
      assert PointsAt(a, e.key, fid, offset) <==> PointsAt(b, e.key, fid, offset);
      assert forall key :: SameAhead(a, b, fid, offset, key) ==> SameAhead(a, b, fid, next, key);
      LandingAhead(a, b, at, maxSize, fid, es[1..], next, clock, i + 1, k);
      var p := Fits(at, Size(e), maxSize);
      LandingAhead(a, b, p.(offset := p.offset + Size(e)), maxSize, fid, es[1..], next, clock, i + 1, k);
    }
  }

  lemma LandedStays(s: Store, fid: nat, es: Entries, offset: nat, clock: nat -> int, i: nat, k: Bytes)
    requires Wf(s) && Opened(s) && 1 <= fid < s.active && k in s.index && s.index[k].fid in s.files && s.index[k].fid != fid
    ensures var r := MergeLoop(s, fid, es, offset, clock, i);
            k in r.index && r.index[k] == s.index[k] && r.index[k].fid in r.files && r.files[r.index[k].fid].length == s.files[s.index[k].fid].length
  {
    hide Wf, MergeLoop, Rewrites, Size;
    MergeLoopIndex(s, fid, es, offset, clock, i, k);
    LoopLengths(s, fid, es, offset, clock, i, s.index[k].fid);
    if Rewrites(s.index, fid, es, offset, clock, i, k) {
      RewritesWhere(s.index, fid, es, offset, 0, clock, i, k);
    }
  }

  /** The loop puts a key it rewrites where it was foreseen, and its file keeps the length it then has. */
  lemma {:induction false} LoopLands(s: Store, fid: nat, es: Entries, offset: nat, clock: nat -> int, i: nat, k: Bytes)
    requires Wf(s) && Opened(s) && 1 <= fid < s.active && Rewrites(s.index, fid, es, offset, clock, i, k)
    ensures var r, p := MergeLoop(s, fid, es, offset, clock, i), Landing(s.index, End(s), s.maxSize, fid, es, offset, clock, i, k);
            k in r.index && r.index[k].fid in r.files && r.index[k].offset == p.offset && r.files[r.index[k].fid].length == p.length
    decreases |es|
  {
    hide Wf, Size, HeaderSize, EntryCrc, MergeOne, Rewrites, Where, MergeDrops, End, Fits;
    RewritesNothing(s.index, fid, offset, clock, i);
    var e, next, j := es[0], offset + Size(es[0]), i + 1;
    var t := MergeOne(s, fid, offset, e, clock(i));
    MergeOneIndex(s, fid, offset, e, clock(i));
    RewritesCons(s.index, fid, es, offset, clock, i, k);
    if MergeDrops(e, clock(i)) || !PointsAt(s.index, e.key, fid, offset) {
      LoopLands(s, fid, es[1..], next, clock, j, k);
    } else {
      OneMoves(s, fid, offset, e, clock(i));
      MergeOneAhead(s, fid, offset, e, clock(i), k);
      RewritesAhead(t.index, s.index, fid, es[1..], next, clock, j, k);
      if e.key == k {
        LandedStays(t, fid, es[1..], next, clock, j, k);
      } else {
        LoopLands(t, fid, es[1..], next, clock, j, k);
        forall key
          ensures SameAhead(t.index, s.index, fid, next, key)
        {
          MergeOneAhead(s, fid, offset, e, clock(i), key);
        }
        LandingAhead(t.index, s.index, End(t), s.maxSize, fid, es[1..], next, clock, j, k);
      }
    }
  }

  /** The entry of the key will be rewritten, at a place with room for a full header. */
  predicate RewrittenWithRoom(s: Store, fid: nat, clock: nat -> int, k: Bytes)
    requires Opened(s) && fid in s.files
  {
    var es := Readable(s.files[fid]);
    var p := Landing(s.index, End(s), s.maxSize, fid, es, 0, clock, 0, k);
    Rewrites(s.index, fid, es, 0, clock, 0, k) && p.offset + MAX_HEADER_SIZE <= p.length
  }

  /**
   Merge and reads, exactly. A read that succeeds before a merge succeeds after it with the same value, if and only if
   its entry is in another file, or it is rewritten and lands where a full header can be read.
   */
  lemma MergeKeepsRead(s: Store, m: Contents, merged: int, fid: nat, ratio: real, clock: nat -> int, k: Bytes, v: Bytes, now: int)
    requires Refines(s, m, merged) && Opened(s) && Mergeable(s, fid, ratio) && Get(s, k, now) == Found(v)
    ensures k in s.index
    ensures Get(Merge(s, fid, ratio, clock), k, now) == Found(v) <==> s.index[k].fid != fid || RewrittenWithRoom(s, fid, clock, k)
  {
    hide Refines, Get, Merge, Lookup, Candidate, RewrittenWithRoom, Gone;
    var late := Latest(clock, |s.files[fid].entries|, merged);
    MergeRefines(s, m, merged, late, fid, ratio, clock);
    GetRefines(s, m, merged, k, now);
    var r := Merge(s, fid, ratio, clock);
    GetRefines(r, MergedContents(s, m, fid, ratio), late, k, now);
    SameLookup(s, m, fid, ratio, k, now);
    MergeRoom(s, m, merged, fid, ratio, clock, k);
  }

  lemma SameLookup(s: Store, m: Contents, fid: nat, ratio: real, k: Bytes, now: int)
    requires HasRoom(s, k)
    ensures Lookup(MergedContents(s, m, fid, ratio), k, now) == Lookup(m, k, now)
  {
    hide Mergeable;
  }

  lemma MergeRoom(s: Store, m: Contents, merged: int, fid: nat, ratio: real, clock: nat -> int, k: Bytes)
    requires Refines(s, m, merged) && Opened(s) && Mergeable(s, fid, ratio) && HasRoom(s, k)
    ensures HasRoom(Merge(s, fid, ratio, clock), k) <==> s.index[k].fid != fid || RewrittenWithRoom(s, fid, clock, k)
  {
    hide NodeOk, MergeLoop, Readable, Rewrites, Landing, End, Used;
    var es := Readable(s.files[fid]);
    MergeLoopIndex(s, fid, es, 0, clock, 0, k);
    if s.index[k].fid != fid {
      LandedStays(s, fid, es, 0, clock, 0, k);
    } else if Rewrites(s.index, fid, es, 0, clock, 0, k) {
      LoopLands(s, fid, es, 0, clock, 0, k);
    }
  }
}
