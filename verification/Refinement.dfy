/** The log-structured store against a plain map from keys to values with an expiry. */
module Refinement {
  import opened Bytes
  import opened Varint
  import opened LogEntry
  import opened LogFile
  import opened Decimal
  import opened Store
  import opened StoreLog
  import opened MergeSteps

  datatype Cell = Cell(value: Bytes, expiredAt: int64)

  type Contents = map<Bytes, Cell>

  /** Reading the plain map: expired keys are hidden. */
  function Lookup(m: Contents, key: Bytes, now: int): Option<Bytes> {
    if key in m && !Expired(m[key].expiredAt, now) then Some(m[key].value) else None
  }

  function SetCell(m: Contents, e: Entry): Contents {
    m[e.key := Cell(e.value, e.expiredAt)]
  }

  function SetPairs(m: Contents, args: seq<Bytes>): Contents
    requires |args| % 2 == 0
    decreases |args|
  {
    if |args| < 2 then m else SetPairs(m[args[0] := Cell(args[1], 0)], args[2..])
  }

  /** The commands on the plain map. */
  function Apply(m: Contents, c: Command, now: int): (Contents, Reply) {
    match c
    case Set(k, v) => (m[k := Cell(v, 0)], Done)
    case SetEX(k, v, t) => (m[k := Cell(v, t)], Done)
    case SetNX(k, v) => if IsNil(k, Lookup(m, k, now)) then (m[k := Cell(v, 0)], Done) else (m, Done)
    case MSet(args) => if |args| == 0 || |args| % 2 == 1 then (m, InvalidParam) else (SetPairs(m, args), Done)
    case Append(k, v) => (m[k := Cell(Appended(Lookup(m, k, now), v), 0)], Done)
    case Delete(k) => (m - {k}, Done)
    case GetDel(k) =>
      var was := Lookup(m, k, now);
      if IsNil(k, was) then (m, Nil) else (m - {k}, Value(was.value))
    case IncrBy(k, d) =>
      match Incremented(TextOf(Lookup(m, k, now)), d)
      case NotInteger => (m, WrongValueType)
      case Overflow => (m, IntegerOverflow)
      case Counted(n, text) => (m[k := Cell(text, 0)], Number(n))
  }

  /** A merge that read its clock at `merged` or later may have dropped this cell. */
  predicate Gone(c: Cell, merged: int) {
    c.expiredAt != 0 && c.expiredAt <= merged
  }

  /** The entry at a place is the one that wrote this cell. */
  predicate WrittenAt(s: Store, n: Node, k: Bytes, c: Cell)
    requires n.fid in s.files
  {
    match EntryAt(s.files[n.fid].entries, n.offset)
    case None => false
    case Some(e) => Storable(e) && e.key == k && e.stat != S_DELETE && c == Cell(e.value, e.expiredAt) && n.size == Size(e)
  }

  /** The node of `k` leads to the entry that wrote its cell, or its file was merged away after the cell expired. */
  predicate NodeOk(s: Store, m: Contents, merged: int, k: Bytes)
    requires k in s.index
  {
    var n := s.index[k];
    && (k in m ==> n.expiredAt == 0 || n.expiredAt == m[k].expiredAt)
    && (if n.fid in s.files then k in m && WrittenAt(s, n, k, m[k]) else k in m ==> Gone(m[k], merged))
  }

  /** `merged` is an upper bound of the clock readings of all merges so far. */
  predicate Refines(s: Store, m: Contents, merged: int) {
    && Wf(s)
    && (forall k :: k in s.index ==> NodeOk(s, m, merged, k))
    && (forall k :: k in m ==> k in s.index)
  }

  /** The entry that the index names for the key starts at least a full header before the end of its file. */
  predicate HasRoom(s: Store, key: Bytes) {
    key in s.index && s.index[key].fid in s.files
    && s.index[key].offset + MAX_HEADER_SIZE <= s.files[s.index[key].fid].length
  }

  /**
   Reads. At any time, Get finds exactly what the plain map shows, for every key that has room for a full header.
   A visible key without that room gives a read error; only a key whose time was up at a merge can have lost its file.
   */
  lemma GetRefines(s: Store, m: Contents, merged: int, key: Bytes, now: int)
    requires Refines(s, m, merged)
    ensures forall v :: Get(s, key, now) == Found(v) <==> Lookup(m, key, now) == Some(v) && HasRoom(s, key)
    ensures Lookup(m, key, now).Some? && !HasRoom(s, key) ==>
              if s.index[key].fid in s.files then Get(s, key, now) == ReadError
              else Get(s, key, now) == LogFileNotExist && Gone(m[key], merged)
  {
    hide Size, EntryCrc, Used;
    if key in s.index {
      assert NodeOk(s, m, merged, key);
    }
  }

  /** Growth of the files keeps every node that the index did not change. */
  lemma NodeKept(s: Store, r: Store, m: Contents, m': Contents, merged: int, merged': int, k: Bytes)
    requires k in s.index && k in r.index && r.index[k] == s.index[k] && s.index[k].fid <= s.active
    requires NodeOk(s, m, merged, k) && (k in m <==> k in m') && (k in m ==> m'[k] == m[k]) && merged <= merged'
    requires Grows(s.files, r.files) && forall f :: f in r.files ==> f in s.files || f > s.active
    ensures NodeOk(r, m', merged', k)
  {
    hide Size, EntryCrc, Used, EntryAt;
    var n := s.index[k];
    if n.fid in s.files {
      EntryAtPrefix(s.files[n.fid].entries, r.files[n.fid].entries, n.offset);
    }
  }

  lemma PutRefines(s: Store, m: Contents, merged: int, e: Entry, send: bool)
    requires Refines(s, m, merged) && Storable(e) && e.stat != S_DELETE
    ensures Refines(Put(s, e, send), SetCell(m, e), merged)
  {
    hide Size, HeaderSize, EntryCrc, Used, EntryAt, Write, Where, Send, WrittenAt;
    WriteFacts(s, e);
    var r, m' := Put(s, e, send), SetCell(m, e);
    forall k | k in r.index
      ensures NodeOk(r, m', merged, k)
    {
      if k == e.key {
        PutNode(s, m, merged, e, send);
      } else {
        NodeKept(s, r, m, m', merged, merged, k);
      }
    }
  }

  lemma PutNode(s: Store, m: Contents, merged: int, e: Entry, send: bool)
    requires Wf(s) && Storable(e) && e.stat != S_DELETE
    ensures NodeOk(Put(s, e, send), SetCell(m, e), merged, e.key)
  {
    hide Size, HeaderSize, EntryCrc, Used, EntryAt, Write;
    WriteFacts(s, e);
  }

  lemma RemoveRefines(s: Store, m: Contents, merged: int, key: Bytes)
    requires Refines(s, m, merged) && Storable(Tombstone(key))
    ensures Refines(Remove(s, key), m - {key}, merged)
  {
    hide Size, EntryCrc, Used, EntryAt, Write, Where, Send;
    WriteFacts(s, Tombstone(key));
    var r, m' := Remove(s, key), m - {key};
    forall k | k in r.index
      ensures NodeOk(r, m', merged, k)
    {
      NodeKept(s, r, m, m', merged, merged, k);
    }
  }

  lemma RefinesOpenable(s: Store, m: Contents, merged: int)
    requires Refines(s, m, merged)
    ensures Openable(s)
  {
    hide Used, Storable;
  }

  lemma {:induction false} PutPairsRefines(s: Store, m: Contents, merged: int, args: seq<Bytes>)
    requires Refines(s, m, merged) && |args| % 2 == 0 && PairsStorable(args)
    ensures Refines(PutPairs(s, args), SetPairs(m, args), merged)
    decreases |args|
  {
    hide Refines, Put, Storable;
    RefinesOpenable(s, m, merged);
    if |args| >= 2 {
      var e := Plain(args[0], args[1]);
      RestStorable(args);
      PutRefines(s, m, merged, e, true);
      PutPairsRefines(Put(s, e, true), SetCell(m, e), merged, args[2..]);
    }
  }

  /**
   Commands. Every string command answers as it does on the plain map and changes the store as it
   changes the map. The only other outcome is a command that fails because reading the old value
   failed; it changes nothing.
   */
  lemma ExecuteRefines(s: Store, m: Contents, merged: int, c: Command, now: int)
    requires Refines(s, m, merged) && Writable(c, OldValue(s, c, now))
    ensures var (r, reply) := Execute(s, c, now);
            if reply.Failed? then r == s && ReadsKey(c).Some? && Broken(Get(s, ReadsKey(c).value, now))
            else reply == Apply(m, c, now).1 && Refines(r, Apply(m, c, now).0, merged)
  {
    if ReadsKey(c).None? {
      BlindWriteRefines(s, m, merged, c, now);
    } else if Broken(Get(s, ReadsKey(c).value, now)) {
    } else {
      ReadModifyWriteRefines(s, m, merged, c, now);
    }
  }

  lemma BlindWriteRefines(s: Store, m: Contents, merged: int, c: Command, now: int)
    requires Refines(s, m, merged) && Writable(c, OldValue(s, c, now)) && ReadsKey(c).None?
    ensures var (r, reply) := Execute(s, c, now);
            reply == Apply(m, c, now).1 && !reply.Failed? && Refines(r, Apply(m, c, now).0, merged)
  {
    assert Openable(s);
    hide Get, Put, Remove, PutPairs, Refines, Storable, PairsStorable, SetPairs;
    match c
    case Set(k, v) => PutRefines(s, m, merged, Plain(k, v), true);
    case SetEX(k, v, t) => PutRefines(s, m, merged, Expiring(k, v, t), true);
    case MSet(args) => if |args| % 2 == 0 { PutPairsRefines(s, m, merged, args); }
    case Delete(k) => RemoveRefines(s, m, merged, k);
  }

  lemma ReadModifyWriteRefines(s: Store, m: Contents, merged: int, c: Command, now: int)
    requires Refines(s, m, merged) && Writable(c, OldValue(s, c, now))
    requires ReadsKey(c).Some? && !Broken(Get(s, ReadsKey(c).value, now))
    ensures var (r, reply) := Execute(s, c, now);
            reply == Apply(m, c, now).1 && !reply.Failed? && Refines(r, Apply(m, c, now).0, merged)
  {
    hide Get, OldValue, Put, Remove, Refines, Incremented, Storable;
    RefinesOpenable(s, m, merged);
    OldValueRefines(s, m, merged, c, now);
    match c
    case SetNX(k, v) => if IsNil(k, Lookup(m, k, now)) { PutRefines(s, m, merged, Plain(k, v), true); }
    case Append(k, v) => PutRefines(s, m, merged, Plain(k, Appended(Lookup(m, k, now), v)), true);
    case GetDel(k) => if !IsNil(k, Lookup(m, k, now)) { RemoveRefines(s, m, merged, k); }
    case IncrBy(k, d) =>
      var i := Incremented(TextOf(Lookup(m, k, now)), d);
      if i.Counted? { PutRefines(s, m, merged, Plain(k, i.text), true); }
  }

  lemma OldValueRefines(s: Store, m: Contents, merged: int, c: Command, now: int)
    requires Refines(s, m, merged)
    requires ReadsKey(c).Some? ==> !Broken(Get(s, ReadsKey(c).value, now))
    ensures ReadsKey(c).Some? ==> OldValue(s, c, now) == Lookup(m, ReadsKey(c).value, now)
  {
    hide Get;
    if ReadsKey(c).Some? {
      GetRefines(s, m, merged, ReadsKey(c).value, now);
    }
  }

  // --- merge ---

  lemma {:induction false} EntryAtSplit(before: Entries, es: Entries, off: int)
    requires es != [] && off == Used(before)
    ensures EntryAt(before + es, off) == Some(es[0])
    decreases |before|
  {
    if before == [] {
      assert before + es == es;
    } else {
      assert (before + es)[1..] == before[1..] + es;
      EntryAtSplit(before[1..], es, off - Size(before[0]));
    }
  }

  /** Behind the entries before it, the next entry starts, and no other within it. */
  lemma EntryAtNext(before: Entries, es: Entries)
    requires es != []
    ensures EntryAt(before + es, Used(before)) == Some(es[0])
    ensures forall o :: Used(before) < o < Used(before) + Size(es[0]) ==> EntryAt(before + es, o).None?
  {
    hide EntryAt, Size, HeaderSize, EntryCrc, Used;
    var offset := Used(before);
    EntryAtSplit(before, es, offset);
    forall o | offset < o < offset + Size(es[0])
      ensures EntryAt(before + es, o).None?
    {
      EntriesDisjoint(before + es, offset, o);
    }
  }

  /** What is left to do when the loop has passed `offset`: nodes into the passed part are all expired. */
  predicate Passed(s: Store, m: Contents, merged: int, fid: nat, offset: nat) {
    forall k :: k in s.index && s.index[k].fid == fid && s.index[k].offset < offset && k in m ==> Gone(m[k], merged)
  }

  lemma MergeOneRefines(s: Store, m: Contents, merged: int, fid: nat, offset: nat, e: Entry, now: int)
    requires Refines(s, m, merged) && Storable(e) && fid in s.files && fid != s.active && now <= merged
    requires EntryAt(s.files[fid].entries, offset) == Some(e)
    requires Passed(s, m, merged, fid, offset)
    requires forall o :: offset < o < offset + Size(e) ==> EntryAt(s.files[fid].entries, o).None?
    ensures var r := MergeOne(s, fid, offset, e, now);
            && Refines(r, m, merged) && r.active >= s.active && fid in r.files && r.files[fid] == s.files[fid]
            && Passed(r, m, merged, fid, offset + Size(e))
  {
    hide Size, HeaderSize, EntryCrc, Used, EntryAt, Put, Write, Where;
    var r := MergeOne(s, fid, offset, e, now);
    if !MergeDrops(e, now) && PointsAt(s.index, e.key, fid, offset) {
      RewriteRefines(s, m, merged, fid, offset, e);
    }
    forall k | k in r.index && r.index[k].fid == fid && r.index[k].offset < offset + Size(e) && k in m
      ensures Gone(m[k], merged)
    {
      assert r.index[k] == s.index[k] && NodeOk(s, m, merged, k);
    }
  }

  lemma RewriteRefines(s: Store, m: Contents, merged: int, fid: nat, offset: nat, e: Entry)
    requires Refines(s, m, merged) && Storable(e) && fid in s.files && fid != s.active
    requires EntryAt(s.files[fid].entries, offset) == Some(e) && PointsAt(s.index, e.key, fid, offset)
    ensures var r := Put(s, e, false);
            && Refines(r, m, merged) && r.active >= s.active && fid in r.files && r.files[fid] == s.files[fid]
            && e.key in r.index && r.index == s.index[e.key := r.index[e.key]] && r.index[e.key].fid != fid
  {
    hide Size, HeaderSize, EntryCrc, Used, EntryAt, Write, Where;
    assert NodeOk(s, m, merged, e.key);
    PutRefines(s, m, merged, e, false);
    assert SetCell(m, e) == m;
    ArchivedUntouched(s, e, fid);
    WriteFacts(s, e);
  }

  /** A write leaves every archived file as it is. */
  lemma ArchivedUntouched(s: Store, e: Entry, fid: nat)
    requires Wf(s) && Storable(e) && fid in s.files && fid != s.active
    ensures fid in Write(s, e).files && Write(s, e).files[fid] == s.files[fid]
  {
    hide Size, EntryCrc, Used;
  }

  lemma {:induction false} MergeLoopRefines(s: Store, m: Contents, merged: int, fid: nat, before: Entries, es: Entries,
                                            rest: Entries, clock: nat -> int, i: nat)
    requires Refines(s, m, merged) && fid in s.files && fid != s.active && s.files[fid].entries == before + es + rest
    requires Passed(s, m, merged, fid, Used(before))
    requires forall j :: i <= j < i + |es| ==> clock(j) <= merged
    ensures var r := MergeLoop(s, fid, es, Used(before), clock, i);
            && Refines(r, m, merged) && fid in r.files && fid != r.active && r.files[fid] == s.files[fid]
            && Passed(r, m, merged, fid, Used(before + es))
    decreases |es|
  {
    hide Refines, MergeOne, EntryAt, Size, HeaderSize, EntryCrc, Passed, Used;
    if es == [] {
      assert before + es == before;
    } else {
      var e, offset := es[0], Used(before);
      assert before + es + rest == before + (es + rest);
      EntryAtNext(before, es + rest);
      ActiveAbove(s, m, merged, fid);
      MergeOneRefines(s, m, merged, fid, offset, e, clock(i));
      UsedAppend(before, e);
      assert before + [e] + es[1..] == before + es && before + [e] + es[1..] + rest == before + es + rest;
      MergeLoopRefines(MergeOne(s, fid, offset, e, clock(i)), m, merged, fid, before + [e], es[1..], rest, clock, i + 1);
    }
  }

  lemma ActiveAbove(s: Store, m: Contents, merged: int, fid: nat)
    requires Refines(s, m, merged) && fid in s.files
    ensures fid <= s.active && Openable(s)
  {
  }

  /** The key's entry is in the file, but too close to its end to be read. */
  predicate Stranded(s: Store, fid: nat, k: Bytes) {
    k in s.index && s.index[k].fid == fid && fid in s.files && !HasRoom(s, k)
  }

  /** What a merge of the file can save: all but the keys that could not be read there before. */
  function Salvaged(s: Store, m: Contents, fid: nat): Contents {
    map k | k in m && !Stranded(s, fid, k) :: m[k]
  }

  /** Dropping the file once all that can be read of it has been passed. */
  lemma DropFileRefines(s: Store, m: Contents, merged: int, fid: nat)
    requires Refines(s, m, merged) && fid in s.files && fid != s.active
    requires Passed(s, m, merged, fid, Used(Readable(s.files[fid])))
    ensures Refines(DropFile(s, fid), Salvaged(s, m, fid), merged)
  {
    hide Size, HeaderSize, EntryCrc, Used, EntryAt, RoomedPrefix;
    var r, m' := DropFile(s, fid), Salvaged(s, m, fid);
    forall k | k in r.index
      ensures NodeOk(r, m', merged, k)
    {
      var n := s.index[k];
      assert NodeOk(s, m, merged, k);
      if n.fid == fid && k in m' {
        PassedAll(s.files[fid], n.offset);
      }
    }
  }

  lemma PassedAll(f: File, offset: nat)
    requires EntryAt(f.entries, offset).Some? && offset + MAX_HEADER_SIZE <= f.length
    ensures offset < Used(Readable(f))
  {
    hide Size, HeaderSize, EntryCrc, Used, EntryAt, RoomedPrefix;
    RoomedPrefixAt(f.entries, offset, 0, f.length);
    EntriesDisjoint(Readable(f), offset, 0);
    SomeSize(EntryAt(Readable(f), offset).value);
  }

  lemma LaterMerge(s: Store, m: Contents, merged: int, merged': int)
    requires Refines(s, m, merged) && merged <= merged'
    ensures Refines(s, m, merged')
  {
    hide Size, HeaderSize, EntryCrc, Used, EntryAt;
    forall k | k in s.index
      ensures NodeOk(s, m, merged', k)
    {
      assert NodeOk(s, m, merged, k);
    }
  }

  lemma EnsureActiveRefines(s: Store, m: Contents, merged: int)
    requires Refines(s, m, merged)
    ensures Refines(EnsureActive(s), m, merged)
  {
    hide Size, HeaderSize, EntryCrc, Used, EntryAt;
    if s.active == 0 {
      NewFile(s, 1);
      assert forall k :: k !in s.index;
    }
  }

  /** The latest of the first `n` readings of a merge's clock, and of `base`. */
  function Latest(clock: nat -> int, n: nat, base: int): (r: int)
    ensures r >= base && forall j :: 0 <= j < n ==> clock(j) <= r
  {
    if n == 0 then base else Max(clock(n - 1), Latest(clock, n - 1, base))
  }

  /** The contents after a merge. */
  function MergedContents(s: Store, m: Contents, fid: nat, ratio: real): Contents {
    if Mergeable(EnsureActive(s), fid, ratio) then Salvaged(s, m, fid) else m
  }

  /**
   Merge. Merging any file leaves the contents as they are, from the merge's latest clock reading on and even when
   rewriting rolls the active file; only keys go that could not be read before either, for want of room.
   */
  lemma MergeRefines(s: Store, m: Contents, merged: int, merged': int, fid: nat, ratio: real, clock: nat -> int)
    requires Refines(s, m, merged) && merged <= merged'
    requires fid in s.files ==> forall j :: 0 <= j < |s.files[fid].entries| ==> clock(j) <= merged'
    ensures Refines(Merge(s, fid, ratio, clock), MergedContents(s, m, fid, ratio), merged')
  {
    hide Refines, RoomedPrefix, MergeLoop, Salvaged;
    var s0 := EnsureActive(s);
    EnsureActiveRefines(s, m, merged);
    LaterMerge(s0, m, merged, merged');
    if Mergeable(s0, fid, ratio) {
      ActiveAlready(s, m, merged, fid);
      RefinesOpenable(s, m, merged');
      RoomedPrefixIs(s.files[fid].entries, 0, s.files[fid].length);
      MergeFileRefines(s, m, merged', fid, clock);
    }
  }

  lemma MergeFileRefines(s: Store, m: Contents, merged: int, fid: nat, clock: nat -> int)
    requires Refines(s, m, merged) && Openable(s) && fid in s.files && fid != s.active
    requires forall j :: 0 <= j < |Readable(s.files[fid])| ==> clock(j) <= merged
    ensures Refines(DropFile(MergeLoop(s, fid, Readable(s.files[fid]), 0, clock, 0), fid), Salvaged(s, m, fid), merged)
  {
    hide Refines, RoomedPrefix, MergeLoop, DropFile, Passed, Salvaged, Used, Storable;
    var f := s.files[fid];
    var es: Entries := Readable(f);
    RoomedPrefixIs(f.entries, 0, f.length);
    var rest: Entries := f.entries[|es|..];
    assert [] + es == es && [] + es + rest == f.entries;
    NothingPassed(s, m, merged, fid);
    MergeLoopRefines(s, m, merged, fid, [], es, rest, clock, 0);
    var t := MergeLoop(s, fid, es, 0, clock, 0);
    DropFileRefines(t, m, merged, fid);
    StrandedStays(s, t, m, merged, fid, es, clock);
  }

  lemma ActiveAlready(s: Store, m: Contents, merged: int, fid: nat)
    requires Refines(s, m, merged) && fid in EnsureActive(s).files && fid != EnsureActive(s).active
    ensures EnsureActive(s) == s
  {
  }

  lemma NothingPassed(s: Store, m: Contents, merged: int, fid: nat)
    ensures Passed(s, m, merged, fid, Used([])) && Used([]) == 0
  {
  }

  /** The loop neither rewrites a stranded key nor strands another in the file it reads. */
  lemma StrandedStays(s: Store, t: Store, m: Contents, merged: int, fid: nat, es: Entries, clock: nat -> int)
    requires Refines(s, m, merged) && Refines(t, m, merged) && fid in s.files && fid in t.files && t.files[fid] == s.files[fid]
    requires fid != s.active && es == Readable(s.files[fid]) && t == MergeLoop(s, fid, es, 0, clock, 0)
    ensures Salvaged(t, m, fid) == Salvaged(s, m, fid)
  {
    hide RoomedPrefix, MergeLoop, NodeOk, Rewrites, Used;
    RoomedPrefixRoomed(s.files[fid].entries, 0, s.files[fid].length);
    forall k | k in m
      ensures Stranded(t, fid, k) <==> Stranded(s, fid, k)
    {
      MergeLoopIndex(s, fid, es, 0, clock, 0, k);
      if Rewrites(s.index, fid, es, 0, clock, 0, k) {
        RewritesWhere(s.index, fid, es, 0, s.files[fid].length, clock, 0, k);
      }
    }
  }
}
