/** The string database as it runs: log files of bytes, updated in place, each method against the state machine. */
module LazyDB {
  import opened Bytes
  import opened Varint
  import opened LogEntry
  import opened LogEntryIO
  import opened LogFile
  import opened Ledger
  import opened Decimal
  import opened Store
  import opened StoreLog
  import opened Recovery
  import opened Sorting
  import S = Store

  /** LogFile of log_file.go; `bytes` is the file behind its IoController. */
  class LogHandle {
    const fid: nat
    var offset: nat
    var bytes: Bytes

    /** logfile.Open on a file that is not there yet: it is created with `size` zero bytes. */
    constructor (fid: nat, size: nat)
      ensures this.fid == fid && offset == 0 && bytes == Zeros(size)
    {
      this.fid := fid;
      offset := 0;
      bytes := Zeros(size);
    }

    /** logfile.Open on an existing file. */
    constructor Existing(fid: nat, content: Bytes)
      ensures this.fid == fid && offset == 0 && bytes == content
    {
      this.fid := fid;
      offset := 0;
      bytes := content;
    }

    /** IoController.Read: fails with EOF when fewer than `n` bytes are there. */
    method Read(at: int, n: nat) returns (r: Option<Bytes>)
      requires at >= 0
      ensures r == if at + n <= |bytes| then Some(bytes[at..at + n]) else None
    {
      r := if at + n <= |bytes| then Some(bytes[at..at + n]) else None;
    }

    /** ReadLogEntry, step by step. */
    method ReadLogEntry(at: nat) returns (r: ReadResult)
      ensures r == ReadEntry(bytes, at)
    {
      hide DecodeHeader, SplitCrc;
      var headerBuf := Read(at, MAX_HEADER_SIZE);
      if headerBuf.None? {
        return Eof;
      }
      var decoded := DecodeHeader(headerBuf.value);
      if decoded.None? {
        return Malformed;
      }
      var le := decoded.value;
      if le.crc == 0 && le.kSize == 0 && le.vSize == 0 {
        return EndOfLog;
      }
      if at + le.length < 0 || le.length > MAX_HEADER_SIZE {
        return Malformed;
      }
      var kv: Bytes := [];
      if le.kSize > 0 || le.vSize > 0 {
        var kvBuf := Read(at + le.length, le.kSize + le.vSize);
        if kvBuf.None? {
          return Eof;
        }
        kv := kvBuf.value;
      }
      if le.length < 0 {
        return Malformed;
      }
      assert at + le.length + le.kSize + le.vSize <= |bytes|;
      assert kv == bytes[at + le.length..at + le.length + le.kSize + le.vSize];
      var key, value := kv[..le.kSize], kv[le.kSize..];
      if SplitCrc(headerBuf.value[..le.length], key, value) != le.crc {
        return InvalidCrc;
      }
      r := ReadResult.Read(Entry(key, value, le.stat, le.expiredAt, le.txId, le.txStat), le.length + le.kSize + le.vSize);
    }

    /** Write: at the write offset, which it advances. */
    method Write(buf: Bytes)
      requires offset <= |bytes|
      modifies this
      ensures bytes == WriteAt(old(bytes), buf, old(offset)) && offset == old(offset) + |buf|
    {
      if |buf| == 0 {
        assert WriteAt(bytes, buf, offset) == bytes;
        return;
      }
      bytes := WriteAt(bytes, buf, offset);
      offset := offset + |buf|;
    }
  }

  /** The bytes hold these entries and, where a header fits behind them, zeros. */
  ghost predicate Mirrors(bytes: Bytes, f: File) {
    |bytes| == f.length && Ahead(bytes, f.entries, 0)
  }

  lemma NewMirrors(size: nat)
    ensures Mirrors(Zeros(size), File([], size)) && Used([]) == 0
  {
    assert EncodeAll([]) == [];
  }

  /** Every node that leads into an existing file leads to the start of an entry. */
  predicate NodesAtEntries(s: Store) {
    forall k :: k in s.index && s.index[k].fid in s.files ==>
      EntryAt(s.files[s.index[k].fid].entries, s.index[k].offset).Some?
  }

  lemma NewFileNodes(s: Store, fid: nat)
    requires Wf(s) && NodesAtEntries(s) && fid == s.active + 1
    ensures fid !in s.files && 0 !in s.files && NodesAtEntries(WithFile(s, fid)) && Openable(s)
  {
    hide Used, EntryAt, SetTotal;
  }

  /** The state after the active file took the entry. */
  ghost function Taken(s: Store, e: Entry): Store
    requires Opened(s) && Storable(e)
  {
    s.(files := s.files[s.active := Extended(ActiveFile(s), e)])
  }

  lemma TakenFacts(s: Store, e: Entry)
    requires Wf(s) && NodesAtEntries(s) && Opened(s) && Storable(e)
    ensures Wf(Taken(s, e)) && NodesAtEntries(Taken(s, e))
  {
    hide Size, EntryCrc, Used, EntryAt;
    var f := ActiveFile(s);
    UsedAppend(f.entries, e);
    forall k | k in s.index && s.index[k].fid == s.active
      ensures EntryAt(f.entries + [e], s.index[k].offset).Some?
    {
      EntryAtPrefix(f.entries, f.entries + [e], s.index[k].offset);
    }
  }

  lemma TakenMirrors(f: File, e: Entry, bytes: Bytes)
    requires Mirrors(bytes, f) && Storable(e)
    ensures Used(f.entries) <= |bytes| && Mirrors(WriteAt(bytes, Encode(e), Used(f.entries)), Extended(f, e))
    ensures Used(Extended(f, e).entries) == Used(f.entries) + Size(e)
  {
    hide Encode, EntryCrc, Ahead, Size, Used;
    AheadFits(bytes, f.entries);
    AheadWrite(bytes, f.entries, e);
    UsedAppend(f.entries, e);
    SizeIsLength(e);
  }

  lemma AheadFits(bytes: Bytes, es: Entries)
    requires Ahead(bytes, es, 0)
    ensures Used(es) <= |bytes|
  {
  }

  lemma WriteKeeps(s: Store, e: Entry)
    requires Openable(s) && Storable(e)
    ensures S.Write(s, e).index == s.index && S.Write(s, e).queue == s.queue
  {
    hide Size, EntryCrc, Used;
  }

  lemma PutNodes(s: Store, e: Entry, send: bool)
    requires Wf(s) && Storable(e) && NodesAtEntries(S.Write(s, e))
    ensures NodesAtEntries(Put(s, e, send)) && Wf(Put(s, e, send))
  {
    hide Size, EntryCrc, Used, EntryAt, S.Write, Where;
    WriteFacts(s, e);
    WriteKeeps(s, e);
  }

  lemma RemoveNodes(s: Store, key: Bytes)
    requires Wf(s) && Storable(Tombstone(key)) && NodesAtEntries(S.Write(s, Tombstone(key)))
    ensures NodesAtEntries(Remove(s, key)) && Wf(Remove(s, key))
  {
    hide Size, EntryCrc, Used, EntryAt, S.Write, Where;
    WriteFacts(s, Tombstone(key));
    WriteKeeps(s, Tombstone(key));
  }

  /** Reading where an entry starts, on the bytes of the file. */
  lemma ReadMirrored(bytes: Bytes, f: File, off: nat)
    requires Mirrors(bytes, f) && EntryAt(f.entries, off).Some?
    ensures Storable(EntryAt(f.entries, off).value)
    ensures ReadEntry(bytes, off) == if off + MAX_HEADER_SIZE <= f.length
                                     then Read(EntryAt(f.entries, off).value, Size(EntryAt(f.entries, off).value)) else Eof
  {
    hide ReadEntry, Encode, EntryCrc, EncodeAll, Used, EntryAt;
    ReadAtBoundary(bytes, f.entries, 0, off);
  }

  /** One turn of the merge loop against its specification. */
  lemma MergeTurn(s: Store, fid: nat, rest: Entries, offset: nat, length: nat, clock: nat -> int, i: nat)
    requires Openable(s) && rest != [] && offset + MAX_HEADER_SIZE <= length
    ensures MergeLoop(s, fid, RoomedPrefix(rest, offset, length), offset, clock, i)
            == MergeLoop(MergeOne(s, fid, offset, rest[0], clock(i)), fid,
                         RoomedPrefix(rest[1..], offset + Size(rest[0]), length), offset + Size(rest[0]), clock, i + 1)
  {
    hide MergeOne, Size, EntryCrc;
    assert RoomedPrefix(rest, offset, length)[1..] == RoomedPrefix(rest[1..], offset + Size(rest[0]), length);
  }

  lemma MergeEnds(s: Store, fid: nat, rest: Entries, offset: nat, length: nat, clock: nat -> int, i: nat)
    requires Openable(s) && (rest == [] || offset + MAX_HEADER_SIZE > length)
    ensures MergeLoop(s, fid, RoomedPrefix(rest, offset, length), offset, clock, i) == s
  {
  }

  lemma DropNodes(s: Store, fid: nat)
    requires Wf(s) && NodesAtEntries(s) && fid != s.active
    ensures Wf(DropFile(s, fid)) && NodesAtEntries(DropFile(s, fid))
  {
    hide Used, EntryAt;
  }

  // --- replaying what is on disk ---

  /** `last` is the largest fid, 0 if there is no file. */
  predicate IsLast(files: Files, last: nat) {
    (forall f :: f in files ==> 1 <= f <= last) && (last == 0 || last in files)
  }

  lemma RebuiltWf(s: Store)
    requires FilesWf(s) && s.index == Rebuilt(s)
    ensures Wf(s) && NodesAtEntries(s)
  {
    hide Used, EntryAt, Rebuilt;
    RebuiltLeads(s);
    assert forall k :: k in s.index ==> Leads(s.files, s.index[k], k);
  }

  /** The log up to the next existing file. */
  lemma {:induction false} LogNext(files: Files, a: nat, b: nat)
    requires a < b && forall f :: f in files ==> f <= a || f >= b
    ensures Log(files, b) == Log(files, a) + FileLog(files, b)
    decreases b
  {
    hide Recs;
    if a < b - 1 {
      LogNext(files, a, b - 1);
    }
  }

  lemma LogOfNothing(files: Files)
    ensures Log(files, 0) == [] && RecsStorable(Log(files, 0)) && Replay(map[], Log(files, 0)) == map[]
  {
  }

  /** Between two neighbours in the ascending list there is no other fid. */
  lemma Between(fids: seq<nat>, i: nat)
    requires StrictlyAscending(fids) && i < |fids|
    ensures forall f :: f in fids ==> (i > 0 && f <= fids[i - 1]) || f >= fids[i]
  {
  }

  lemma LastSplit(fids: seq<nat>)
    requires StrictlyAscending(fids) && |fids| > 0
    ensures forall f :: f in fids[..|fids| - 1] <==> f in fids && f != fids[|fids| - 1]
  {
    var n := |fids| - 1;
    assert fids == fids[..n] + [fids[n]];
  }

  lemma LastFid(fids: seq<nat>, files: Files, last: nat)
    requires StrictlyAscending(fids) && (forall f :: f in fids <==> f in files) && IsLast(files, last)
    ensures last == if |fids| == 0 then 0 else fids[|fids| - 1]
  {
    if |fids| == 0 {
      assert last !in fids;
    } else {
      assert fids[|fids| - 1] in fids;
      var i :| 0 <= i < |fids| && fids[i] == last;
    }
  }

  /** Files on disk: each is at least as long as the maximum size, and holds entries. */
  ghost predicate OnDisk(disk: map<nat, Bytes>, files: Files, maxSize: nat, last: nat) {
    && maxSize > 0 && disk.Keys == files.Keys && IsLast(files, last)
    && forall f :: f in files ==> Mirrors(disk[f], files[f]) && maxSize <= files[f].length
  }

  lemma OnDiskReadable(disk: map<nat, Bytes>, files: Files, maxSize: nat, last: nat, s: Store)
    requires OnDisk(disk, files, maxSize, last) && s.maxSize == maxSize && s.files == ReadableFiles(files) && s.active == last
    ensures FilesWf(s) && forall f :: f in files ==> Mirrors(disk[f], s.files[f])
  {
    hide Used, RoomedPrefix, Ahead;
    forall f | f in files
      ensures Mirrors(disk[f], s.files[f]) && Used(s.files[f].entries) <= s.files[f].length
    {
      AheadTruncated(disk[f], files[f].entries);
      AheadFits(disk[f], Readable(files[f]));
    }
  }

  lemma GetDelIs(s: Store, key: Bytes, now: int)
    requires Openable(s) && Storable(Tombstone(key))
    ensures Execute(s, Command.GetDel(key), now)
            == var val := S.Get(s, key, now);
               if Broken(val) then (s, Failed(val))
               else if !val.Found? || (key == [] && val.value == []) then (s, Nil)
               else (Remove(s, key), Value(val.value))
  {
    hide Remove, S.Get, Storable;
  }

  /** LazyDB, restricted to its strings. */
  class Database {
    const maxSize: nat
    var active: LogHandle?
    var archived: map<nat, LogHandle>
    var index: Index
    var ledger: Ledger
    var queue: seq<Discarded>

    /** What the files hold, as entries. */
    ghost var files: Files

    ghost function State(): Store
      reads this
    {
      Store(maxSize, files, if active == null then 0 else active.fid, index, ledger, queue)
    }

    ghost predicate Valid()
      reads this, active, archived.Values
    {
      && Wf(State()) && NodesAtEntries(State())
      && (active != null ==>
            && active.fid in files && active.fid !in archived && active.fid > 0
            && active.offset == Used(files[active.fid].entries) && Mirrors(active.bytes, files[active.fid]))
      && archived.Keys == files.Keys - {State().active}
      && forall f :: f in archived ==> archived[f].fid == f && Mirrors(archived[f].bytes, files[f])
    }

    constructor (maxSize: nat)
      requires maxSize > 0
      ensures Valid() && State() == Empty(maxSize)
    {
      this.maxSize := maxSize;
      active := null;
      archived, index, ledger, queue, files := map[], map[], Fresh(), [], map[];
    }

    /** Creates the log file `fid` and makes it the active one (getActiveLogFile, writeLogEntry). */
    method OpenNew(fid: nat)
      requires Valid() && fid == State().active + 1
      modifies this
      ensures Valid() && active != null && fresh(active)
      ensures State() == WithFile(old(State()), fid)
      ensures forall f :: f in old(archived) ==> f in archived && archived[f] == old(archived[f])
    {
      hide Size, EntryCrc, Used, EntryAt, Mirrors, Log, SetTotal, Wf, NodesAtEntries, Grows;
      NewFile(State(), fid);
      NewFileNodes(State(), fid);
      NewMirrors(maxSize);
      var lf := new LogHandle(fid, maxSize);
      if active != null {
        archived := archived[active.fid := active];
      }
      files := files[fid := File([], maxSize)];
      ledger := SetTotal(ledger, fid, maxSize % U32);
      active := lf;
    }

    /** Writes the encoded entry at the end of the active file. */
    method AppendToActive(e: Entry, buf: Bytes)
      requires Valid() && active != null && Storable(e) && buf == Encode(e)
      modifies this`files, active
      ensures Valid() && State() == Taken(old(State()), e)
      ensures active == old(active) && archived == old(archived) && active.offset == old(active.offset) + Size(e)
    {
      hide Encode, EntryCrc, HeaderSize, Used, Mirrors, Extended, Wf, NodesAtEntries, WriteAt;
      TakenFacts(State(), e);
      TakenMirrors(files[active.fid], e, active.bytes);
      active.Write(buf);
      files := files[active.fid := Extended(files[active.fid], e)];
    }

    /** writeLogEntry */
    method WriteLogEntry(e: Entry) returns (pos: Node)
      requires Valid() && Storable(e)
      modifies this, if active == null then {} else {active}
      ensures Valid() && State() == S.Write(old(State()), e) && pos == Where(old(State()), e)
      ensures active != null && (active == old(active) || fresh(active))
      ensures forall f :: f in old(archived) ==> f in archived && archived[f] == old(archived[f])
    {
      hide Encode, EntryCrc, HeaderSize, Used, Mirrors, Extended, Wf, NodesAtEntries, SetTotal;
      if active == null {
        OpenNew(1);
      }
      var buf, size := EncodeEntry(e);
      if active.offset + size > maxSize {
        OpenNew(active.fid + 1);
      }
      assert State() == Rolled(old(State()), e);
      var writeAt := active.offset;
      AppendToActive(e, buf[..]);
      pos := Node(active.fid, writeAt, size, e.expiredAt);
    }

    /** writeLogEntry and updateIndexTree. */
    method PutEntry(e: Entry, send: bool)
      requires Valid() && Storable(e)
      modifies this, if active == null then {} else {active}
      ensures Valid() && State() == Put(old(State()), e, send)
      ensures active != null && (active == old(active) || fresh(active))
      ensures forall f :: f in old(archived) ==> f in archived && archived[f] == old(archived[f])
    {
      hide Size, EntryCrc, Used, Mirrors, Wf, NodesAtEntries, S.Write, Where;
      OpenableWf(State());
      WriteKeeps(State(), e);
      var pos := WriteLogEntry(e);
      PutNodes(old(State()), e, send);
      if send && e.key in index && index[e.key].size != 0 {
        queue := queue + [Discarded(index[e.key].fid, index[e.key].size)];
      }
      index := index[e.key := pos];
    }

    /** The write of Delete and GetDel: tombstone, index, and both sizes to the discard queue. */
    method DeleteEntry(key: Bytes)
      requires Valid() && Storable(Tombstone(key))
      modifies this, if active == null then {} else {active}
      ensures Valid() && State() == Remove(old(State()), key)
    {
      hide EntryCrc, Used, Mirrors, Wf, NodesAtEntries, S.Write;
      OpenableWf(State());
      WriteKeeps(State(), Tombstone(key));
      var pos := WriteLogEntry(Tombstone(key));
      RemoveNodes(old(State()), key);
      if key in index && index[key].size != 0 {
        queue := queue + [Discarded(index[key].fid, index[key].size)];
      }
      index := index - {key};
      queue := queue + [Discarded(pos.fid, pos.size)];
    }

    /** getValue and readLogEntry at clock reading `now`. */
    method GetValue(key: Bytes, now: int) returns (r: GetResult)
      requires Valid()
      ensures r == S.Get(State(), key, now)
    {
      hide ReadEntry, EntryCrc, Used, Mirrors, EntryAt;
      if key !in index {
        return KeyNotFound;
      }
      var n := index[key];
      if Expired(n.expiredAt, now) {
        return KeyNotFound;
      }
      var lf := active;
      if lf == null || lf.fid != n.fid {
        if n.fid !in archived {
          return LogFileNotExist;
        }
        lf := archived[n.fid];
      }
      ReadMirrored(lf.bytes, files[n.fid], n.offset);
      var read := lf.ReadLogEntry(n.offset);
      if !read.Read? {
        return ReadError;
      }
      if read.entry.stat == S_DELETE || Expired(read.entry.expiredAt, now) {
        return KeyNotFound;
      }
      r := Found(read.entry.value);
    }

    // --- the commands of str.go ---

    method Set(key: Bytes, value: Bytes, ghost now: int)
      requires Valid() && Storable(Plain(key, value))
      modifies this, if active == null then {} else {active}
      ensures Valid() && (State(), Done) == Execute(old(State()), Command.Set(key, value), now)
    {
      hide Put, Valid;
      PutEntry(Plain(key, value), true);
    }

    method SetEX(key: Bytes, value: Bytes, expiredAt: int64, ghost now: int)
      requires Valid() && Storable(Expiring(key, value, expiredAt))
      modifies this, if active == null then {} else {active}
      ensures Valid() && (State(), Done) == Execute(old(State()), Command.SetEX(key, value, expiredAt), now)
    {
      hide Put, Valid;
      PutEntry(Expiring(key, value, expiredAt), true);
    }

    method Get(key: Bytes, now: int) returns (r: GetResult)
      requires Valid()
      ensures r == S.Get(State(), key, now)
    {
      r := GetValue(key, now);
    }

    method SetNX(key: Bytes, value: Bytes, now: int) returns (reply: Reply)
      requires Valid() && Storable(Plain(key, value))
      modifies this, if active == null then {} else {active}
      ensures Valid() && (State(), reply) == Execute(old(State()), Command.SetNX(key, value), now)
    {
      hide Put, S.Get, Valid;
      var val := GetValue(key, now);
      if Broken(val) {
        return Failed(val);
      }
      if val.Found? && (key != [] || val.value != []) {
        return Done;
      }
      PutEntry(Plain(key, value), true);
      reply := Done;
    }

    method MSet(args: seq<Bytes>, ghost now: int) returns (reply: Reply)
      requires Valid() && PairsStorable(args)
      modifies this, if active == null then {} else {active}
      ensures Valid() && (State(), reply) == Execute(old(State()), Command.MSet(args), now)
    {
      hide Put, Valid, Storable;
      if |args| == 0 || |args| % 2 == 1 {
        return InvalidParam;
      }
      ValidOpenable();
      var i := 0;
      while i < |args|
        invariant 0 <= i <= |args| && i % 2 == 0 && Valid() && Openable(State())
        invariant active == old(active) || (active != null && fresh(active))
        invariant PairsStorable(args[i..]) && PutPairs(State(), args[i..]) == PutPairs(old(State()), args)
      {
        ghost var rest := args[i..];
        assert rest[0] == args[i] && rest[1] == args[i + 1] && rest[2..] == args[i + 2..];
        RestStorable(rest);
        PutEntry(Plain(args[i], args[i + 1]), true);
        i := i + 2;
      }
      reply := Done;
    }

    lemma ValidOpenable()
      requires Valid()
      ensures Openable(State()) && (active != null ==> active.fid != 0)
    {
    }

    method Append(key: Bytes, value: Bytes, now: int) returns (reply: Reply)
      requires Valid() && Writable(Command.Append(key, value), Current(State(), key, now))
      modifies this, if active == null then {} else {active}
      ensures Valid() && (State(), reply) == Execute(old(State()), Command.Append(key, value), now)
    {
      hide Put, S.Get, Valid, Storable;
      var val := GetValue(key, now);
      if Broken(val) {
        return Failed(val);
      }
      var whole := if val.Found? then val.value + value else value;
      PutEntry(Plain(key, whole), true);
      reply := Done;
    }

    method Delete(key: Bytes, ghost now: int)
      requires Valid() && Storable(Tombstone(key))
      modifies this, if active == null then {} else {active}
      ensures Valid() && (State(), Done) == Execute(old(State()), Command.Delete(key), now)
    {
      hide Remove, Valid;
      DeleteEntry(key);
    }

    method GetDel(key: Bytes, now: int) returns (reply: Reply)
      requires Valid() && Storable(Tombstone(key))
      modifies this, if active == null then {} else {active}
      ensures Valid() && (State(), reply) == Execute(old(State()), Command.GetDel(key), now)
    {
      hide Remove, S.Get, Valid, Execute;
      ValidOpenable();
      GetDelIs(State(), key, now);
      var val := GetValue(key, now);
      if Broken(val) {
        return Failed(val);
      }
      if !val.Found? || (key == [] && val.value == []) {
        return Nil;
      }
      DeleteEntry(key);
      reply := Value(val.value);
    }

    /** incrDecrBy, for Incr, Decr, IncrBy and DecrBy. */
    method IncrDecrBy(key: Bytes, incr: int64, now: int) returns (reply: Reply)
      requires Valid() && Writable(Command.IncrBy(key, incr), Current(State(), key, now))
      modifies this, if active == null then {} else {active}
      ensures Valid() && (State(), reply) == Execute(old(State()), Command.IncrBy(key, incr), now)
    {
      hide Put, S.Get, Valid, Storable, ParseInt, FormatInt;
      var val := GetValue(key, now);
      if Broken(val) {
        return Failed(val);
      }
      var text := if val.Found? && val.value != [] then val.value else [ZERO];
      var number := ParseInt(text);
      if number.None? {
        return WrongValueType;
      }
      if Rejected(number.value, incr) {
        return IntegerOverflow;
      }
      var sum := Wrap64(number.value + incr);
      PutEntry(Plain(key, FormatInt(sum)), true);
      reply := Number(sum);
    }

    /** listenUpdate: one value from the channel into the counters. */
    method ListenUpdate()
      requires Valid()
      modifies this
      ensures Valid() && State() == Drain(old(State()))
    {
      hide Mirrors, Used, EntryAt;
      if queue != [] {
        ledger := Incr(ledger, queue[0].fid, queue[0].size);
        queue := queue[1..];
      }
    }

    /** Close of the discard channel: the listener still receives what is buffered before it ends. */
    method Close()
      requires Valid()
      modifies this
      ensures Valid() && State() == Drained(old(State())) && queue == []
    {
      hide Valid, Drain;
      while queue != []
        invariant Valid() && Drained(State()) == Drained(old(State()))
        decreases |queue|
      {
        DrainShrinks(State());
        ListenUpdate();
      }
    }

    /** mergeStr: rewrites the entry if the index points at it. */
    method MergeStr(fid: nat, at: nat, e: Entry, now: int)
      requires Valid() && Storable(e) && !MergeDrops(e, now)
      modifies this, if active == null then {} else {active}
      ensures Valid() && State() == MergeOne(old(State()), fid, at, e, now)
      ensures active == old(active) || (active != null && fresh(active))
      ensures forall f :: f in old(archived) ==> f in archived && archived[f] == old(archived[f])
    {
      hide Put, Valid;
      if e.key in index && index[e.key].fid == fid && index[e.key].offset == at {
        PutEntry(e, false);
      }
    }

    /** What is known of an archived file. */
    lemma ArchivedFacts(fid: nat)
      requires Valid() && active != null
      ensures Openable(State()) && (fid in archived <==> fid in files && fid != active.fid)
      ensures fid in archived ==> archived[fid] != active && Mirrors(archived[fid].bytes, files[fid])
    {
    }

    /** The loop of Merge. It reads an archived file, so nothing it appends can make that file longer. */
    method RewriteLive(fid: nat, clock: nat -> int)
      requires Valid() && active != null && fid in archived && fid in files
      modifies this, active
      ensures Valid() && State() == MergeLoop(old(State()), fid, Readable(old(files[fid])), 0, clock, 0)
      ensures active != null && fid in archived
    {
      hide Valid, State, Used, EntryAt, ReadEntry, MergeOne, MergeLoop, RoomedPrefix, Ahead;
      ArchivedFacts(fid);
      var lf := archived[fid];
      ghost var start, f := State(), files[fid];
      var offset, i := 0, 0;
      ghost var rest := f.entries;
      while true
        invariant Valid() && active != null && (active == old(active) || fresh(active))
        invariant fid in archived && archived[fid] == lf && lf.bytes == old(lf.bytes) && |lf.bytes| == f.length
        invariant AllStorable(rest) && Ahead(lf.bytes, rest, offset) && Openable(State())
        invariant MergeLoop(State(), fid, RoomedPrefix(rest, offset, f.length), offset, clock, i)
                  == MergeLoop(start, fid, Readable(f), 0, clock, 0)
        decreases |lf.bytes| - offset
      {
        ArchivedFacts(fid);
        AheadReads(lf.bytes, rest, offset);
        var next := lf.ReadLogEntry(offset);
        if !next.Read? {
          MergeEnds(State(), fid, rest, offset, f.length, clock, i);
          break;
        }
        var at := offset;
        MergeTurn(State(), fid, rest, at, f.length, clock, i);
        offset := offset + next.size;
        if !MergeDrops(next.entry, clock(i)) {
          MergeStr(fid, at, next.entry, clock(i));
          ArchivedFacts(fid);
        } else {
          MergeSkips(State(), fid, at, next.entry, clock(i));
        }
        rest := rest[1..];
        i := i + 1;
      }
    }

    /** Deletes an archived log file and clears its counter. */
    method RemoveFile(fid: nat)
      requires Valid() && active != null && fid in archived
      modifies this
      ensures Valid() && State() == DropFile(old(State()), fid)
    {
      hide Mirrors, Used, EntryAt, Wf, NodesAtEntries;
      DropNodes(State(), fid);
      archived := archived - {fid};
      files := files - {fid};
      ledger := Clear(ledger, fid);
    }

    /** Merge on the file `fid`; `clock(i)` is what the i-th reading of the clock gives. */
    method Merge(fid: nat, ratio: real, clock: nat -> int)
      requires Valid()
      modifies this, if active == null then {} else {active}
      ensures Valid() && State() == S.Merge(old(State()), fid, ratio, clock)
    {
      hide Valid, MergeLoop, SetTotal, Candidate, Readable;
      ValidOpenable();
      if active == null {
        OpenNew(1);
      }
      ArchivedFacts(fid);
      if fid !in archived || !Candidate(ledger, fid, active.fid, ratio) {
        return;
      }
      RewriteLive(fid, clock);
      RemoveFile(fid);
    }

    /** The replay loop of buildIndexFromLogFiles on one file; returns where it stopped. */
    method ReplayFile(lf: LogHandle, ghost f: File) returns (offset: nat)
      requires Mirrors(lf.bytes, f)
      modifies this`index
      ensures RecsStorable(Recs(lf.fid, Readable(f), 0)) && index == Replay(old(index), Recs(lf.fid, Readable(f), 0))
      ensures offset == Used(Readable(f))
    {
      hide ReadEntry, EntryCrc, HeaderSize, Ahead, Replay1, RoomedPrefix, Size, Used;
      RecsAreStorable(lf.fid, Readable(f), 0);
      offset := 0;
      ghost var rest := f.entries;
      while true
        invariant AllStorable(rest) && Ahead(lf.bytes, rest, offset)
        invariant offset + Used(RoomedPrefix(rest, offset, f.length)) == Used(Readable(f))
        invariant RecsStorable(Recs(lf.fid, RoomedPrefix(rest, offset, f.length), offset))
        invariant Replay(index, Recs(lf.fid, RoomedPrefix(rest, offset, f.length), offset)) == Replay(old(index), Recs(lf.fid, Readable(f), 0))
        decreases |lf.bytes| - offset
      {
        AheadReads(lf.bytes, rest, offset);
        ReplayTurn(lf.fid, rest, offset, f.length);
        var next := lf.ReadLogEntry(offset);
        if !next.Read? {
          break;
        }
        ghost var recs := Recs(lf.fid, RoomedPrefix(rest, offset, f.length), offset);
        assert recs[0] == Rec(lf.fid, offset, next.entry) && recs[1..] == Recs(lf.fid, RoomedPrefix(rest[1..], offset + next.size, f.length), offset + next.size);
        index := Replay1(index, Rec(lf.fid, offset, next.entry));
        offset := offset + next.size;
        rest := rest[1..];
      }
    }

    /** buildLogFiles: a handle per file in ascending order of fid, the last one becoming active. */
    method BuildLogFiles(disk: map<nat, Bytes>, fids: seq<nat>)
      requires StrictlyAscending(fids) && active == null && archived == map[]
      requires forall f :: f in fids <==> f in disk
      modifies this`active, this`archived
      ensures if |fids| == 0 then active == null && archived == map[]
              else && active != null && fresh(active) && active.fid == fids[|fids| - 1] && active.bytes == disk[active.fid]
                   && archived.Keys == disk.Keys - {active.fid}
                   && forall f :: f in archived ==> archived[f].fid == f && archived[f].bytes == disk[f]
    {
      if |fids| == 0 {
        return;
      }
      var last := |fids| - 1;
      var i := 0;
      while i < last
        invariant 0 <= i <= last && active == null
        invariant forall f :: f in archived <==> f in fids[..i]
        invariant forall f :: f in archived ==> f in disk && archived[f].fid == f && archived[f].bytes == disk[f]
      {
        var lf := new LogHandle.Existing(fids[i], disk[fids[i]]);
        archived := archived[fids[i] := lf];
        assert fids[..i + 1] == fids[..i] + [fids[i]];
        i := i + 1;
      }
      active := new LogHandle.Existing(fids[last], disk[fids[last]]);
      LastSplit(fids);
    }

    /** buildIndexFromLogFiles: replays the files in the same order and restores the write offset. */
    method BuildIndexFromLogFiles(fids: seq<nat>)
      requires StrictlyAscending(fids) && index == map[] && IsLast(files, if active == null then 0 else active.fid)
      requires forall f :: f in fids <==> f in files
      requires if |fids| == 0 then active == null else active != null && active.fid == fids[|fids| - 1] && Mirrors(active.bytes, files[active.fid])
      requires forall f :: f in files && (active == null || f != active.fid) ==> f in archived && archived[f].fid == f && Mirrors(archived[f].bytes, files[f])
      modifies this`index, if active == null then {} else {active}
      ensures index == Rebuilt(State().(files := ReadableFiles(files)))
      ensures active != null ==> active.offset == Used(Readable(files[active.fid])) && active.bytes == old(active.bytes)
    {
      hide Mirrors, Roomed, Used, Size, EntryCrc, Replay, Log, Readable, Recs;
      ghost var seenFiles := ReadableFiles(files);
      LogOfNothing(seenFiles);
      ghost var seen := 0;
      var i := 0;
      while i < |fids|
        invariant 0 <= i <= |fids| && seen == (if i == 0 then 0 else fids[i - 1])
        invariant active != null ==> active.bytes == old(active.bytes)
        invariant RecsStorable(Log(seenFiles, seen)) && index == Replay(map[], Log(seenFiles, seen))
        invariant i == |fids| > 0 ==> active.offset == Used(Readable(files[active.fid]))
      {
        var fid := fids[i];
        var lf := if i == |fids| - 1 then active else archived[fid];
        var offset := ReplayFile(lf, files[fid]);
        Between(fids, i);
        LogNext(seenFiles, seen, fid);
        ReplayAppend(map[], Log(seenFiles, seen), FileLog(seenFiles, fid));
        if i == |fids| - 1 {
          active.offset := offset;
        }
        LogIsStorable(seenFiles, fid);
        seen := fid;
        i := i + 1;
      }
    }

    /** The two passes of Open over what is on disk. */
    method ReadDisk(disk: map<nat, Bytes>, ghost last: nat)
      requires active == null && archived == map[] && index == map[] && OnDisk(disk, files, maxSize, last)
      modifies this`active, this`archived, this`index
      ensures State().active == last && (active != null ==> active.fid != 0)
      ensures index == Rebuilt(State().(files := ReadableFiles(files)))
      ensures active != null ==> fresh(active) && active.bytes == disk[last] && active.offset == Used(Readable(files[last]))
      ensures archived.Keys == disk.Keys - {last} && forall f :: f in archived ==> archived[f].fid == f && archived[f].bytes == disk[f]
    {
      hide Used, Rebuilt, Mirrors, ReadableFiles, Readable;
      var fids := Sorted(disk.Keys);
      BuildLogFiles(disk, fids);
      LastFid(fids, files, last);
      BuildIndexFromLogFiles(fids);
    }

    /** Entries that cannot be read are forgotten. */
    method Load(disk: map<nat, Bytes>, ghost last: nat)
      requires active == null && archived == map[] && index == map[] && OnDisk(disk, files, maxSize, last)
      modifies this`active, this`archived, this`index, this`files
      ensures Valid() && files == ReadableFiles(old(files)) && State().active == last && index == Rebuilt(State())
    {
      hide Used, EntryAt, Wf, FilesWf, NodesAtEntries, Rebuilt, Mirrors, ReadableFiles, Readable;
      ReadDisk(disk, last);
      OnDiskReadable(disk, files, maxSize, last, State().(files := ReadableFiles(files)));
      SameKeys(files);
      files := ReadableFiles(files);
      RebuiltWf(State());
    }

    /** Open on the files and the table that a closed database `was` left. */
    constructor Open(maxSize: nat, disk: map<nat, Bytes>, ledger: Ledger, ghost was: Store)
      requires OnDisk(disk, was.files, maxSize, was.active) && maxSize == was.maxSize && ledger == Drained(was).ledger
      ensures Valid() && State() == Reopen(was)
    {
      this.maxSize := maxSize;
      active, archived, index, queue := null, map[], map[], [];
      this.ledger, this.files := Reload(ledger), was.files;
      new;
      hide Used, Valid, Rebuilt, Mirrors, ReadableFiles, Drained, Reload;
      Load(disk, was.active);
      RebuiltFromFiles(State(), was.(files := ReadableFiles(was.files)));
    }
  }

  lemma DrainShrinks(s: Store)
    requires s.queue != []
    ensures |Drain(s).queue| < |s.queue| && Drained(s) == Drained(Drain(s))
  {
  }

  lemma SameKeys(files: Files)
    ensures ReadableFiles(files).Keys == files.Keys
    ensures forall f :: f in files ==> ReadableFiles(files)[f] == File(Readable(files[f]), files[f].length)
  {
  }

  /** One turn of the replay loop. */
  lemma ReplayTurn(fid: nat, rest: Entries, offset: nat, length: nat)
    ensures if rest == [] || offset + MAX_HEADER_SIZE > length
            then RoomedPrefix(rest, offset, length) == [] && Used([]) == 0 && Recs(fid, [], offset) == []
            else var more := RoomedPrefix(rest[1..], offset + Size(rest[0]), length);
                 && Used(RoomedPrefix(rest, offset, length)) == Size(rest[0]) + Used(more)
                 && Recs(fid, RoomedPrefix(rest, offset, length), offset) == [Rec(fid, offset, rest[0])] + Recs(fid, more, offset + Size(rest[0]))
  {
    hide Size;
    if rest != [] && offset + MAX_HEADER_SIZE <= length {
      RecsOfPrefix(fid, rest, offset, length);
      assert RoomedPrefix(rest, offset, length)[1..] == RoomedPrefix(rest[1..], offset + Size(rest[0]), length);
    }
  }
}
