/**
 The string database as a state machine over its log: files of entries, the index into them, the
 dead-byte ledger and the queue that feeds it (db.go, index.go, str.go).
 */
module Store {
  import opened Bytes
  import opened Varint
  import opened LogEntry
  import opened LogFile
  import opened Ledger
  import opened Decimal

  /** The entries of one file. */
  type Entries = es: seq<Entry> | AllStorable(es)

  /** A file: the entries written so far, in a file of `length` bytes. */
  datatype File = File(entries: Entries, length: nat)

  /** Value in db.go: what the index keeps for a key. */
  datatype Node = Node(fid: nat, offset: nat, size: nat, expiredAt: int64)

  /** What sendDiscard puts on the channel. */
  datatype Discarded = Discarded(fid: nat, size: nat)

  type Files = map<nat, File>
  type Index = map<Bytes, Node>

  /** `active` is 0 until the first file exists; the files other than the active one are archived. */
  datatype Store = Store(maxSize: nat, files: Files, active: nat, index: Index, ledger: Ledger, queue: seq<Discarded>)

  function Empty(maxSize: nat): Store {
    Store(maxSize, map[], 0, map[], Fresh(), [])
  }

  // --- writing ---

  function WithFile(s: Store, fid: nat): Store {
    s.(files := s.files[fid := File([], s.maxSize)], active := fid,
       ledger := SetTotal(s.ledger, fid, s.maxSize % U32))
  }

  /** getActiveLogFile: the first use creates file 1. */
  function EnsureActive(s: Store): Store {
    if s.active == 0 then WithFile(s, 1) else s
  }

  /** There is an active file. */
  predicate Opened(s: Store) {
    s.active != 0 && s.active in s.files
  }

  predicate Openable(s: Store) {
    s.active != 0 ==> s.active in s.files
  }

  function ActiveFile(s: Store): File
    requires Opened(s)
  {
    s.files[s.active]
  }

  /** The rollover of writeLogEntry: a new active file if the entry would exceed the maximum size. */
  function Rolled(s: Store, e: Entry): (r: Store)
    requires Openable(s) && Storable(e)
    ensures Opened(r)
  {
    var s0 := EnsureActive(s);
    if Used(ActiveFile(s0).entries) + Size(e) > s0.maxSize then WithFile(s0, s0.active + 1) else s0
  }

  /** The index node for an entry about to be written. */
  function Where(s: Store, e: Entry): Node
    requires Openable(s) && Storable(e)
  {
    var r := Rolled(s, e);
    Node(r.active, Used(ActiveFile(r).entries), Size(e), e.expiredAt)
  }

  function Extended(f: File, e: Entry): File
    requires Storable(e)
  {
    File(f.entries + [e], Max(f.length, Used(f.entries) + Size(e)))
  }

  /** writeLogEntry */
  function Write(s: Store, e: Entry): (r: Store)
    requires Openable(s) && Storable(e)
    ensures Opened(r)
  {
    var r := Rolled(s, e);
    r.(files := r.files[r.active := Extended(ActiveFile(r), e)])
  }

  /** sendDiscard for the node that a key is losing. */
  function Send(queue: seq<Discarded>, index: Index, key: Bytes): seq<Discarded> {
    if key in index && index[key].size != 0 then queue + [Discarded(index[key].fid, index[key].size)] else queue
  }

  /** writeLogEntry followed by updateIndexTree. */
  function Put(s: Store, e: Entry, send: bool): (r: Store)
    requires Openable(s) && Storable(e)
    ensures Opened(r)
  {
    Write(s, e).(index := s.index[e.key := Where(s, e)],
                 queue := if send then Send(s.queue, s.index, e.key) else s.queue)
  }

  /** Delete: a tombstone in the log, the key out of the index, and both sizes onto the queue. */
  function Remove(s: Store, key: Bytes): (r: Store)
    requires Openable(s) && Storable(Tombstone(key))
    ensures Opened(r)
  {
    var t := Tombstone(key);
    Write(s, t).(index := s.index - {key},
                 queue := Send(s.queue, s.index, key) + [Discarded(Where(s, t).fid, Size(t))])
  }

  /** listenUpdate takes one value off the channel. */
  function Drain(s: Store): Store {
    if s.queue == [] then s
    else s.(queue := s.queue[1..], ledger := Incr(s.ledger, s.queue[0].fid, s.queue[0].size))
  }

  // --- reading ---

  datatype GetResult = Found(value: Bytes) | KeyNotFound | LogFileNotExist | ReadError

  /** readLogEntry through an index node, on a file that holds entries. */
  function Fetch(s: Store, n: Node): (r: Option<Entry>)
    requires n.fid in s.files
  {
    if n.offset + MAX_HEADER_SIZE > s.files[n.fid].length then None else EntryAt(s.files[n.fid].entries, n.offset)
  }

  /** A timestamp of 0 never expires; reads compare with a strict less-than. */
  predicate Expired(expiredAt: int, now: int) {
    expiredAt != 0 && expiredAt < now
  }

  /** getValue at clock reading `now`. */
  function Get(s: Store, key: Bytes, now: int): GetResult {
    if key !in s.index then KeyNotFound
    else
      var n := s.index[key];
      if Expired(n.expiredAt, now) then KeyNotFound
      else if n.fid !in s.files then LogFileNotExist
      else
        match Fetch(s, n)
        case None => ReadError
        case Some(e) => if e.stat == S_DELETE || Expired(e.expiredAt, now) then KeyNotFound else Found(e.value)
  }

  // --- the commands of str.go ---

  datatype Command =
    | Set(key: Bytes, value: Bytes)
    | SetEX(key: Bytes, value: Bytes, expiredAt: int64)
    | SetNX(key: Bytes, value: Bytes)
    | MSet(args: seq<Bytes>)
    | Append(key: Bytes, value: Bytes)
    | Delete(key: Bytes)
    | GetDel(key: Bytes)
    | IncrBy(key: Bytes, incr: int64)

  datatype Reply = Done | Nil | Value(value: Bytes) | Number(number: int64) | InvalidParam | WrongValueType
                 | IntegerOverflow | Failed(why: GetResult)

  /** A read that the command reports as an error instead of treating the key as absent. */
  predicate Broken(r: GetResult) {
    r.LogFileNotExist? || r.ReadError?
  }

  /** The loop of MSet over its argument pairs. */
  function PutPairs(s: Store, args: seq<Bytes>): (r: Store)
    requires Openable(s) && |args| % 2 == 0 && PairsStorable(args)
    ensures Openable(r)
    decreases |args|
  {
    if |args| < 2 then s else PutPairs(Put(s, Plain(args[0], args[1]), true), args[2..])
  }

  predicate PairsStorable(args: seq<Bytes>) {
    forall i :: 0 <= i < |args| - 1 && i % 2 == 0 ==> Storable(Plain(args[i], args[i + 1]))
  }

  /** What a key reads as before a read-modify-write command; None if absent. */
  function Current(s: Store, key: Bytes, now: int): Option<Bytes> {
    match Get(s, key, now)
    case Found(v) => Some(v)
    case _ => None
  }

  function Appended(was: Option<Bytes>, value: Bytes): Bytes {
    if was.Some? then was.value + value else value
  }

  function TextOf(was: Option<Bytes>): Bytes {
    if was.Some? then was.value else []
  }

  /**
   The value that SetNX and GetDel see is nil: there is none, or it was read from an entry without any key and value
   bytes, for which ReadLogEntry leaves the value unset.
   */
  predicate IsNil(key: Bytes, was: Option<Bytes>) {
    was.None? || (key == [] && was.value == [])
  }

  /** What the command would write can be written: keys, values and expiry within the format's limits. */
  predicate Writable(c: Command, was: Option<Bytes>) {
    match c
    case Set(k, v) => Storable(Plain(k, v))
    case SetEX(k, v, t) => Storable(Expiring(k, v, t))
    case SetNX(k, v) => Storable(Plain(k, v))
    case MSet(args) => PairsStorable(args)
    case Append(k, v) => Storable(Plain(k, Appended(was, v)))
    case Delete(k) => Storable(Tombstone(k))
    case GetDel(k) => Storable(Tombstone(k))
    case IncrBy(k, d) =>
      var i := Incremented(TextOf(was), d);
      i.Counted? ==> Storable(Plain(k, i.text))
  }

  /** The key whose current value the command depends on. */
  function ReadsKey(c: Command): Option<Bytes> {
    match c
    case SetNX(k, _) => Some(k)
    case Append(k, _) => Some(k)
    case GetDel(k) => Some(k)
    case IncrBy(k, _) => Some(k)
    case _ => None
  }

  function OldValue(s: Store, c: Command, now: int): Option<Bytes> {
    if ReadsKey(c).Some? then Current(s, ReadsKey(c).value, now) else None
  }

  /** One command at clock reading `now`. */
  function Execute(s: Store, c: Command, now: int): (r: (Store, Reply))
    requires Openable(s) && Writable(c, OldValue(s, c, now))
    ensures Openable(r.0)
  {
    var was := OldValue(s, c, now);
    if ReadsKey(c).Some? && Broken(Get(s, ReadsKey(c).value, now)) then (s, Failed(Get(s, ReadsKey(c).value, now)))
    else
      match c
      case Set(k, v) => (Put(s, Plain(k, v), true), Done)
      case SetEX(k, v, t) => (Put(s, Expiring(k, v, t), true), Done)
      case SetNX(k, v) => if IsNil(k, was) then (Put(s, Plain(k, v), true), Done) else (s, Done)
      case MSet(args) => if |args| == 0 || |args| % 2 == 1 then (s, InvalidParam) else (PutPairs(s, args), Done)
      case Append(k, v) => (Put(s, Plain(k, Appended(was, v)), true), Done)
      case Delete(k) => (Remove(s, k), Done)
      case GetDel(k) => if IsNil(k, was) then (s, Nil) else (Remove(s, k), Value(was.value))
      case IncrBy(k, d) =>
        match Incremented(TextOf(was), d)
        case NotInteger => (s, WrongValueType)
        case Overflow => (s, IntegerOverflow)
        case Counted(n, text) => (Put(s, Plain(k, text), true), Number(n))
  }

  // --- merge ---

  /** Merge drops an entry whose time is up, with a less-or-equal where reads have a less-than. */
  predicate MergeDrops(e: Entry, now: int) {
    e.stat == S_DELETE || (e.expiredAt != 0 && e.expiredAt <= now)
  }

  /** The index points exactly at this place. */
  predicate PointsAt(index: Index, key: Bytes, fid: nat, offset: nat) {
    key in index && index[key].fid == fid && index[key].offset == offset
  }

  /** One turn of the merge loop: rewrite the entry if it is live and the index points at it (mergeStr). */
  function MergeOne(s: Store, fid: nat, offset: nat, e: Entry, now: int): (r: Store)
    requires Openable(s) && Storable(e)
    ensures Openable(r)
  {
    if !MergeDrops(e, now) && PointsAt(s.index, e.key, fid, offset) then Put(s, e, false) else s
  }

  /** The merge loop over the entries of file `fid` from `offset` on; `clock(i)` is its i-th reading. */
  function MergeLoop(s: Store, fid: nat, es: Entries, offset: nat, clock: nat -> int, i: nat): (r: Store)
    requires Openable(s)
    ensures Openable(r)
    decreases |es|
  {
    if es == [] then s
    else MergeLoop(MergeOne(s, fid, offset, es[0], clock(i)), fid, es[1..], offset + Size(es[0]), clock, i + 1)
  }

  /** Deletes the merged file and clears its counter. */
  function DropFile(s: Store, fid: nat): Store {
    s.(files := s.files - {fid}, ledger := Clear(s.ledger, fid))
  }

  /** Merge works on `fid` only if it is archived and a compaction candidate. */
  predicate Mergeable(s: Store, fid: nat, ratio: real) {
    fid in s.files && fid != s.active && Candidate(s.ledger, fid, s.active, ratio)
  }

  /** What the loop reads of a file: it stops early at an entry without room for a full header. */
  function Readable(f: File): Entries {
    RoomedPrefix(f.entries, 0, f.length)
  }

  function Merge(s: Store, fid: nat, ratio: real, clock: nat -> int): (r: Store)
    requires Openable(s)
  {
    var s0 := EnsureActive(s);
    if Mergeable(s0, fid, ratio) then DropFile(MergeLoop(s0, fid, Readable(s0.files[fid]), 0, clock, 0), fid) else s0
  }

  // --- replay ---

  /** All entries of the files up to `n`, oldest file first. */
  function Log(files: Files, n: nat): seq<Rec> {
    if n == 0 then [] else Log(files, n - 1) + FileLog(files, n)
  }

  function FileLog(files: Files, fid: nat): seq<Rec> {
    if fid in files then Recs(fid, files[fid].entries, 0) else []
  }

  predicate RecsStorable(recs: seq<Rec>) {
    forall i :: 0 <= i < |recs| ==> Storable(recs[i].entry)
  }

  /** buildStrIndex: the expiry of the node is left at 0. */
  function Replay1(index: Index, r: Rec): Index
    requires Storable(r.entry)
  {
    if r.entry.stat == S_DELETE then index - {r.entry.key}
    else index[r.entry.key := Node(r.fid, r.offset, Size(r.entry), 0)]
  }

  /** buildIndexFromLogFiles on the records read. */
  function Replay(index: Index, recs: seq<Rec>): Index
    requires RecsStorable(recs)
    decreases |recs|
  {
    if recs == [] then index else Replay(Replay1(index, recs[0]), recs[1..])
  }

  lemma {:induction false} RecsAreStorable(fid: nat, es: Entries, off: nat)
    ensures RecsStorable(Recs(fid, es, off))
    decreases |es|
  {
    if es != [] {
      RecsAreStorable(fid, es[1..], off + Size(es[0]));
    }
  }

  lemma {:induction false} LogIsStorable(files: Files, n: nat)
    ensures RecsStorable(Log(files, n))
  {
    if n > 0 {
      LogIsStorable(files, n - 1);
      if n in files {
        RecsAreStorable(n, files[n].entries, 0);
      }
    }
  }

  function Rebuilt(s: Store): Index {
    LogIsStorable(s.files, s.active);
    Replay(map[], Log(s.files, s.active))
  }

  /** Every entry of every file can be read back: what a replay or a merge needs to see the whole log. */
  predicate AllRoomed(s: Store) {
    forall f :: f in s.files ==> Roomed(s.files[f].entries, 0, s.files[f].length)
  }

  function Drained(s: Store): Store
    decreases |s.queue|
  {
    if s.queue == [] then s else Drained(Drain(s))
  }

  /** What a replay can see of the files. Entries without room are lost to it, and to the write offset it restores. */
  function ReadableFiles(files: Files): Files {
    map f | f in files :: File(Readable(files[f]), files[f].length)
  }

  /** Close and Open: the queue is drained, the table is rescanned and the index is rebuilt from what can be read. */
  function Reopen(s: Store): Store {
    var r := s.(files := ReadableFiles(s.files));
    r.(index := Rebuilt(r), ledger := Reload(Drained(s).ledger), queue := [])
  }
}
