/**
 What Get answers after the string commands (str.go), in terms of what it answered before: on one store, and along
 histories in which a key is set once or only appended to.
 */
module Answers {
  import opened Bytes
  import opened Varint
  import opened LogEntry
  import opened LogFile
  import opened Decimal
  import opened Store
  import opened StoreLog
  import opened MergeReads
  import opened Refinement
  import opened Recovery
  import opened Runs
  import opened Restarts
  import opened Folding
  import opened Counters

  // --- one write, one key ---

  /** The key written: its value up to and including the second of its expiry, unless its place cannot be read. */
  lemma PutGet(s: Store, e: Entry, send: bool, now: int)
    requires Wf(s) && Storable(e) && e.stat != S_DELETE
    ensures var r := Put(s, e, send);
            Get(r, e.key, now) == if e.expiredAt != 0 && now > e.expiredAt then KeyNotFound
                                  else if HasRoom(r, e.key) then Found(e.value) else ReadError
  {
    hide Size, HeaderSize, EntryCrc, Used, EntryAt, Write, Send;
    WriteFacts(s, e);
  }

  /** Any other key: the same answer as before, whatever it is. */
  lemma PutElsewhere(s: Store, m: Contents, merged: int, e: Entry, send: bool, k: Bytes, now: int)
    requires Refines(s, m, merged) && Storable(e) && k != e.key
    ensures Get(Put(s, e, send), k, now) == Get(s, k, now) && (HasRoom(Put(s, e, send), k) <==> HasRoom(s, k))
  {
    hide Size, HeaderSize, EntryCrc, Write, Where, Send, Get, Refines, HasRoom;
    RefinesOpenable(s, m, merged);
    NodeAnswers(s, m, merged, Put(s, e, send), e, k, now);
  }

  lemma RemoveElsewhere(s: Store, m: Contents, merged: int, key: Bytes, k: Bytes, now: int)
    requires Refines(s, m, merged) && Storable(Tombstone(key)) && k != key
    ensures Get(Remove(s, key), k, now) == Get(s, k, now) && (HasRoom(Remove(s, key), k) <==> HasRoom(s, k))
  {
    hide Size, HeaderSize, EntryCrc, Write, Where, Send, Get, Refines, HasRoom;
    RefinesOpenable(s, m, merged);
    NodeAnswers(s, m, merged, Remove(s, key), Tombstone(key), k, now);
  }

  /** A read through a node that stays does not see what is appended. */
  lemma NodeAnswers(s: Store, m: Contents, merged: int, r: Store, e: Entry, k: Bytes, now: int)
    requires Refines(s, m, merged) && Storable(e) && r.files == Write(s, e).files
    requires (k in r.index <==> k in s.index) && (k in s.index ==> r.index[k] == s.index[k])
    ensures Get(r, k, now) == Get(s, k, now) && (HasRoom(r, k) <==> HasRoom(s, k))
  {
    hide Size, HeaderSize, EntryCrc, EntryAt, Write, Where, Log, Used;
    WriteFacts(s, e);
    if k in s.index && s.index[k].fid in s.files {
      var n := s.index[k];
      assert NodeOk(s, m, merged, k);
      WritePlace(s, e);
      EntryAtPrefix(s.files[n.fid].entries, r.files[n.fid].entries, n.offset);
    }
  }

  // --- the commands ---

  /** The answer for a key with this value and expiry, if its place can be read. */
  function Shown(s: Store, k: Bytes, v: Bytes): GetResult {
    if HasRoom(s, k) then Found(v) else ReadError
  }

  lemma SetAnswers(s: Store, k: Bytes, v: Bytes, now: int, later: int)
    requires Wf(s) && Openable(s) && Writable(Set(k, v), None)
    ensures var (r, reply) := Execute(s, Set(k, v), now); reply == Done && Get(r, k, later) == Shown(r, k, v)
  {
    hide Get, Put, Storable;
    PutGet(s, Plain(k, v), true, later);
  }

  /** SetEX: the value is there up to and including second `t`, and never for a `t` of 0 does it go away. */
  lemma SetEXAnswers(s: Store, k: Bytes, v: Bytes, t: int64, now: int, later: int)
    requires Wf(s) && Openable(s) && Writable(SetEX(k, v, t), None)
    ensures var (r, reply) := Execute(s, SetEX(k, v, t), now);
            reply == Done && Get(r, k, later) == if later <= t || t == 0 then Shown(r, k, v) else KeyNotFound
  {
    hide Get, Put, Storable;
    PutGet(s, Expiring(k, v, t), true, later);
  }

  /** A read that fails makes the commands fail that depend on it, and changes nothing. */
  lemma BrokenAnswers(s: Store, c: Command, k: Bytes, now: int)
    requires Openable(s) && Writable(c, OldValue(s, c, now)) && Broken(Get(s, k, now))
    requires c.SetNX? || c.Append? || c.GetDel? || c.IncrBy?
    requires c.key == k
    ensures Execute(s, c, now) == (s, Failed(Get(s, k, now)))
  {
    hide Get, Storable, Put, Remove;
  }

  /** SetNX writes exactly when there is no value; the nil that reading an entry without key and value gives is none. */
  lemma SetNXAnswers(s: Store, k: Bytes, v: Bytes, now: int, later: int)
    requires Wf(s) && Openable(s) && Writable(SetNX(k, v), OldValue(s, SetNX(k, v), now))
    ensures var (r, reply) := Execute(s, SetNX(k, v), now);
            && (Get(s, k, now) == KeyNotFound ==> reply == Done && Get(r, k, later) == Shown(r, k, v))
            && (forall u :: Get(s, k, now) == Found(u) && (k != [] || u != []) ==> (r, reply) == (s, Done))
            && (Get(s, k, now) == Found([]) && k == [] ==> reply == Done && Get(r, k, later) == Shown(r, k, v))
  {
    hide Get, Put, Storable;
    PutGet(s, Plain(k, v), true, later);
  }

  /** Append puts its argument behind the old value. */
  lemma AppendAnswers(s: Store, k: Bytes, v: Bytes, now: int, later: int)
    requires Wf(s) && Openable(s) && Writable(Append(k, v), OldValue(s, Append(k, v), now))
    ensures var (r, reply) := Execute(s, Append(k, v), now);
            && (forall u :: Get(s, k, now) == Found(u) ==> reply == Done && Get(r, k, later) == Shown(r, k, u + v))
            && (Get(s, k, now) == KeyNotFound ==> reply == Done && Get(r, k, later) == Shown(r, k, v))
  {
    hide Get, Put, Storable;
    PutGet(s, Plain(k, Appended(OldValue(s, Append(k, v), now), v)), true, later);
  }

  lemma DeleteAnswers(s: Store, k: Bytes, now: int, later: int)
    requires Openable(s) && Writable(Delete(k), None)
    ensures var (r, reply) := Execute(s, Delete(k), now); reply == Done && Get(r, k, later) == KeyNotFound
  {
    hide Write, Where, Storable, Send;
  }

  /** GetDel answers with the value that Get finds, and then there is none. */
  lemma GetDelAnswers(s: Store, k: Bytes, now: int, later: int)
    requires Openable(s) && Writable(GetDel(k), OldValue(s, GetDel(k), now))
    ensures var (r, reply) := Execute(s, GetDel(k), now);
            && (forall u :: Get(s, k, now) == Found(u) && (k != [] || u != []) ==> reply == Value(u) && Get(r, k, later) == KeyNotFound)
            && (Get(s, k, now) == KeyNotFound || (Get(s, k, now) == Found([]) && k == []) ==> (r, reply) == (s, Nil))
  {
    hide Get, Remove, Storable;
    RemoveGet(s, k, later);
  }

  lemma RemoveGet(s: Store, k: Bytes, now: int)
    requires Openable(s) && Storable(Tombstone(k))
    ensures Get(Remove(s, k), k, now) == KeyNotFound
  {
    hide Write, Where, Storable, Send;
  }

  /** The text that a counter command starts from: a missing value counts as none. */
  function TextNow(g: GetResult): Bytes {
    if g.Found? then g.value else []
  }

  /** Counter commands add to the number that the old text is in decimal, and refuse a text that is none and a sum outside int64. */
  lemma IncrByAnswers(s: Store, k: Bytes, d: int64, now: int, later: int)
    requires Wf(s) && Openable(s) && Writable(IncrBy(k, d), OldValue(s, IncrBy(k, d), now)) && !Broken(Get(s, k, now))
    ensures var (r, reply) := Execute(s, IncrBy(k, d), now);
            var text := TextNow(Get(s, k, now));
            var sum := d + if text == [] then 0 else SignedValue(text);
            if text != [] && ParseInt(text).None? then (r, reply) == (s, WrongValueType)
            else if sum < -0x8000_0000_0000_0000 || sum > 0x7fff_ffff_ffff_ffff then (r, reply) == (s, IntegerOverflow)
            else reply == Number(sum) && Get(r, k, later) == Shown(r, k, FormatInt(sum))
  {
    hide Get, Put, Storable, Incremented, SignedValue, ParseInt, FormatInt;
    var text := TextNow(Get(s, k, now));
    IncrementedIff(text, d);
    assert OldValue(s, IncrBy(k, d), now) == if Get(s, k, now).Found? then Some(text) else None;
    var i := Incremented(text, d);
    if i.Counted? {
      PutGet(s, Plain(k, i.text), true, later);
    }
  }

  /** MSet: of the pairs with one key the last one counts. */
  lemma {:induction false} PairsAnswer(s: Store, m: Contents, merged: int, args: seq<Bytes>, i: nat, later: int)
    requires Refines(s, m, merged) && Openable(s) && |args| % 2 == 0 && PairsStorable(args)
    requires i < |args| && i % 2 == 0 && forall j :: i < j < |args| && j % 2 == 0 ==> args[j] != args[i]
    ensures var r := PutPairs(s, args); Get(r, args[i], later) == Shown(r, args[i], args[i + 1])
    decreases |args|
  {
    hide Refines, Get, Put, Storable, PairsStorable, HasRoom;
    FirstPair(args);
    var e, rest := Plain(args[0], args[1]), args[2..];
    PutRefines(s, m, merged, e, true);
    var t := Put(s, e, true);
    if i > 0 {
      assert args[i] == rest[i - 2] && args[i + 1] == rest[i - 1];
      forall j | i - 2 < j < |rest| && j % 2 == 0
        ensures rest[j] != rest[i - 2]
      {
        assert rest[j] == args[j + 2] && (j + 2) % 2 == 0;
      }
      PairsAnswer(t, SetCell(m, e), merged, rest, i - 2, later);
    } else {
      forall j | 0 <= j < |rest| && j % 2 == 0
        ensures rest[j] != e.key
      {
        assert rest[j] == args[j + 2] && (j + 2) % 2 == 0;
      }
      RefinesFiles(s, m, merged);
      PutGet(s, e, true, later);
      PairsElsewhereGet(t, SetCell(m, e), merged, rest, e.key, later);
    }
  }

  lemma FirstPair(args: seq<Bytes>)
    requires |args| >= 2 && PairsStorable(args)
    ensures Storable(Plain(args[0], args[1])) && PairsStorable(args[2..])
  {
    hide Storable;
    forall i | 0 <= i < |args[2..]| - 1 && i % 2 == 0
      ensures Storable(Plain(args[2..][i], args[2..][i + 1]))
    {
      assert (i + 2) % 2 == 0;
    }
  }

  lemma {:induction false} PairsElsewhereGet(s: Store, m: Contents, merged: int, args: seq<Bytes>, k: Bytes, later: int)
    requires Refines(s, m, merged) && Openable(s) && |args| % 2 == 0 && PairsStorable(args)
    requires forall j :: 0 <= j < |args| && j % 2 == 0 ==> args[j] != k
    ensures var r := PutPairs(s, args); Get(r, k, later) == Get(s, k, later) && (HasRoom(r, k) <==> HasRoom(s, k))
    decreases |args|
  {
    hide Refines, Get, Put, Storable, PairsStorable, HasRoom;
    if |args| >= 2 {
      FirstPair(args);
      var e, rest := Plain(args[0], args[1]), args[2..];
      forall j | 0 <= j < |rest| && j % 2 == 0
        ensures rest[j] != k
      {
        assert rest[j] == args[j + 2] && (j + 2) % 2 == 0;
      }
      PutRefines(s, m, merged, e, true);
      PutElsewhere(s, m, merged, e, true, k, later);
      PairsElsewhereGet(Put(s, e, true), SetCell(m, e), merged, rest, k, later);
    }
  }

  /** MSet with pairs, and without. */
  lemma MSetAnswers(s: Store, m: Contents, merged: int, args: seq<Bytes>, now: int, later: int)
    requires Refines(s, m, merged) && Openable(s) && Writable(MSet(args), None)
    ensures var (r, reply) := Execute(s, MSet(args), now);
            if args == [] || |args| % 2 == 1 then (r, reply) == (s, InvalidParam)
            else reply == Done && forall i :: 0 <= i < |args| && i % 2 == 0 && LastOf(args, i) ==> Get(r, args[i], later) == Shown(r, args[i], args[i + 1])
  {
    hide Refines, Get, Put, Storable, PairsStorable, Shown, PutPairs;
    if |args| % 2 == 0 {
      forall i | 0 <= i < |args| && i % 2 == 0 && LastOf(args, i)
        ensures Get(PutPairs(s, args), args[i], later) == Shown(PutPairs(s, args), args[i], args[i + 1])
      {
        PairsAnswer(s, m, merged, args, i, later);
      }
    }
  }

  /** No later pair has the same key. */
  predicate LastOf(args: seq<Bytes>, i: nat)
    requires i < |args|
  {
    forall j :: i < j < |args| && j % 2 == 0 ==> args[j] != args[i]
  }

  /** No command changes what Get answers for a key that it does not name. */
  lemma ElsewhereAnswers(s: Store, m: Contents, merged: int, c: Command, now: int, k: Bytes, later: int)
    requires Refines(s, m, merged) && Openable(s) && Writable(c, OldValue(s, c, now)) && !Writes(c, k)
    ensures Get(Execute(s, c, now).0, k, later) == Get(s, k, later)
  {
    hide Refines, Get, Put, Remove, PutPairs, OldValue, Incremented, Storable, PairsStorable, HasRoom;
    var was := OldValue(s, c, now);
    match c
    case Set(key, v) => PutElsewhere(s, m, merged, Plain(key, v), true, k, later);
    case SetEX(key, v, t) => PutElsewhere(s, m, merged, Expiring(key, v, t), true, k, later);
    case SetNX(key, v) => PutElsewhere(s, m, merged, Plain(key, v), true, k, later);
    case MSet(args) => if |args| % 2 == 0 { PairsElsewhereGet(s, m, merged, args, k, later); }
    case Append(key, v) => PutElsewhere(s, m, merged, Plain(key, Appended(was, v)), true, k, later);
    case Delete(key) => RemoveElsewhere(s, m, merged, key, k, later);
    case GetDel(key) => RemoveElsewhere(s, m, merged, key, k, later);
    case IncrBy(key, d) =>
      var i := Incremented(TextOf(was), d);
      if i.Counted? { PutElsewhere(s, m, merged, Plain(key, i.text), true, k, later); }
  }

  // --- along histories ---

  predicate Unwritten(ev: Event, k: Bytes) {
    ev.Runs? ==> !Writes(ev.command, k)
  }

  /** The plain map has this cell for the key, or lost it to a merge or a restart after its time. */
  predicate Keeps(w: World, k: Bytes, c: Cell) {
    Fades(w.contents, map[k := c], w.merged, k)
  }

  lemma NextKeeps(w: World, ev: Event, k: Bytes, c: Cell)
    requires Refines(w.store, w.contents, w.merged) && LiveFound(w.store, k) && Allowed(w.store, ev)
    requires Keeps(w, k, c) && Spared(w, ev, k) && Unwritten(ev, k)
    ensures Keeps(Next(w, ev), k, c)
  {
    hide Refines, Execute, Apply, Merge, Reopen, Drain, Recovered, Hidden, DurableAt, Allowed, MergedContents, LiveFound, HasRoom, Stranded;
    match ev
    case Runs(command, now) => ApplyElsewhere(w.contents, command, k, now);
    case Drains =>
    case Merges(fid, ratio, clock) => MergeKeepsCell(w, ev, k);
    case Reopens => RestartSpares(w.store, w.contents, w.merged, k);
  }

  lemma {:induction false} HistoryKeeps(ws: seq<World>, evs: seq<Event>, maxSize: nat, epoch: int, i: nat, j: nat, k: Bytes, c: Cell)
    requires History(ws, evs, maxSize, epoch) && i <= j <= |evs| && Keeps(ws[i], k, c)
    requires forall n :: i <= n < j ==> Spared(ws[n], evs[n], k) && Unwritten(evs[n], k)
    ensures Keeps(ws[j], k, c)
    decreases j
  {
    hide Refines, Allowed, Next, Keeps, Spared, Unwritten, LiveFound;
    if i < j {
      HistoryKeeps(ws, evs, maxSize, epoch, i, j - 1, k, c);
      HistoryGood(ws, evs, maxSize, epoch, j - 1);
      PointFound(ws, evs, maxSize, epoch, j - 1, k);
      NextKeeps(ws[j - 1], evs[j - 1], k, c);
    }
  }

  /** What Get answers for a key with this cell: its value up to and including the second of its expiry. */
  lemma KeptAnswers(w: World, k: Bytes, v: Bytes, t: int64, now: int)
    requires Refines(w.store, w.contents, w.merged) && Keeps(w, k, Cell(v, t))
    ensures forall x :: Get(w.store, k, now) == Found(x) <==> x == v && (t == 0 || now <= t) && HasRoom(w.store, k)
    ensures t == 0 || w.merged < t ==> k in w.store.index && w.store.index[k].fid in w.store.files
  {
    hide Get, WrittenAt;
    GetRefines(w.store, w.contents, w.merged, k, now);
    assert k in w.store.index ==> NodeOk(w.store, w.contents, w.merged, k);
  }

  predicate Sets(c: Command, k: Bytes, v: Bytes, t: int64) {
    c == SetEX(k, v, t) || (c == Set(k, v) && t == 0)
  }

  /**
   A key that Set or SetEX wrote and nothing wrote since, whatever commands, drains, merges and restarts there were: Get
   finds exactly that value, up to and including second `t` and for ever without an expiry, if its place can be read.
   The file of that place is there unless a merge has read a clock of `t` or later.
   */
  lemma SetLasts(ws: seq<World>, evs: seq<Event>, maxSize: nat, epoch: int, i: nat, j: nat, k: Bytes, v: Bytes, t: int64, now: int)
    requires History(ws, evs, maxSize, epoch) && i < j <= |evs| && evs[i].Runs? && Sets(evs[i].command, k, v, t)
    requires forall n :: i < n < j ==> Spared(ws[n], evs[n], k) && Unwritten(evs[n], k)
    ensures var w := ws[j];
            && (forall x :: Get(w.store, k, now) == Found(x) <==> x == v && (t == 0 || now <= t) && HasRoom(w.store, k))
            && (t == 0 || w.merged < t ==> k in w.store.index && w.store.index[k].fid in w.store.files)
  {
    hide Refines, Get, Spared, Unwritten, Keeps, HasRoom;
    FirstKept(ws[i], evs[i], k, v, t);
    HistoryKeeps(ws, evs, maxSize, epoch, i + 1, j, k, Cell(v, t));
    HistoryGood(ws, evs, maxSize, epoch, j);
    KeptAnswers(ws[j], k, v, t, now);
  }

  lemma FirstKept(w: World, ev: Event, k: Bytes, v: Bytes, t: int64)
    requires Allowed(w.store, ev) && ev.Runs? && Sets(ev.command, k, v, t)
    ensures Keeps(Next(w, ev), k, Cell(v, t))
  {
    hide Put, Storable, Get;
  }

  // --- appending ---

  /** What event `n` puts behind the text of the key. */
  ghost function Piece(ws: seq<World>, evs: seq<Event>, maxSize: nat, epoch: int, k: Bytes, n: nat): Bytes
    requires History(ws, evs, maxSize, epoch) && n < |evs|
  {
    if evs[n].Runs? && evs[n].command.Append? && evs[n].command.key == k && ReplyAt(ws[n], evs[n]) == Done
    then evs[n].command.value else []
  }

  /** The arguments of the accepted appends from event `i` up to event `j`, in order. */
  ghost function Joined(ws: seq<World>, evs: seq<Event>, maxSize: nat, epoch: int, k: Bytes, i: nat, j: nat): Bytes
    requires History(ws, evs, maxSize, epoch) && i <= j <= |evs|
    decreases j
  {
    if i == j then [] else Joined(ws, evs, maxSize, epoch, k, i, j - 1) + Piece(ws, evs, maxSize, epoch, k, j - 1)
  }

  /** The key has this text without an expiry, or there is no value for the empty text. */
  predicate TextAt(m: Contents, k: Bytes, text: Bytes) {
    if k in m then m[k] == Cell(text, 0) else text == []
  }

  predicate OnlyAppends(ev: Event, k: Bytes) {
    ev.Runs? ==> ev.command.Append? || !Writes(ev.command, k)
  }

  /** One append on the plain map. */
  lemma ApplyAppends(m: Contents, k: Bytes, text: Bytes, v: Bytes, now: int)
    requires TextAt(m, k, text)
    ensures Apply(m, Append(k, v), now) == (m[k := Cell(text + v, 0)], Done)
  {
    assert [] + v == v;
  }

  lemma EventAppends(w: World, ev: Event, k: Bytes, text: Bytes)
    requires Refines(w.store, w.contents, w.merged) && LiveFound(w.store, k) && Allowed(w.store, ev)
    requires TextAt(w.contents, k, text) && Spared(w, ev, k) && OnlyAppends(ev, k)
    ensures var piece := if ev.Runs? && ev.command.Append? && ev.command.key == k && ReplyAt(w, ev) == Done then ev.command.value else [];
            TextAt(Next(w, ev).contents, k, text + piece)
  {
    hide Refines, Execute, Apply, Merge, Reopen, Drain, OldValue, Writable, Recovered, Hidden, DurableAt, MergedContents, LiveFound, HasRoom, Stranded;
    assert text + [] == text;
    match ev
    case Runs(c, now) =>
      if Writes(c, k) {
        ExecuteRefines(w.store, w.contents, w.merged, c, now);
        ApplyAppends(w.contents, k, text, c.value, now);
      } else {
        ApplyElsewhere(w.contents, c, k, now);
      }
    case Drains =>
    case Merges(fid, ratio, clock) => MergeKeepsCell(w, ev, k);
    case Reopens => TextRestarts(w.store, w.contents, w.merged, k, text);
  }

  lemma TextRestarts(s: Store, m: Contents, merged: int, k: Bytes, text: Bytes)
    requires Refines(s, m, merged) && LiveFound(s, k) && (HasRoom(s, k) || (DurableAt(s, k) && !Hidden(s, k))) && TextAt(m, k, text)
    ensures TextAt(Recovered(s), k, text)
  {
    hide Refines, DurableAt, Hidden, Recovered, LiveFound, HasRoom;
    RestartSpares(s, m, merged, k);
  }

  lemma {:induction false} AppendsJoin(ws: seq<World>, evs: seq<Event>, maxSize: nat, epoch: int, k: Bytes, text: Bytes, i: nat, j: nat)
    requires History(ws, evs, maxSize, epoch) && i <= j <= |evs| && TextAt(ws[i].contents, k, text)
    requires forall n :: i <= n < j ==> Spared(ws[n], evs[n], k) && OnlyAppends(evs[n], k)
    ensures TextAt(ws[j].contents, k, text + Joined(ws, evs, maxSize, epoch, k, i, j))
    decreases j
  {
    hide Refines, Allowed, Next, Spared, OnlyAppends, TextAt, Execute, LiveFound;
    if i == j {
      assert text + [] == text;
    } else {
      AppendsJoin(ws, evs, maxSize, epoch, k, text, i, j - 1);
      HistoryGood(ws, evs, maxSize, epoch, j - 1);
      PointFound(ws, evs, maxSize, epoch, j - 1, k);
      var before := Joined(ws, evs, maxSize, epoch, k, i, j - 1);
      EventAppends(ws[j - 1], evs[j - 1], k, text + before);
      assert (text + before) + Piece(ws, evs, maxSize, epoch, k, j - 1) == text + (before + Piece(ws, evs, maxSize, epoch, k, j - 1));
    }
  }

  /**
   Appends. A key with some text, or none, that is then only appended to, along any part of any history: Get finds that
   text and the accepted arguments joined behind it in order, if its place can be read, and nothing else.
   */
  lemma AppendsAnswer(ws: seq<World>, evs: seq<Event>, maxSize: nat, epoch: int, k: Bytes, text: Bytes, i: nat, j: nat, now: int)
    requires History(ws, evs, maxSize, epoch) && i <= j <= |evs| && TextAt(ws[i].contents, k, text)
    requires forall n :: i <= n < j ==> Spared(ws[n], evs[n], k) && OnlyAppends(evs[n], k)
    ensures forall x :: Get(ws[j].store, k, now) == Found(x)
                        <==> x == text + Joined(ws, evs, maxSize, epoch, k, i, j) && HasRoom(ws[j].store, k)
  {
    hide Refines, Get, Spared, OnlyAppends, Next, Allowed;
    AppendsJoin(ws, evs, maxSize, epoch, k, text, i, j);
    HistoryGood(ws, evs, maxSize, epoch, j);
    CellAnswers(ws[j], k, text + Joined(ws, evs, maxSize, epoch, k, i, j), now);
  }

  /** Counters. What Get finds of a key that only counter commands write is the decimal text of the sum. */
  lemma CountersAnswer(ws: seq<World>, evs: seq<Event>, maxSize: nat, epoch: int, k: Bytes, v: int64, i: nat, j: nat, now: int)
    requires History(ws, evs, maxSize, epoch) && i <= j <= |evs|
    requires CounterAt(ws[i].contents, k, v) && forall n :: i <= n < j ==> OnlyCounts(ws[n], evs[n], k)
    ensures forall x :: Get(ws[j].store, k, now) == Found(x)
                        <==> x == FormatInt(v + Total(ws, evs, maxSize, epoch, k, i, j)) && HasRoom(ws[j].store, k)
  {
    hide Refines, Get, OnlyCounts, Next, Allowed, FormatInt, ParseInt, Total, Execute;
    CounterSums(ws, evs, maxSize, epoch, k, v, i, j);
    HistoryGood(ws, evs, maxSize, epoch, j);
    CellAnswers(ws[j], k, FormatInt(v + Total(ws, evs, maxSize, epoch, k, i, j)), now);
  }

  lemma CellAnswers(w: World, k: Bytes, text: Bytes, now: int)
    requires Refines(w.store, w.contents, w.merged) && (k in w.contents ==> w.contents[k] == Cell(text, 0))
    ensures forall x :: Get(w.store, k, now) == Found(x) <==> x == text && HasRoom(w.store, k)
  {
    hide Get, WrittenAt;
    GetRefines(w.store, w.contents, w.merged, k, now);
    assert k in w.store.index ==> NodeOk(w.store, w.contents, w.merged, k);
  }
}
