/** The list commands (list.go) over the list log: index trees of places, one per list, and reads that can fail. */
module Lists {
  import opened Bytes
  import opened LogEntry
  import opened LogFile
  import opened Ledger
  import opened Store
  import opened StoreLog
  import opened Refinement
  import opened Recovery
  import opened MergeReads
  import opened Alike
  import opened ListDb
  import S = Store
  import L = ListDb

  /** listIndex.trees */
  type Forest = map<Bytes, Index>

  /** ErrEof is what reading an entry without room for a full header gives. */
  datatype Outcome<+T> = Ok(value: T) | ErrKeyNotFound | ErrWrongIndex | ErrEof

  /** What saveLMeta writes. */
  function MetaEntry(key: Bytes, head: nat, tail: nat): Entry
    requires head < U32 && tail < U32
  {
    Entry(key, MetaValue(head, tail), S_LIST_META, 0, 0, 0)
  }

  predicate FitsLog(key: Bytes, value: Bytes) {
    |key| + 4 < U32 && |value| < U32
  }

  lemma EntriesFit(key: Bytes, value: Bytes, s: nat)
    requires FitsLog(key, value) && s < U32
    ensures Storable(Plain(CellKey(key, s), value)) && Storable(Tombstone(CellKey(key, s)))
    ensures forall head: nat, tail: nat :: head < U32 && tail < U32 ==> Storable(MetaEntry(key, head, tail))
  {
    hide EntryCrc, HeaderSize, CellKey, MetaValue;
    HeaderFits(Plain(CellKey(key, s), value));
    HeaderFits(Tombstone(CellKey(key, s)));
    forall head: nat, tail: nat | head < U32 && tail < U32
      ensures Storable(MetaEntry(key, head, tail))
    {
      HeaderFits(MetaEntry(key, head, tail));
    }
  }

  // --- a tree of places and the values it leads to ---

  /** Every place of the tree holds an entry of its key. */
  predicate Placed(log: Store, tree: Index) {
    forall k :: k in tree ==> PlacedAt(log, tree[k], k)
  }

  predicate PlacedAt(log: Store, n: Node, k: Bytes) {
    Leads(log.files, n, k) && CellAt(log.files, n).expiredAt == 0
  }

  /** The values behind the places. */
  function Values(log: Store, tree: Index): Tree {
    map k | k in tree :: CellAt(log.files, tree[k]).value
  }

  /** The entry of the key can be read. */
  predicate Room(log: Store, tree: Index, k: Bytes) {
    HasRoom(log.(index := tree), k)
  }

  /** getValue through a tree. */
  lemma TreeRead(log: Store, tree: Index, k: Bytes, now: int)
    requires Placed(log, tree)
    ensures S.Get(log.(index := tree), k, now)
            == if k !in tree then KeyNotFound else if Room(log, tree, k) then Found(Values(log, tree)[k]) else ReadError
  {
    hide EntryAt, Size;
    if k in tree {
      assert PlacedAt(log, tree[k], k);
    }
  }

  /** The log has only grown, and no file has changed its length. */
  ghost predicate Later(log: Store, log': Store) {
    Wf(log') && forall f :: f in log.files ==> f in log'.files && log.files[f].entries <= log'.files[f].entries && log.files[f].length == log'.files[f].length
  }

  lemma LaterTransitive(a: Store, b: Store, c: Store)
    requires Later(a, b) && Later(b, c)
    ensures Later(a, c)
  {
    hide Wf;
    forall f | f in a.files
      ensures f in c.files && a.files[f].entries <= c.files[f].entries && a.files[f].length == c.files[f].length
    {
      var x, y, z := a.files[f].entries, b.files[f].entries, c.files[f].entries;
      assert z[..|x|] == y[..|x|];
    }
  }

  /** A tree keeps its meaning while the log grows. */
  lemma TreeKept(log: Store, log': Store, tree: Index)
    requires Later(log, log') && Placed(log, tree)
    ensures Placed(log', tree) && Values(log', tree) == Values(log, tree)
    ensures forall k :: k in tree ==> (Room(log', tree, k) <==> Room(log, tree, k))
  {
    hide PlacedAt, CellAt, HasRoom, Later;
    forall k | k in tree
      ensures PlacedAt(log', tree[k], k) && CellAt(log'.files, tree[k]) == CellAt(log.files, tree[k]) && (Room(log', tree, k) <==> Room(log, tree, k))
    {
      assert PlacedAt(log, tree[k], k);
      PlaceKept(log, log', tree, k);
    }
  }

  lemma PlaceKept(log: Store, log': Store, tree: Index, k: Bytes)
    requires Later(log, log') && k in tree && PlacedAt(log, tree[k], k)
    ensures PlacedAt(log', tree[k], k) && CellAt(log'.files, tree[k]) == CellAt(log.files, tree[k]) && (Room(log', tree, k) <==> Room(log, tree, k))
  {
    hide EntryAt, Size, Wf;
    var n := tree[k];
    EntryAtPrefix(log.files[n.fid].entries, log'.files[n.fid].entries, n.offset);
  }

  lemma WriteLater(log: OpenStore, e: Entry)
    requires Wf(log) && Storable(e)
    ensures Later(log, Write(log, e))
  {
    hide Size, EntryAt, Used, Where, Write, Fits, Log;
    WriteFacts(log, e);
    if log.active != 0 {
      WritePlace(log, e);
    }
  }

  /** writeLogEntry and updateIndexTree. */
  function Saved(log: OpenStore, tree: Index, e: Entry): (r: (OpenStore, Index))
    requires Storable(e)
  {
    (Write(log, e), tree[e.key := Where(log, e)])
  }

  lemma SavedTree(log: OpenStore, tree: Index, e: Entry)
    requires Wf(log) && Placed(log, tree) && Storable(e) && e.stat != S_DELETE && e.expiredAt == 0
    ensures var (log', tree') := Saved(log, tree, e);
            Later(log, log') && Placed(log', tree') && Values(log', tree') == Values(log, tree)[e.key := e.value]
  {
    hide Size, EntryAt, Used, Write, Later, Where, PlacedAt, CellAt, Wf;
    WriteLater(log, e);
    TreeKept(log, Write(log, e), tree);
    SavedPlace(log, e);
    assert forall k :: k in tree ==> Values(Write(log, e), tree)[k] == Values(log, tree)[k];
  }

  lemma SavedPlace(log: OpenStore, e: Entry)
    requires Wf(log) && Storable(e) && e.stat != S_DELETE && e.expiredAt == 0
    ensures PlacedAt(Write(log, e), Where(log, e), e.key) && CellAt(Write(log, e).files, Where(log, e)).value == e.value
  {
    hide Size, EntryAt, Used, Write, Where;
    WriteFacts(log, e);
    WhereIs(log, e);
  }

  lemma WhereIs(log: OpenStore, e: Entry)
    requires Storable(e)
    ensures Where(log, e).size == Size(e) && Where(log, e).expiredAt == e.expiredAt
  {
    hide Used, Rolled;
  }

  // --- one list ---

  /** The tree and the log behind it hold the list. */
  ghost predicate HoldsList(log: Store, tree: Index, key: Bytes, l: seq<Bytes>, pushes: nat) {
    Placed(log, tree) && L.Holds(Values(log, tree), key, l, pushes) && |key| + 4 < U32
  }

  lemma ListKept(log: Store, log': Store, tree: Index, key: Bytes, l: seq<Bytes>, pushes: nat)
    requires Later(log, log') && HoldsList(log, tree, key, l, pushes)
    ensures HoldsList(log', tree, key, l, pushes)
  {
    hide L.Holds, Placed, Later, Values;
    TreeKept(log, log', tree);
  }

  lemma NewList(log: Store, key: Bytes)
    requires |key| + 4 < U32
    ensures HoldsList(log, map[], key, [], 0)
  {
    NewTreeHolds(key);
    assert Values(log, map[]) == map[];
  }

  /** push: the cell, then the counters. */
  function PushState(log: OpenStore, tree: Index, key: Bytes, arg: Bytes, left: bool, head: nat, tail: nat): (r: (OpenStore, Index))
    requires FitsLog(key, arg) && head < U32 && tail < U32
  {
    var s := if left then head else tail;
    EntriesFit(key, arg, s);
    var (log1, tree1) := Saved(log, tree, Plain(CellKey(key, s), arg));
    Saved(log1, tree1, if left then MetaEntry(key, U(head - 1), tail) else MetaEntry(key, head, U(tail + 1)))
  }

  lemma PushList(log: OpenStore, tree: Index, key: Bytes, l: seq<Bytes>, pushes: nat, arg: Bytes, left: bool)
    requires Wf(log) && HoldsList(log, tree, key, l, pushes) && FitsLog(key, arg) && pushes + 1 < 0x8000_0000
    ensures key in Values(log, tree) ==> |Values(log, tree)[key]| == 8
    ensures var (head, tail) := Meta(Values(log, tree), key);
            var (log', tree') := PushState(log, tree, key, arg, left, head, tail);
            Later(log, log') && HoldsList(log', tree', key, Pushed(l, arg, left), pushes + 1) && Wf(log')
  {
    hide L.Holds, Storable, CellKey, MetaValue, Later, Placed, Values, Wf, Meta, Pushed, Write, Where;
    HoldsMeta(Values(log, tree), key, l, pushes);
    var (head, tail) := Meta(Values(log, tree), key);
    var s := if left then head else tail;
    EntriesFit(key, arg, s);
    var e, m := Plain(CellKey(key, s), arg), if left then MetaEntry(key, U(head - 1), tail) else MetaEntry(key, head, U(tail + 1));
    SavedTree(log, tree, e);
    var (log1, tree1) := Saved(log, tree, e);
    LaterWf(log, log1);
    SavedTree(log1, tree1, m);
    var (log2, tree2) := Saved(log1, tree1, m);
    LaterWf(log1, log2);
    LaterTransitive(log, log1, log2);
    PushHolds(Values(log, tree), key, l, pushes, arg, left);
    assert Values(log2, tree2) == PushTree(Values(log, tree), key, arg, left);
  }

  lemma LaterWf(log: Store, log': Store)
    requires Later(log, log')
    ensures Wf(log')
  {
  }

  /** pop: a tombstone for the cell, then the counters. The tree keeps the popped cell. */
  function PopState(log: OpenStore, tree: Index, key: Bytes, left: bool, head: nat, tail: nat): (r: (OpenStore, Index))
    requires |key| + 4 < U32 && head < U32 && tail < U32
  {
    var s := if left then U(head + 1) else U(tail - 1);
    EntriesFit(key, [], s);
    Saved(Write(log, Tombstone(CellKey(key, s))), tree, if left then MetaEntry(key, U(head + 1), tail) else MetaEntry(key, head, U(tail - 1)))
  }

  lemma PopList(log: OpenStore, tree: Index, key: Bytes, l: seq<Bytes>, pushes: nat, left: bool)
    requires Wf(log) && HoldsList(log, tree, key, l, pushes) && l != []
    ensures key in Values(log, tree) ==> |Values(log, tree)[key]| == 8
    ensures var (head, tail) := Meta(Values(log, tree), key);
            var (log', tree') := PopState(log, tree, key, left, head, tail);
            && Later(log, log') && Wf(log') && HoldsList(log', tree', key, Popped(l, left), pushes) && |key| + 4 < U32
            && PopNumbers(head, tail, l, left) && HeadOf(Values(log, tree), key) == head
  {
    hide L.Holds, Storable, CellKey, MetaValue, Later, Placed, Values, Wf, Meta, Popped, Write, Where, CellIs, PopTree, U, PopNumbers;
    var vs := Values(log, tree);
    HoldsMeta(vs, key, l, pushes);
    HeadIsMeta(vs, key);
    var (head, tail) := Meta(vs, key);
    PopNumbersHold(head, tail, l, left);
    var s := if left then U(head + 1) else U(tail - 1);
    EntriesFit(key, [], s);
    var log1 := Write(log, Tombstone(CellKey(key, s)));
    WriteLater(log, Tombstone(CellKey(key, s)));
    LaterWf(log, log1);
    TreeKept(log, log1, tree);
    var m := if left then MetaEntry(key, U(head + 1), tail) else MetaEntry(key, head, U(tail - 1));
    SavedTree(log1, tree, m);
    var (log2, tree2) := Saved(log1, tree, m);
    LaterWf(log1, log2);
    LaterTransitive(log, log1, log2);
    PopHolds(vs, key, l, pushes, left);
    PoppedCounters(vs, key, l, pushes, left);
    assert Values(log2, tree2) == PopTree(vs, key, left);
  }

  /** Log and tree after pop, from what they were. */
  function AfterPop(log: OpenStore, tree: Index, key: Bytes, left: bool): (OpenStore, Index) {
    var vs := Values(log, tree);
    if |key| + 4 < U32 && (key in vs ==> |vs[key]| == 8) then PopState(log, tree, key, left, Meta(vs, key).0, Meta(vs, key).1) else (log, tree)
  }

  lemma AfterPopIs(log: OpenStore, tree: Index, key: Bytes, left: bool)
    requires |key| + 4 < U32 && (key in Values(log, tree) ==> |Values(log, tree)[key]| == 8)
    ensures AfterPop(log, tree, key, left) == PopState(log, tree, key, left, Meta(Values(log, tree), key).0, Meta(Values(log, tree), key).1)
    ensures key in AfterPop(log, tree, key, left).1
  {
    hide Values, Meta, Write, Where, MetaValue, CellKey, Storable;
  }

  /** The numbers that pop computes: the length before and after, and the sequence number of the end it takes. */
  predicate PopNumbers(head: nat, tail: nat, l: seq<Bytes>, left: bool)
    requires l != []
  {
    var head', tail' := if left then U(head + 1) else head, if left then tail else U(tail - 1);
    var i := if left then 0 else |l| - 1;
    && U(tail - head - 1) == |l| && U(tail' - head' - 1) == |Popped(l, left)|
    && (if left then U(head + 1) else U(tail - 1)) == head + 1 + i && L.End(l, left) == l[i]
  }

  lemma PopNumbersHold(head: nat, tail: nat, l: seq<Bytes>, left: bool)
    requires head + |l| + 1 == tail < U32 && l != []
    ensures PopNumbers(head, tail, l, left)
  {
  }

  lemma SetList(log: OpenStore, tree: Index, key: Bytes, l: seq<Bytes>, pushes: nat, s: nat, value: Bytes)
    requires Wf(log) && HoldsList(log, tree, key, l, pushes) && |value| < U32
    requires key in Values(log, tree) ==> |Values(log, tree)[key]| == 8
    requires var (head, tail) := Meta(Values(log, tree), key); head < s < tail && head + |l| + 1 == tail
    ensures Storable(Plain(CellKey(key, s), value))
    ensures var (log', tree') := Saved(log, tree, Plain(CellKey(key, s), value));
            && Later(log, log') && Wf(log') && HoldsList(log', tree', key, l[s - Meta(Values(log, tree), key).0 - 1 := value], pushes)
  {
    hide L.Holds, Storable, CellKey, Later, Placed, Values, Wf, Meta, Write, Where;
    EntriesFit(key, value, s);
    var e := Plain(CellKey(key, s), value);
    SavedTree(log, tree, e);
    var (log', tree') := Saved(log, tree, e);
    LaterWf(log, log');
    CellReplaced(Values(log, tree), key, l, pushes, s, value);
  }

  /** Elements are within the size limit, as they came from entries. */
  lemma ElementFits(log: Store, tree: Index, k: Bytes)
    requires Placed(log, tree) && k in tree
    ensures |Values(log, tree)[k]| < U32
  {
    hide EntryAt, Size;
    assert PlacedAt(log, tree[k], k);
  }

  // --- all lists ---

  /** A tree exists exactly for the lists that are not empty, and holds the list. */
  ghost predicate Represents(log: Store, trees: Forest, lists: map<Bytes, seq<Bytes>>, pushes: map<Bytes, nat>) {
    && trees.Keys == lists.Keys == pushes.Keys
    && forall k :: k in lists ==> lists[k] != [] && HoldsList(log, trees[k], k, lists[k], pushes[k])
  }

  lemma RepresentsAt(log: Store, trees: Forest, lists: map<Bytes, seq<Bytes>>, pushes: map<Bytes, nat>, key: Bytes)
    requires Represents(log, trees, lists, pushes)
    ensures (key in trees) == (key in lists) == (key in pushes)
    ensures key in trees ==> lists[key] != [] && HoldsList(log, trees[key], key, lists[key], pushes[key])
  {
    hide HoldsList;
  }

  /** What could be read can still be read after the log has grown, and nothing more. */
  lemma RoomsKept(log: Store, log': Store, trees: Forest, lists: map<Bytes, seq<Bytes>>, pushes: map<Bytes, nat>)
    requires Represents(log, trees, lists, pushes) && Later(log, log')
    ensures forall k :: k in trees && k in trees[k] ==> (Room(log', trees[k], k) <==> Room(log, trees[k], k))
  {
    hide Room, Later, L.Holds, Placed;
    forall k | k in trees && k in trees[k]
      ensures Room(log', trees[k], k) <==> Room(log, trees[k], k)
    {
      assert HoldsList(log, trees[k], k, lists[k], pushes[k]);
      TreeKept(log, log', trees[k]);
    }
  }

  lemma RepresentsUpdated(log: Store, log': Store, trees: Forest, lists: map<Bytes, seq<Bytes>>, pushes: map<Bytes, nat>,
                          key: Bytes, tree: Index, l: seq<Bytes>, n: nat)
    requires Represents(log, trees, lists, pushes) && Later(log, log') && l != [] && HoldsList(log', tree, key, l, n)
    ensures Represents(log', trees[key := tree], lists[key := l], pushes[key := n])
  {
    hide HoldsList, Later;
    forall k | k in lists && k != key
      ensures HoldsList(log', trees[k], k, lists[k], pushes[k])
    {
      ListKept(log, log', trees[k], k, lists[k], pushes[k]);
    }
  }

  lemma RepresentsRemoved(log: Store, log': Store, trees: Forest, lists: map<Bytes, seq<Bytes>>, pushes: map<Bytes, nat>, key: Bytes)
    requires Represents(log, trees, lists, pushes) && Later(log, log')
    ensures Represents(log', trees - {key}, lists - {key}, pushes - {key})
  {
    hide HoldsList, Later;
    forall k | k in lists && k != key
      ensures HoldsList(log', trees[k], k, lists[k], pushes[k])
    {
      ListKept(log, log', trees[k], k, lists[k], pushes[k]);
    }
  }

  function HeadOf(vs: Tree, key: Bytes): nat {
    if key in vs && |vs[key]| < 8 then 0 else Meta(vs, key).0
  }

  predicate CellReadable(log: Store, tree: Index, key: Bytes, s: int) {
    0 <= s < U32 && Room(log, tree, CellKey(key, s))
  }

  /** The entries of the cells from `a` up to `b` can all be read. */
  predicate CellsReadable(log: Store, tree: Index, key: Bytes, a: int, b: int) {
    forall s :: a <= s <= b ==> CellReadable(log, tree, key, s)
  }

  /** The writes of push. */
  method WritePush(log: OpenStore, tree: Index, key: Bytes, arg: Bytes, left: bool, head: nat, tail: nat)
    returns (log': OpenStore, tree': Index)
    requires FitsLog(key, arg) && head < U32 && tail < U32
    ensures (log', tree') == PushState(log, tree, key, arg, left, head, tail)
  {
    hide Storable, CellKey, MetaValue, Write, Where;
    var headSeq: int, tailSeq: int := head, tail;
    var s := if left then headSeq else tailSeq;
    EntriesFit(key, arg, s);
    var saved := Saved(log, tree, Plain(CellKey(key, s), arg));
    if left {
      headSeq := U(headSeq - 1);
    } else {
      tailSeq := U(tailSeq + 1);
    }
    saved := Saved(saved.0, saved.1, MetaEntry(key, headSeq, tailSeq));
    log', tree' := saved.0, saved.1;
  }

  class ListDatabase {
    /** The list log, of which only the files matter. */
    var log: OpenStore
    var trees: Forest

    ghost var lists: map<Bytes, seq<Bytes>>
    /** Pushes to each list since it was last empty. */
    ghost var pushes: map<Bytes, nat>

    ghost predicate Valid()
      reads this
    {
      Wf(log) && Represents(log, trees, lists, pushes)
    }

    ghost function List(key: Bytes): seq<Bytes>
      reads this
    {
      if key in lists then lists[key] else []
    }

    ghost function Pushes(key: Bytes): nat
      reads this
    {
      if key in pushes then pushes[key] else 0
    }

    /** The entry of the list's counters can be read. */
    ghost predicate MetaRoom(key: Bytes)
      reads this
    {
      key in trees && key in trees[key] ==> Room(log, trees[key], key)
    }

    /** The list's head counter. */
    ghost function Head(key: Bytes): nat
      requires key in trees
      reads this
    {
      HeadOf(Values(log, trees[key]), key)
    }

    /** The entry of the list's element `i` can be read. */
    ghost predicate CellRoom(key: Bytes, i: int)
      requires key in trees
      reads this
    {
      CellReadable(log, trees[key], key, Head(key) + 1 + i)
    }

    /** The counters that popping the list would write can be read. */
    ghost predicate RoomAfterPop(key: Bytes, left: bool)
      requires key in trees
      reads this
    {
      var after := AfterPop(log, trees[key], key, left);
      Room(after.0, after.1, key)
    }

    constructor (maxSize: nat)
      requires maxSize > 0
      ensures Valid() && lists == map[]
    {
      log, trees, lists, pushes := Empty(maxSize), map[], map[], map[];
    }

    /** lMeta: the counters, initial ones if there are none yet. */
    method LMeta(tree: Index, key: Bytes, ghost l: seq<Bytes>, ghost n: nat) returns (r: Outcome<(nat, nat)>)
      requires HoldsList(log, tree, key, l, n)
      ensures var vs := Values(log, tree);
              && (key in vs ==> |vs[key]| == 8)
              && r == if key in tree && !Room(log, tree, key) then ErrEof else Ok(Meta(vs, key))
      ensures r.Ok? ==> r.value.0 + |l| + 1 == r.value.1 < U32
    {
      hide L.Holds, Placed, S.Get, Room, Values;
      HoldsMeta(Values(log, tree), key, l, n);
      TreeRead(log, tree, key, 0);
      SameKeys(log, tree);
      var value := S.Get(log.(index := tree), key, 0);
      if Broken(value) {
        return ErrEof;
      }
      if value.Found? && |value.value| != 0 {
        return Ok((Le32(value.value[..4]), Le32(value.value[4..8])));
      }
      r := Ok((INITIAL_SEQ, INITIAL_SEQ + 1));
    }

    /** push, into a tree that is created first if need be; false where reading the counters fails. */
    method Push(key: Bytes, arg: Bytes, left: bool) returns (ok: bool)
      requires Valid() && FitsLog(key, arg) && Pushes(key) + 1 < 0x8000_0000
      modifies this
      ensures Valid() && ok == old(MetaRoom(key))
      ensures ok ==> lists == old(lists)[key := Pushed(old(List(key)), arg, left)] && pushes == old(pushes)[key := old(Pushes(key)) + 1]
      ensures !ok ==> log == old(log) && trees == old(trees) && lists == old(lists) && pushes == old(pushes)
    {
      hide HoldsList, Represents, Wf, Pushed, PushState, Room, Later, Values;
      RepresentsAt(log, trees, lists, pushes, key);
      var idxTree: Index := if key in trees then trees[key] else map[];
      ghost var l, n := List(key), Pushes(key);
      NewList(log, key);
      var meta := LMeta(idxTree, key, l, n);
      if !meta.Ok? {
        return false;
      }
      PushList(log, idxTree, key, l, n, arg, left);
      PushedNonempty(l, arg, left);
      var log', tree' := WritePush(log, idxTree, key, arg, left, meta.value.0, meta.value.1);
      RepresentsUpdated(log, log', trees, lists, pushes, key, tree', Pushed(l, arg, left), n + 1);
      log, trees, lists, pushes := log', trees[key := tree'], lists[key := Pushed(l, arg, left)], pushes[key := n + 1];
      ok := true;
    }

    /** LPush and RPush: one push per argument, up to the first that fails. `done` is how many succeeded. */
    method PushAll(key: Bytes, args: seq<Bytes>, left: bool) returns (ok: bool, ghost done: nat)
      requires Valid() && Pushes(key) + |args| < 0x8000_0000 && forall i :: 0 <= i < |args| ==> FitsLog(key, args[i])
      modifies this
      ensures Valid() && done <= |args| && (ok <==> done == |args|) && (!ok ==> !MetaRoom(key))
      ensures lists == if done == 0 then old(lists) else old(lists)[key := PushedAll(old(List(key)), args[..done], left)]
    {
      hide Represents, Wf, Pushed, Room;
      done := 0;
      var i := 0;
      while i < |args|
        invariant 0 <= i == done <= |args| && Valid() && Pushes(key) == old(Pushes(key)) + i
        invariant i == 0 ==> lists == old(lists) && pushes == old(pushes)
        invariant i > 0 ==> lists == old(lists)[key := PushedAll(old(List(key)), args[..i], left)]
      {
        var pushed := Push(key, args[i], left);
        if !pushed {
          return false, i;
        }
        PushedAllLast(old(List(key)), args, left, i);
        i := i + 1;
        done := i;
      }
      assert args[..i] == args;
      ok := true;
    }

    /** pop: None where the source returns nil without an error. The popped cell stays in the tree. */
    method Pop(key: Bytes, left: bool) returns (r: Outcome<Option<Bytes>>)
      requires Valid()
      modifies this
      ensures Valid()
      ensures var was, at := old(List(key)), if left then 0 else |old(List(key))| - 1;
              r == if was == [] then Ok(None)
                   else if !old(MetaRoom(key)) then ErrEof
                   else if !old(key in trees && CellRoom(key, at)) then Ok(None)
                   else Ok(Some(L.End(was, left)))
      ensures if r.Ok? && r.value.Some? then
                var rest := Popped(old(List(key)), left);
                && (rest == [] ==> lists == old(lists) - {key} && pushes == old(pushes) - {key})
                && (rest != [] ==> lists == old(lists)[key := rest] && pushes == old(pushes))
              else log == old(log) && trees == old(trees) && lists == old(lists) && pushes == old(pushes)
      ensures r.Ok? && r.value.Some? ==> |r.value.value| < U32
      ensures r.Ok? && r.value.Some? && Popped(old(List(key)), left) != [] ==>
                key in old(trees) && key in trees && (log, trees[key]) == AfterPop(old(log), old(trees)[key], key, left)
      ensures forall k :: k != key ==> MetaRoom(k) == old(MetaRoom(k))
    {
      hide HoldsList, Represents, Wf, Popped, PopState, AfterPop, L.End, Later, Values, CellReadable, S.Get, CellKey, Meta, HeadOf, Room, U;
      RepresentsAt(log, trees, lists, pushes, key);
      if key !in trees {
        return Ok(None);
      }
      var idxTree := trees[key];
      ghost var l, n := lists[key], pushes[key];
      var meta := LMeta(idxTree, key, l, n);
      if !meta.Ok? {
        return ErrEof;
      }
      PopList(log, idxTree, key, l, n, left);
      AfterPopIs(log, idxTree, key, left);
      var (headSeq, tailSeq) := meta.value;
      if U(tailSeq - headSeq - 1) <= 0 {
        return Ok(None);
      }
      var s := if left then U(headSeq + 1) else U(tailSeq - 1);
      CellRead(log, idxTree, key, l, n, s, if left then 0 else |l| - 1);
      var value := S.Get(log.(index := idxTree), CellKey(key, s), 0);
      if !value.Found? {
        return Ok(None);
      }
      var log', tree' := WritePop(log, idxTree, key, left, headSeq, tailSeq);
      headSeq, tailSeq := if left then U(headSeq + 1) else headSeq, if left then tailSeq else U(tailSeq - 1);
      if U(tailSeq - headSeq - 1) == 0 {
        var reset := ResetMeta(log', key, headSeq, tailSeq);
        LaterTransitive(log, log', reset);
        RepresentsRemoved(log, reset, trees, lists, pushes, key);
        LaterWf(log, reset);
        RoomsKept(log, reset, trees, lists, pushes);
        log, trees, lists, pushes := reset, trees - {key}, lists - {key}, pushes - {key};
      } else {
        RepresentsUpdated(log, log', trees, lists, pushes, key, tree', Popped(l, left), n);
        assert pushes[key := n] == pushes;
        RoomsKept(log, log', trees, lists, pushes);
        log, trees, lists := log', trees[key := tree'], lists[key := Popped(l, left)];
      }
      r := Ok(Some(value.value));
    }

    /**
     LMove, also from a list to itself. The element is lost exactly if the counters of the destination cannot be read: those
     before the call, or for the same list those that the pop writes.
     */
    method LMove(source: Bytes, dest: Bytes, sourceLeft: bool, destLeft: bool) returns (r: Outcome<Option<Bytes>>)
      requires Valid() && |dest| + 4 < U32 && Pushes(dest) + 1 < 0x8000_0000
      modifies this
      ensures Valid()
      ensures var was, at := old(List(source)), if sourceLeft then 0 else |old(List(source))| - 1;
              if was == [] || !old(MetaRoom(source)) || !old(source in trees && CellRoom(source, at)) then
                && lists == old(lists) && r == if was != [] && !old(MetaRoom(source)) then ErrEof else Ok(None)
              else
                var x, rest := L.End(was, sourceLeft), Popped(was, sourceLeft);
                var middle := if rest == [] then old(lists) - {source} else old(lists)[source := rest];
                var lost := if dest != source then !old(MetaRoom(dest)) else rest != [] && !old(source in trees && RoomAfterPop(source, sourceLeft));
                if lost then r == ErrEof && lists == middle
                else r == Ok(Some(x)) && lists == middle[dest := Pushed(if dest in middle then middle[dest] else [], x, destLeft)]
    {
      hide Represents, Wf, Popped, L.End, Pushed, Room, CellReadable, Values, HeadOf, CellKey, AfterPop;
      r := Pop(source, sourceLeft);
      if !r.Ok? || r.value.None? {
        return;
      }
      RepresentsAt(log, trees, lists, pushes, dest);
      PopMeta(old(log), old(trees), old(lists), old(pushes), source, sourceLeft);
      var ok := Push(dest, r.value.value, destLeft);
      if !ok {
        r := ErrEof;
      }
    }

    /** LLen: 0 also where the counters cannot be read. */
    method LLen(key: Bytes) returns (n: nat)
      requires Valid()
      ensures n == if MetaRoom(key) then |List(key)| else 0
    {
      hide HoldsList, Represents, Wf, Room, Values, Meta;
      RepresentsAt(log, trees, lists, pushes, key);
      if key !in trees {
        return 0;
      }
      var meta := LMeta(trees[key], key, lists[key], pushes[key]);
      if !meta.Ok? {
        return 0;
      }
      n := U(meta.value.1 - meta.value.0 - 1);
    }

    /** LIndex */
    method LIndex(key: Bytes, index: int) returns (r: Outcome<Bytes>)
      requires Valid()
      ensures r == if key !in lists then ErrKeyNotFound
                   else if !MetaRoom(key) then ErrEof
                   else match Position(|lists[key]|, Aliased(index))
                        case None => ErrWrongIndex
                        case Some(i) => if key in trees && CellRoom(key, i) then Ok(lists[key][i]) else ErrEof
    {
      hide HoldsList, Represents, Wf, Room, Values, Meta, Sequence, CellKey, S.Get, CellReadable, HeadOf;
      RepresentsAt(log, trees, lists, pushes, key);
      if key !in trees {
        return ErrKeyNotFound;
      }
      var idxTree := trees[key];
      var meta := LMeta(idxTree, key, lists[key], pushes[key]);
      if !meta.Ok? {
        return ErrEof;
      }
      var (headSeq, tailSeq) := meta.value;
      HeadIsMeta(Values(log, idxTree), key);
      SequenceSelects(headSeq, tailSeq, |lists[key]|, index);
      var s := Sequence(headSeq, tailSeq, index);
      if s <= headSeq || s >= tailSeq {
        return ErrWrongIndex;
      }
      CellRead(log, idxTree, key, lists[key], pushes[key], s, Position(|lists[key]|, Aliased(index)).value);
      var val := S.Get(log.(index := idxTree), CellKey(key, s), 0);
      r := if val.Found? then Ok(val.value) else ErrEof;
    }

    /** LSet */
    method LSet(key: Bytes, index: int, value: Bytes) returns (r: Outcome<()>)
      requires Valid() && |value| < U32
      modifies this
      ensures Valid()
      ensures var i := if key in old(lists) && old(MetaRoom(key)) then Position(|old(lists)[key]|, Aliased(index)) else None;
              && r == (if key !in old(lists) then ErrKeyNotFound else if !old(MetaRoom(key)) then ErrEof
                       else if i.None? then ErrWrongIndex else Ok(()))
              && lists == if i.Some? then old(lists)[key := old(lists)[key][i.value := value]] else old(lists)
    {
      hide HoldsList, Represents, Wf, Room, Values, Meta, Sequence, CellKey, Later, Storable, Write, Where;
      RepresentsAt(log, trees, lists, pushes, key);
      if key !in trees {
        return ErrKeyNotFound;
      }
      var idxTree := trees[key];
      ghost var l, n := lists[key], pushes[key];
      var meta := LMeta(idxTree, key, l, n);
      if !meta.Ok? {
        return ErrEof;
      }
      var (headSeq, tailSeq) := meta.value;
      SequenceSelects(headSeq, tailSeq, |l|, index);
      var s := Sequence(headSeq, tailSeq, index);
      if s <= headSeq || s >= tailSeq {
        return ErrWrongIndex;
      }
      SetList(log, idxTree, key, l, n, s, value);
      var saved := Saved(log, idxTree, Plain(CellKey(key, s), value));
      RepresentsUpdated(log, saved.0, trees, lists, pushes, key, saved.1, l[s - headSeq - 1 := value], n);
      assert pushes[key := n] == pushes;
      log, trees, lists := saved.0, trees[key := saved.1], lists[key := l[s - headSeq - 1 := value]];
      r := Ok(());
    }

    /** LRange: the slice between the bounds as the arithmetic counts them, if all of it can be read. */
    method LRange(key: Bytes, start: int, stop: int) returns (r: Outcome<seq<Bytes>>)
      requires Valid()
      ensures key !in lists ==> r == ErrKeyNotFound
      ensures key in lists && !MetaRoom(key) ==> r == ErrEof
      ensures key in lists && key in trees && MetaRoom(key) ==>
                var l, head := lists[key], Head(key);
                var tail := head + |l| + 1;
                var from, to := Bound(head, tail, start), Bound(head, tail, stop);
                var part := Slice(l, from, to);
                r == if part == [] then ErrWrongIndex
                     else if CellsReadable(log, trees[key], key, head + 1 + Max(0, from), head + 1 + if to < |l| then to else |l| - 1) then Ok(part) else ErrEof
    {
      hide HoldsList, Represents, Wf, Room, Values, Meta, Sequence, Slice, CellsReadable, HeadOf;
      RepresentsAt(log, trees, lists, pushes, key);
      if key !in trees {
        return ErrKeyNotFound;
      }
      var idxTree := trees[key];
      ghost var l := lists[key];
      var meta := LMeta(idxTree, key, l, pushes[key]);
      if !meta.Ok? {
        return ErrEof;
      }
      var (headSeq, tailSeq) := meta.value;
      HeadIsMeta(Values(log, idxTree), key);
      RangeIsSlice(l, headSeq, tailSeq, start, stop);
      var startSeq, stopSeq := Sequence(headSeq, tailSeq, start), Sequence(headSeq, tailSeq, stop);
      if startSeq > stopSeq || startSeq >= tailSeq || stopSeq <= headSeq {
        return ErrWrongIndex;
      }
      if startSeq <= headSeq {
        startSeq := headSeq + 1;
      }
      if stopSeq >= tailSeq {
        stopSeq := tailSeq - 1;
      }
      r := ReadCells(log, idxTree, key, l, pushes[key], headSeq, startSeq, stopSeq);
    }

    /** Keys of 7 bytes or more keep their counters readable; so do elements that make their entry 25 bytes long. */
    lemma LongEntriesRead(key: Bytes, i: nat)
      requires Valid() && key in trees && key in lists
      ensures |key| >= 7 ==> MetaRoom(key)
      ensures i < |lists[key]| && |key| + |lists[key][i]| >= 11 ==> CellRoom(key, i)
    {
      hide Represents, Wf, Room, Values, Meta, L.Holds, Placed, CellKey;
      RepresentsAt(log, trees, lists, pushes, key);
      var tree, l := trees[key], lists[key];
      HoldsMeta(Values(log, tree), key, l, pushes[key]);
      HeadIsMeta(Values(log, tree), key);
      SameKeys(log, tree);
      if |key| >= 7 && key in tree {
        LongRoom(log, tree, key);
      }
      if i < |l| && |key| + |l[i]| >= 11 {
        var s := Head(key) + 1 + i;
        assert CellIs(Values(log, tree), key, s, l[i]);
        LongRoom(log, tree, CellKey(key, s));
      }
    }
  }

  lemma HeadIsMeta(vs: Tree, key: Bytes)
    requires key in vs ==> |vs[key]| == 8
    ensures HeadOf(vs, key) == Meta(vs, key).0
  {
    hide Le32;
  }

  lemma LongRoom(log: Store, tree: Index, k: Bytes)
    requires Wf(log) && Placed(log, tree) && k in tree && k in Values(log, tree) && |k| + |Values(log, tree)[k]| >= 15
    ensures Room(log, tree, k)
  {
    hide EntryAt, EntryCrc, Encode, Used;
    assert PlacedAt(log, tree[k], k);
    var n := tree[k];
    EntriesDisjoint(log.files[n.fid].entries, n.offset, 0);
    var e := EntryAt(log.files[n.fid].entries, n.offset).value;
    FieldsLength(e);
  }

  /** The loop of LRange, over sequence numbers. */
  method ReadCells(log: Store, tree: Index, key: Bytes, ghost l: seq<Bytes>, ghost pushes: nat, ghost head: nat, startSeq: nat, stopSeq: nat)
    returns (r: Outcome<seq<Bytes>>)
    requires HoldsList(log, tree, key, l, pushes) && head == HeadOf(Values(log, tree), key) && head < startSeq <= stopSeq < head + |l| + 1
    ensures r == if CellsReadable(log, tree, key, startSeq, stopSeq)
                 then Ok(l[startSeq - head - 1..stopSeq - head]) else ErrEof
  {
    hide CellKey, HoldsList, Values, HeadOf, CellReadable, S.Get;
    var value: seq<Bytes> := [];
    var s := startSeq;
    while s < stopSeq + 1
      invariant startSeq <= s <= stopSeq + 1
      invariant value == l[startSeq - head - 1..s - head - 1]
      invariant forall t :: startSeq <= t < s ==> CellReadable(log, tree, key, t)
    {
      CellRead(log, tree, key, l, pushes, s, s - head - 1);
      var val := S.Get(log.(index := tree), CellKey(key, s), 0);
      if !val.Found? {
        assert !CellReadable(log, tree, key, s);
        return ErrEof;
      }
      value := value + [val.value];
      s := s + 1;
    }
    r := Ok(value);
  }

  lemma PopMeta(log: OpenStore, trees: Forest, lists: map<Bytes, seq<Bytes>>, pushes: map<Bytes, nat>, key: Bytes, left: bool)
    requires Wf(log) && Represents(log, trees, lists, pushes) && key in trees
    ensures key in AfterPop(log, trees[key], key, left).1
  {
    hide AfterPop, L.Holds, Values, Meta;
    RepresentsAt(log, trees, lists, pushes, key);
    HoldsMeta(Values(log, trees[key]), key, lists[key], pushes[key]);
    AfterPopIs(log, trees[key], key, left);
  }

  /** The writes of pop. */
  method WritePop(log: OpenStore, tree: Index, key: Bytes, left: bool, head: nat, tail: nat) returns (log': OpenStore, tree': Index)
    requires |key| + 4 < U32 && head < U32 && tail < U32
    ensures (log', tree') == PopState(log, tree, key, left, head, tail)
  {
    hide Storable, CellKey, MetaValue, Write, Where;
    var headSeq: int, tailSeq: int := head, tail;
    var s := if left then U(headSeq + 1) else U(tailSeq - 1);
    EntriesFit(key, [], s);
    log' := Write(log, Tombstone(CellKey(key, s)));
    if left {
      headSeq := U(headSeq + 1);
    } else {
      tailSeq := U(tailSeq - 1);
    }
    var saved := Saved(log', tree, MetaEntry(key, headSeq, tailSeq));
    log', tree' := saved.0, saved.1;
  }

  /** An emptied list has its counters reset in the log, although its tree goes. */
  method ResetMeta(log: OpenStore, key: Bytes, head: nat, tail: nat) returns (log': OpenStore)
    requires Wf(log) && |key| + 4 < U32
    ensures Later(log, log')
  {
    hide Storable, MetaValue, Write, Wf;
    log' := log;
    SameLater(log);
    if head != INITIAL_SEQ || tail != INITIAL_SEQ + 1 {
      EntriesFit(key, [], 0);
      WriteLater(log, MetaEntry(key, INITIAL_SEQ, INITIAL_SEQ + 1));
      log' := Write(log, MetaEntry(key, INITIAL_SEQ, INITIAL_SEQ + 1));
    }
  }

  lemma SameLater(log: Store)
    requires Wf(log)
    ensures Later(log, log)
  {
  }

  lemma PushedAllLast(l: seq<Bytes>, args: seq<Bytes>, left: bool, i: nat)
    requires i < |args|
    ensures PushedAll(l, args[..i + 1], left) == Pushed(PushedAll(l, args[..i], left), args[i], left)
    ensures PushedAll(l, args[..0], left) == l
  {
    assert args[..i + 1] == args[..i] + [args[i]];
    PushedAllAppend(l, args[..i], args[i], left);
  }

  lemma {:induction false} PushedAllAppend(l: seq<Bytes>, args: seq<Bytes>, x: Bytes, left: bool)
    ensures PushedAll(l, args + [x], left) == Pushed(PushedAll(l, args, left), x, left)
    decreases |args|
  {
    hide Pushed;
    if args == [] {
      assert [] + [x] == [x] && [x][1..] == [];
      assert PushedAll(l, [x], left) == PushedAll(Pushed(l, x, left), [], left);
    } else {
      assert (args + [x])[1..] == args[1..] + [x];
      PushedAllAppend(Pushed(l, args[0], left), args[1..], x, left);
    }
  }

  /** Reading the cell of element `i`. */
  lemma CellRead(log: Store, tree: Index, key: Bytes, l: seq<Bytes>, pushes: nat, s: nat, i: nat)
    requires HoldsList(log, tree, key, l, pushes) && i < |l|
    requires s == HeadOf(Values(log, tree), key) + 1 + i
    ensures s < U32 && |l[i]| < U32
    ensures S.Get(log.(index := tree), CellKey(key, s), 0) == if CellReadable(log, tree, key, s) then Found(l[i]) else ReadError
  {
    hide CellKey, S.Get, Placed, Values, Le32, Room;
    HoldsMeta(Values(log, tree), key, l, pushes);
    assert CellIs(Values(log, tree), key, s, l[i]);
    SameKeys(log, tree);
    TreeRead(log, tree, CellKey(key, s), 0);
    ElementFits(log, tree, CellKey(key, s));
  }

  lemma SameKeys(log: Store, tree: Index)
    ensures Values(log, tree).Keys == tree.Keys
  {
  }

  /**
   Why the room matters: in a file that the first push of a list fills exactly, the counters can be read back if and only
   if their entry is as long as a full header. For short keys it is not, and LLen answers 0 for a list of one element.
   */
  lemma FirstPushRoom(key: Bytes, arg: Bytes)
    requires FitsLog(key, arg)
    ensures var c, m := Plain(CellKey(key, INITIAL_SEQ + 1), arg), MetaEntry(key, INITIAL_SEQ, INITIAL_SEQ + 2);
            && Storable(c) && Storable(m)
            && var (log, tree) := PushState(Empty(Size(c) + Size(m)), map[], key, arg, false, INITIAL_SEQ, INITIAL_SEQ + 1);
            Room(log, tree, key) <==> Size(m) >= MAX_HEADER_SIZE
  {
    hide Size, Storable, CellKey, MetaValue, Used, HeaderSize, EntryCrc;
    EntriesFit(key, arg, INITIAL_SEQ + 1);
    var c, m := Plain(CellKey(key, INITIAL_SEQ + 1), arg), MetaEntry(key, INITIAL_SEQ, INITIAL_SEQ + 2);
    FillsFile(c, m);
  }

  lemma FillsFile(c: Entry, m: Entry)
    requires Storable(c) && Storable(m) && c.key != m.key
    ensures var s := Write(Empty(Size(c) + Size(m)), c);
            && s.active == 1 && Where(s, m).fid == 1 && Where(s, m).offset == Size(c)
            && Write(s, m).files == map[1 := File([c, m], Size(c) + Size(m))]
  {
    hide Size, HeaderSize, EntryCrc, Used, Storable, SetTotal, Fresh;
    UsedNothing();
    UsedAppend([], c);
    UsedAppend([c], m);
    assert [] + [c] == [c] && [c] + [m] == [c, m];
  }
}
