/**
 Lists (list.go): a deque kept as two uint32 counters and one cell per element, against a sequence. Here a tree maps each
 key to the value stored for it; module Lists has the log behind it.
 */
module ListDb {
  import opened Bytes

  /** math.MaxUint32 / 2 */
  const INITIAL_SEQ: nat := 0x7fff_ffff

  type Tree = map<Bytes, Bytes>
  /** Arithmetic on uint32. */
  function U(x: int): (r: nat)
    ensures r < U32
  {
    x % U32
  }

  /** encodeListKey */
  function CellKey(key: Bytes, s: nat): (r: Bytes)
    requires s < U32
    ensures |r| == |key| + 4
  {
    PutLe32(s) + key
  }

  /** decodeListKey */
  function DecodeCellKey(buf: Bytes): (Bytes, nat)
    requires |buf| >= 4
  {
    (buf[4..], Le32(buf[..4]))
  }

  lemma CellKeyRoundTrip(key: Bytes, s: nat)
    requires s < U32
    ensures DecodeCellKey(CellKey(key, s)) == (key, s)
  {
    Le32RoundTrip(s);
    assert CellKey(key, s)[..4] == PutLe32(s);
  }

  /** The value that saveLMeta writes under the list's own key. */
  function MetaValue(head: nat, tail: nat): (r: Bytes)
    requires head < U32 && tail < U32
    ensures |r| == 8
  {
    PutLe32(head) + PutLe32(tail)
  }

  /** lMeta: the counters, initial ones if there is no value. */
  function Meta(tree: Tree, key: Bytes): (r: (nat, nat))
    requires key in tree && |tree[key]| > 0 ==> |tree[key]| >= 8
    ensures r.0 < U32 && r.1 < U32
  {
    if key in tree && |tree[key]| != 0 then (Le32(tree[key][..4]), Le32(tree[key][4..8]))
    else (INITIAL_SEQ, INITIAL_SEQ + 1)
  }

  lemma MetaRoundTrip(tree: Tree, key: Bytes, head: nat, tail: nat)
    requires head < U32 && tail < U32
    ensures Meta(tree[key := MetaValue(head, tail)], key) == (head, tail)
  {
    Le32RoundTrip(head);
    Le32RoundTrip(tail);
    var v := MetaValue(head, tail);
    assert v[..4] == PutLe32(head) && v[4..8] == PutLe32(tail);
  }

  /** lSequence, on uint32 */
  function Sequence(head: nat, tail: nat, index: int): (s: nat)
    ensures s < U32
  {
    if index >= 0 then U(head + U(index) + 1) else U(tail - U(-index))
  }

  /** The counters enclose the cells: element i is under head + 1 + i. Other cells may be left over. */
  predicate Cells(tree: Tree, key: Bytes, l: seq<Bytes>, head: nat, tail: nat) {
    && head + |l| + 1 == tail < U32
    && forall i :: 0 <= i < |l| ==> CellIs(tree, key, head + 1 + i, l[i])
  }

  predicate CellIs(tree: Tree, key: Bytes, s: nat, v: Bytes) {
    s < U32 && CellKey(key, s) in tree && tree[CellKey(key, s)] == v
  }

  /** A list that has been pushed to `pushes` times since it was last empty. */
  predicate Holds(tree: Tree, key: Bytes, l: seq<Bytes>, pushes: nat) {
    && (key in tree ==> |tree[key]| == 8)
    && var (head, tail) := Meta(tree, key);
    Cells(tree, key, l, head, tail) && head + pushes >= INITIAL_SEQ && tail <= INITIAL_SEQ + 1 + pushes
  }

  function Pushed(l: seq<Bytes>, x: Bytes, left: bool): seq<Bytes> {
    if left then [x] + l else l + [x]
  }

  /** Several pushes in a row. */
  function PushedAll(l: seq<Bytes>, args: seq<Bytes>, left: bool): seq<Bytes>
    decreases |args|
  {
    if |args| == 0 then l else PushedAll(Pushed(l, args[0], left), args[1..], left)
  }

  function Popped(l: seq<Bytes>, left: bool): seq<Bytes>
    requires l != []
  {
    if left then l[1..] else l[..|l| - 1]
  }

  function End(l: seq<Bytes>, left: bool): Bytes
    requires l != []
  {
    if left then l[0] else l[|l| - 1]
  }

  /** A push on the left goes in front and one on the right behind, a pop takes from the same end, and undoes a push there. */
  lemma Deque(l: seq<Bytes>, x: Bytes, left: bool)
    ensures Pushed(l, x, true) == [x] + l && Pushed(l, x, false) == l + [x]
    ensures Popped(Pushed(l, x, left), left) == l && End(Pushed(l, x, left), left) == x
    ensures l != [] ==> End(l, true) == l[0] && End(l, false) == l[|l| - 1] && Popped(l, true) == l[1..] && Popped(l, false) == l[..|l| - 1]
  {
  }

  /** Arguments pushed on the right end up in order, those on the left in reverse. */
  lemma {:induction false} PushedInOrder(l: seq<Bytes>, args: seq<Bytes>, i: nat)
    requires i < |args|
    ensures PushedAll(l, args, false) == l + args
    ensures |PushedAll(l, args, true)| == |args| + |l| && PushedAll(l, args, true)[i] == args[|args| - 1 - i]
    ensures PushedAll(l, args, true)[|args|..] == l
    decreases |args|
  {
    var x, rest := args[0], args[1..];
    if rest == [] {
      assert args == [x];
      assert PushedAll([x] + l, [], true) == [x] + l && PushedAll(l + [x], [], false) == l + [x];
    } else {
      PushedInOrder(l + [x], rest, 0);
      assert l + [x] + rest == l + args;
      PushedInOrder([x] + l, rest, if i < |rest| then i else 0);
      var all := PushedAll([x] + l, rest, true);
      assert all[|rest|..] == [x] + l;
      assert all[|args|..] == all[|rest|..][1..] == l && all[|rest|] == all[|rest|..][0] == x;
    }
  }

  lemma CellKeysDiffer(key: Bytes, s: nat, t: nat)
    requires s < U32 && t < U32 && s != t
    ensures CellKey(key, s) != CellKey(key, t) && CellKey(key, s) != key
  {
    CellKeyRoundTrip(key, s);
    CellKeyRoundTrip(key, t);
  }

  /** The tree after push wrote the cell and the counters. */
  function PushTree(tree: Tree, key: Bytes, x: Bytes, left: bool): (r: Tree)
    requires key in tree ==> |tree[key]| == 8
    ensures key in r && |r[key]| == 8
  {
    var (head, tail) := Meta(tree, key);
    var cell := tree[CellKey(key, if left then head else tail) := x];
    cell[key := if left then MetaValue(U(head - 1), tail) else MetaValue(head, U(tail + 1))]
  }

  /** Writing one cell and the counters leaves the other cells alone. */
  lemma OtherCell(tree: Tree, key: Bytes, s: nat, x: Bytes, meta: Bytes, t: nat, v: Bytes)
    requires s < U32 && t < U32
    ensures t == s ==> CellIs(tree[CellKey(key, s) := x][key := meta], key, t, x)
    ensures t != s && CellIs(tree, key, t, v) ==> CellIs(tree[CellKey(key, s) := x][key := meta], key, t, v)
  {
    if t != s {
      CellKeysDiffer(key, t, s);
    }
  }

  lemma PushCells(tree: Tree, key: Bytes, l: seq<Bytes>, head: nat, tail: nat, x: Bytes, left: bool, meta: Bytes)
    requires Cells(tree, key, l, head, tail) && head > 0 && tail < U32 - 1
    ensures var r := tree[CellKey(key, if left then head else tail) := x][key := meta];
            Cells(r, key, Pushed(l, x, left), if left then head - 1 else head, if left then tail else tail + 1)
  {
    hide CellKey, CellIs;
    var s := if left then head else tail;
    var r := tree[CellKey(key, s) := x][key := meta];
    var l', head' := Pushed(l, x, left), if left then head - 1 else head;
    forall i | 0 <= i < |l'|
      ensures CellIs(r, key, head' + 1 + i, l'[i])
    {
      var t := head' + 1 + i;
      OtherCell(tree, key, s, x, meta, t, l'[i]);
      if t != s {
        var j := if left then i - 1 else i;
        assert CellIs(tree, key, head + 1 + j, l[j]);
      }
    }
  }

  /** A push extends the sequence, as long as fewer than 2^31 pushes happened since the list was empty. */
  lemma PushHolds(tree: Tree, key: Bytes, l: seq<Bytes>, pushes: nat, x: Bytes, left: bool)
    requires Holds(tree, key, l, pushes) && pushes + 1 < 0x8000_0000
    ensures Holds(PushTree(tree, key, x, left), key, Pushed(l, x, left), pushes + 1)
  {
    hide CellKey, Cells, MetaValue, PushTree;
    var (head, tail) := Meta(tree, key);
    var head', tail' := if left then head - 1 else head, if left then tail else tail + 1;
    CellsBounds(tree, key, l, head, tail);
    PushCells(tree, key, l, head, tail, x, left, MetaValue(head', tail'));
    PushedMeta(tree, key, x, left, head', tail');
  }

  lemma CellsBounds(tree: Tree, key: Bytes, l: seq<Bytes>, head: nat, tail: nat)
    requires Cells(tree, key, l, head, tail)
    ensures head + |l| + 1 == tail < U32
  {
  }

  lemma PushedMeta(tree: Tree, key: Bytes, x: Bytes, left: bool, head': nat, tail': nat)
    requires key in tree ==> |tree[key]| == 8
    requires var (head, tail) := Meta(tree, key);
             0 < head && tail < U32 - 1 && head' == (if left then head - 1 else head) && tail' == (if left then tail else tail + 1)
    ensures var (head, tail) := Meta(tree, key);
            PushTree(tree, key, x, left) == tree[CellKey(key, if left then head else tail) := x][key := MetaValue(head', tail')]
    ensures Meta(PushTree(tree, key, x, left), key) == (head', tail')
  {
    hide CellKey, MetaValue, Le32;
    var (head, tail) := Meta(tree, key);
    assert U(head - 1) == head - 1 && U(tail + 1) == tail + 1;
    MetaRoundTrip(tree[CellKey(key, if left then head else tail) := x], key, head', tail');
  }

  /**
   What the bound on pushes keeps away: the element that a push adds at position 0 can be read back by LIndex
   exactly when the counter that the push moves does not wrap.
   */
  lemma PushReadableIff(head: nat, tail: nat, n: nat, left: bool)
    requires head + n + 1 == tail < U32
    ensures var head', tail' := if left then U(head - 1) else head, if left then tail else U(tail + 1);
            head' < Sequence(head', tail', 0) < tail' <==> if left then head > 0 else tail < U32 - 1
  {
    var head', tail' := if left then U(head - 1) else head, if left then tail else U(tail + 1);
    if (if left then head > 0 else tail < U32 - 1) {
      assert head' == (if left then head - 1 else head) && tail' == if left then tail else tail + 1;
      SequenceSelects(head', tail', n + 1, 0);
    } else if left {
      assert head' == U32 - 1 && Sequence(head', tail', 0) == 0;
    } else {
      assert tail' == 0;
    }
  }

  // --- pop ---

  /** The tree after pop saved the counters; the cell itself stays behind. */
  function PopTree(tree: Tree, key: Bytes, left: bool): (r: Tree)
    requires key in tree ==> |tree[key]| == 8
    ensures key in r && |r[key]| == 8
  {
    var (head, tail) := Meta(tree, key);
    tree[key := if left then MetaValue(U(head + 1), tail) else MetaValue(head, U(tail - 1))]
  }

  /** A pop reads the end of the sequence and leaves the rest, whatever stale cells there are. */
  lemma PopHolds(tree: Tree, key: Bytes, l: seq<Bytes>, pushes: nat, left: bool)
    requires Holds(tree, key, l, pushes) && l != []
    ensures var (head, tail) := Meta(tree, key);
            && U(tail - head - 1) == |l| && CellIs(tree, key, U(if left then head + 1 else tail - 1), End(l, left))
            && Holds(PopTree(tree, key, left), key, Popped(l, left), pushes)
  {
    hide CellKey, Cells, CellIs, MetaValue, PopTree;
    var (head, tail) := Meta(tree, key);
    CellsBounds(tree, key, l, head, tail);
    assert U(head + 1) == head + 1 && U(tail - 1) == tail - 1 && U(tail - head - 1) == |l|;
    PoppedMeta(tree, key, left);
    PopCells(tree, key, l, head, tail, left, MetaValue(if left then head + 1 else head, if left then tail else tail - 1));
  }

  lemma PoppedMeta(tree: Tree, key: Bytes, left: bool)
    requires key in tree ==> |tree[key]| == 8
    requires var (head, tail) := Meta(tree, key); head < U32 - 1 && 0 < tail
    ensures var (head, tail) := Meta(tree, key);
            var head', tail' := if left then head + 1 else head, if left then tail else tail - 1;
            PopTree(tree, key, left) == tree[key := MetaValue(head', tail')] && Meta(PopTree(tree, key, left), key) == (head', tail')
  {
    hide MetaValue, Le32;
    var (head, tail) := Meta(tree, key);
    assert U(head + 1) == head + 1 && U(tail - 1) == tail - 1;
    MetaRoundTrip(tree, key, if left then head + 1 else head, if left then tail else tail - 1);
  }

  lemma PopCells(tree: Tree, key: Bytes, l: seq<Bytes>, head: nat, tail: nat, left: bool, meta: Bytes)
    requires Cells(tree, key, l, head, tail) && l != []
    ensures CellIs(tree, key, if left then head + 1 else tail - 1, End(l, left))
    ensures Cells(tree[key := meta], key, Popped(l, left), if left then head + 1 else head, if left then tail else tail - 1)
  {
    var l', head' := Popped(l, left), if left then head + 1 else head;
    assert CellIs(tree, key, head + 1 + 0, l[0]);
    assert CellIs(tree, key, head + 1 + (|l| - 1), l[|l| - 1]);
    hide CellKey;
    forall i | 0 <= i < |l'|
      ensures CellIs(tree[key := meta], key, head' + 1 + i, l'[i])
    {
      var j := if left then i + 1 else i;
      assert CellIs(tree, key, head + 1 + j, l[j]);
    }
  }

  // --- positions ---

  /** The element that an index selects: from the front, or from the back if negative. */
  function Position(n: nat, index: int): (r: Option<nat>)
    ensures r.Some? ==> r.value < n
  {
    if 0 <= index < n then Some(index)
    else if index < 0 <= index + n then Some(n + index)
    else None
  }

  /** LIndex and LSet look at the index modulo 2^32. */
  function Aliased(index: int): int {
    var back: int := U(-index);
    if index >= 0 then U(index) else if back == 0 then -U32 else -back
  }

  /**
   The wrapping arithmetic and the range test of LIndex and LSet accept an index exactly when its alias modulo
   2^32 is a position of the list, and select that position.
   */
  lemma SequenceSelects(head: nat, tail: nat, n: nat, index: int)
    requires head + n + 1 == tail < U32
    ensures var s := Sequence(head, tail, index);
            head < s < tail <==> Position(n, Aliased(index)).Some?
    ensures Position(n, Aliased(index)).Some? ==> Sequence(head, tail, index) == head + 1 + Position(n, Aliased(index)).value
  {
    if index >= 0 {
      var i := U(index);
      if head + i + 1 < U32 {
        assert U(head + i + 1) == head + i + 1;
      } else {
        assert U(head + i + 1) == head + i + 1 - U32;
      }
    } else {
      var j := U(-index);
      if tail - j >= 0 {
        assert U(tail - j) == tail - j;
      } else {
        assert U(tail - j) == tail - j + U32;
      }
    }
  }

  /** Below 2^32 an index is its own alias, so exactly -len <= index < len is accepted. */
  lemma NoAlias(index: int)
    ensures Aliased(index) == index <==> -U32 <= index < U32
  {
  }

  /** From 2^32 on, out-of-range indexes are accepted: this one selects the first element. */
  lemma AliasAccepted(head: nat, tail: nat, n: nat)
    requires head + n + 1 == tail < U32 && n > 0
    ensures head < Sequence(head, tail, U32) < tail && Position(n, U32).None?
  {
    SequenceSelects(head, tail, n, U32);
  }

  /** The window of LRange in list positions: where counting stays within uint32, a position may lie outside the list. */
  function Offset(n: nat, index: int): int {
    if index >= 0 then index else n + index
  }

  predicate NoWrap(head: nat, tail: nat, index: int) {
    if index >= 0 then head + index + 1 < U32 else tail + index >= 0
  }

  /** The list position that the wrapping arithmetic gives for a bound of LRange; it may lie outside the list. */
  function Bound(head: nat, tail: nat, index: int): int {
    Sequence(head, tail, index) - head - 1
  }

  /** It is the position meant, if and only if counting stays within uint32. */
  lemma BoundExact(head: nat, tail: nat, n: nat, index: int)
    requires head + n + 1 == tail < U32
    ensures Bound(head, tail, index) == Offset(n, index) <==> NoWrap(head, tail, index)
  {
    if index >= 0 {
      assert NoWrap(head, tail, index) ==> U(index) == index;
      WrapDiffers(head + index + 1);
    } else {
      WrapDiffers(tail + index);
      assert U(tail - U(-index)) == U(tail + index) by { ModMinus(tail, -index); }
    }
    assert index >= 0 ==> U(head + U(index) + 1) == U(head + index + 1) by { if index >= 0 { ModPlus(head + 1, index); } }
  }

  lemma WrapDiffers(x: int)
    ensures U(x) == x <==> 0 <= x < U32
  {
  }

  lemma ModPlus(a: int, b: int)
    ensures U(a + U(b)) == U(a + b)
  {
    var q := b / U32;
    assert a + b == a + b % U32 + q * U32;
    ModShift(a + b % U32, q);
  }

  lemma ModMinus(a: int, b: int)
    ensures U(a - U(b)) == U(a - b)
  {
    var q := b / U32;
    assert a - b == a - b % U32 + (-q) * U32;
    ModShift(a - b % U32, -q);
  }

  /** The part of the list between two positions, both included, clamped to the list. */
  function Slice(l: seq<Bytes>, start: int, stop: int): seq<Bytes> {
    var lo, hi := Max(0, start), if stop < |l| then stop + 1 else |l|;
    if lo < hi then l[lo..hi] else []
  }

  lemma HoldsMeta(tree: Tree, key: Bytes, l: seq<Bytes>, pushes: nat)
    requires Holds(tree, key, l, pushes)
    ensures key in tree ==> |tree[key]| == 8
    ensures var (head, tail) := Meta(tree, key); head + |l| + 1 == tail < U32 && Cells(tree, key, l, head, tail)
  {
    hide Le32, CellIs;
  }

  lemma PushedNonempty(l: seq<Bytes>, x: Bytes, left: bool)
    ensures Pushed(l, x, left) != []
  {
  }

  /** The counters that pop computes are those of the tree it saves, and count the rest of the list. */
  lemma PoppedCounters(tree: Tree, key: Bytes, l: seq<Bytes>, pushes: nat, left: bool)
    requires Holds(tree, key, l, pushes) && l != [] && (key in tree ==> |tree[key]| == 8)
    ensures var (head, tail) := Meta(tree, key);
            var head', tail' := if left then U(head + 1) else head, if left then tail else U(tail - 1);
            PopTree(tree, key, left) == tree[key := MetaValue(head', tail')] && U(tail' - head' - 1) == |Popped(l, left)|
  {
    hide Cells, Le32, MetaValue, PopTree;
    var (head, tail) := Meta(tree, key);
    CellsBounds(tree, key, l, head, tail);
    assert U(head + 1) == head + 1 && U(tail - 1) == tail - 1;
    hide U;
    PoppedMeta(tree, key, left);
    NoWrapCount(head, tail, l, left);
  }

  lemma NoWrapCount(head: nat, tail: nat, l: seq<Bytes>, left: bool)
    requires head + |l| + 1 == tail < U32 && l != []
    ensures U((if left then tail else tail - 1) - (if left then head + 1 else head) - 1) == |Popped(l, left)|
  {
  }

  lemma NewTreeHolds(key: Bytes)
    ensures Holds(map[], key, [], 0)
  {
  }

  lemma CellReplaced(tree: Tree, key: Bytes, l: seq<Bytes>, pushes: nat, s: nat, value: Bytes)
    requires Holds(tree, key, l, pushes)
    requires var (head, tail) := Meta(tree, key); head < s < tail
    ensures Holds(tree[CellKey(key, s) := value], key, l[s - Meta(tree, key).0 - 1 := value], pushes)
  {
    hide Le32;
    var (head, tail) := Meta(tree, key);
    var r, l' := tree[CellKey(key, s) := value], l[s - head - 1 := value];
    CellKeysDiffer(key, s, 0);
    hide CellKey;
    forall i | 0 <= i < |l'|
      ensures CellIs(r, key, head + 1 + i, l'[i])
    {
      assert CellIs(tree, key, head + 1 + i, l[i]);
      if head + 1 + i != s {
        CellKeysDiffer(key, head + 1 + i, s);
      }
    }
  }

  /** The tests and the clamping of LRange are those of a clamped slice, for all bounds. */
  lemma RangeIsSlice(l: seq<Bytes>, head: nat, tail: nat, start: int, stop: int)
    requires head + |l| + 1 == tail < U32 && l != []
    ensures var a, b := Sequence(head, tail, start), Sequence(head, tail, stop);
            var part := Slice(l, Bound(head, tail, start), Bound(head, tail, stop));
            var lo, hi := if a <= head then head + 1 else a, if b >= tail then tail - 1 else b;
            if a > b || a >= tail || b <= head then part == []
            else head < lo <= hi < tail && part == l[lo - head - 1..hi - head] && part != []
  {
    var a, b := Sequence(head, tail, start), Sequence(head, tail, stop);
    hide Sequence;
    SliceBounds(l, a - head - 1, b - head - 1);
  }

  lemma SliceBounds(l: seq<Bytes>, from: int, to: int)
    requires l != []
    ensures var lo, hi := if from < 0 then 0 else from, if to < |l| then to else |l| - 1;
            if from > to || from >= |l| || to < 0 then Slice(l, from, to) == []
            else 0 <= lo <= hi < |l| && Slice(l, from, to) == l[lo..hi + 1] && |Slice(l, from, to)| == hi + 1 - lo
  {
  }
}
