/** What the guard on commits keeps away: two overlapping commits of RTX transactions can mix their writes. */
module TxMix {
  import opened Bytes
  import opened LogEntry
  import opened Store
  import opened Refinement
  import opened Alike
  import opened SetDb
  import opened TxWorkers
  import opened Transactions
  import opened Serializable

  // --- runs put together from pieces ---

  predicate CanRun(s: System, evs: seq<Event>, hash: Hash)
    decreases |evs|
  {
    evs == [] || (Enabled(s, evs[0]) && CanRun(Next(s, evs[0], hash), evs[1..], hash))
  }

  function After(s: System, evs: seq<Event>, hash: Hash): System
    requires CanRun(s, evs, hash)
    decreases |evs|
  {
    if evs == [] then s else After(Next(s, evs[0], hash), evs[1..], hash)
  }

  lemma {:induction false} Compose(s: System, a: seq<Event>, b: seq<Event>, hash: Hash)
    requires CanRun(s, a, hash) && CanRun(After(s, a, hash), b, hash)
    ensures CanRun(s, a + b, hash) && After(s, a + b, hash) == After(After(s, a, hash), b, hash)
    decreases |a|
  {
    hide Enabled, Next;
    if a == [] {
      assert a + b == b;
    } else {
      assert (a + b)[0] == a[0] && (a + b)[1..] == a[1..] + b;
      Compose(Next(s, a[0], hash), a[1..], b, hash);
    }
  }

  lemma OneEvent(s: System, ev: Event, hash: Hash)
    requires Enabled(s, ev)
    ensures CanRun(s, [ev], hash) && After(s, [ev], hash) == Next(s, ev, hash)
  {
    hide Enabled, Next;
    assert [ev][1..] == [];
  }

  function States(s: System, evs: seq<Event>, hash: Hash): (ss: seq<System>)
    requires CanRun(s, evs, hash)
    ensures |ss| == |evs| + 1 && ss[0] == s
    decreases |evs|
  {
    if evs == [] then [s] else [s] + States(Next(s, evs[0], hash), evs[1..], hash)
  }

  lemma {:induction false} StatesRun(s: System, evs: seq<Event>, hash: Hash, i: nat)
    requires CanRun(s, evs, hash) && i < |evs|
    ensures var ss := States(s, evs, hash); Enabled(ss[i], evs[i]) && ss[i + 1] == Next(ss[i], evs[i], hash)
    decreases |evs|
  {
    hide Enabled, Next;
    if i > 0 {
      StatesRun(Next(s, evs[0], hash), evs[1..], hash, i - 1);
    }
  }

  lemma {:induction false} StatesEnd(s: System, evs: seq<Event>, hash: Hash)
    requires CanRun(s, evs, hash)
    ensures States(s, evs, hash)[|evs|] == After(s, evs, hash)
    decreases |evs|
  {
    hide Enabled, Next;
    if evs != [] {
      StatesEnd(Next(s, evs[0], hash), evs[1..], hash);
    }
  }

  lemma IsRun(db0: Db, evs: seq<Event>, hash: Hash) returns (ss: seq<System>)
    requires CanRun(Start(db0), evs, hash)
    ensures Run(ss, evs, db0, hash) && ss[|evs|] == After(Start(db0), evs, hash)
  {
    hide Enabled, Next, CanRun, After, States;
    ss := States(Start(db0), evs, hash);
    StatesEnd(Start(db0), evs, hash);
    forall i | 0 <= i < |evs|
      ensures Enabled(ss[i], evs[i]) && ss[i + 1] == Next(ss[i], evs[i], hash)
    {
      StatesRun(Start(db0), evs, hash, i);
    }
  }

  // --- the pieces ---

  /** A transaction that has made these calls and not more. */
  predicate Buffering(s: System, id: nat, ops: seq<Op>, hash: Hash)
    requires OpsFit(ops)
  {
    id in s.txs && !s.txs[id].writer && s.txs[id].phase.Open? && s.txs[id].ops == ops
    && s.txs[id].pendingStr == StrBuffer(ops) && s.txs[id].pendingSet == SetBuffer(ops, hash)
  }

  /** All but transaction `id` and the set trees is as it was. */
  ghost predicate OthersSame(s: System, r: System, id: nat) {
    && r.mutex == s.mutex && r.done == s.done && r.committed == s.committed && r.closed == s.closed && r.crashed == s.crashed
    && forall other :: other != id ==> (other in r.txs <==> other in s.txs) && (other in s.txs ==> r.txs[other] == s.txs[other])
  }

  lemma {:induction false} CallsRun(s: System, id: nat, ops: seq<Op>, hash: Hash) returns (evs: seq<Event>)
    requires !s.crashed && id in s.txs && s.txs[id] == Fresh(false) && OpsFit(ops)
    ensures CanRun(s, evs, hash)
    ensures var r := After(s, evs, hash); Buffering(r, id, ops, hash) && OthersSame(s, r, id) && r.db.strings == s.db.strings
    decreases |ops|
  {
    hide Enabled, Next, Pendings, OpFits;
    if ops == [] {
      evs := [];
    } else {
      var most, op := ops[..|ops| - 1], ops[|ops| - 1];
      var before := CallsRun(s, id, most, hash);
      var t := After(s, before, hash);
      OneCall(t, id, most, op, hash);
      OneEvent(t, Calls(id, op), hash);
      Compose(s, before, [Calls(id, op)], hash);
      evs := before + [Calls(id, op)];
      assert most + [op] == ops;
    }
  }

  lemma OneCall(s: System, id: nat, ops: seq<Op>, op: Op, hash: Hash)
    requires OpsFit(ops) && OpFits(op) && !s.crashed && Buffering(s, id, ops, hash)
    ensures Enabled(s, Calls(id, op)) && OpsFit(ops + [op])
    ensures var r := Next(s, Calls(id, op), hash); Buffering(r, id, ops + [op], hash) && OthersSame(s, r, id) && r.db.strings == s.db.strings
  {
    BuffersAppend(ops, op, hash);
    hide StrBuffer, SetBuffer, Pendings, OpsFit;
  }

  /** The string worker of `id` has `todo` left, in a system that is otherwise `s` but for the strings. */
  predicate AtWork(s: System, id: nat, strings: OpenStore, todo: seq<Pending>, r: System) {
    && id in s.txs && InCommit(s, id)
    && r == s.(db := s.db.(strings := strings), txs := s.txs[id := s.txs[id].(phase := s.txs[id].phase.(str := Worker(todo, None)))])
  }

  function StrMoves(id: nat, n: nat): seq<Event> {
    if n == 0 then [] else StrMoves(id, n - 1) + [Moves(id, true), Moves(id, true)]
  }

  /** The string worker runs for `n` entries without interruption. */
  lemma {:induction false} StrRun(s: System, id: nat, es: seq<Pending>, n: nat, hash: Hash)
    requires !s.crashed && InCommit(s, id) && s.txs[id].phase.str == Worker(es, None) && n <= |es|
    ensures CanRun(s, StrMoves(id, n), hash)
    ensures AtWork(s, id, StrFinish(s.db.strings, Worker(es[..n], None)), es[n..], After(s, StrMoves(id, n), hash))
    decreases n
  {
    hide StrStep, SetStep, Put, Storable, Enabled, Next, CanRun, After;
    if n == 0 {
      NoMoves(s, id, es, hash);
    } else {
      StrRun(s, id, es, n - 1, hash);
      var t := After(s, StrMoves(id, n - 1), hash);
      TwoMovesRun(t, id, es[n - 1..], hash);
      Compose(s, StrMoves(id, n - 1), [Moves(id, true), Moves(id, true)], hash);
      assert es[n - 1..][1..] == es[n..] && es[..n] == es[..n - 1] + [es[n - 1]];
      StrFinishAppend(s.db.strings, es[..n - 1], es[n - 1]);
    }
  }

  lemma NoMoves(s: System, id: nat, es: seq<Pending>, hash: Hash)
    requires InCommit(s, id) && s.txs[id].phase.str == Worker(es, None)
    ensures CanRun(s, [], hash) && AtWork(s, id, StrFinish(s.db.strings, Worker(es[..0], None)), es[0..], After(s, [], hash))
  {
    assert es[0..] == es && es[..0] == [];
    assert s.txs[id := s.txs[id]] == s.txs;
  }

  lemma TwoMovesRun(s: System, id: nat, es: seq<Pending>, hash: Hash)
    requires !s.crashed && InCommit(s, id) && s.txs[id].phase.str == Worker(es, None) && es != []
    ensures CanRun(s, [Moves(id, true), Moves(id, true)], hash)
    ensures AtWork(s, id, Put(s.db.strings, Marked(es[0]), true), es[1..], After(s, [Moves(id, true), Moves(id, true)], hash))
  {
    hide Put, Storable, SetStep, StrStep;
    var ev := Moves(id, true);
    var t := Next(s, ev, hash);
    assert es == [es[0]] + es[1..];
    TwoMoves(s.db.strings, es[0], es[1..]);
    OneEvent(s, ev, hash);
    OneEvent(t, ev, hash);
    Compose(s, [ev], [ev], hash);
    assert [ev] + [ev] == [ev, ev];
  }

  /** Two moves of a string worker write and index one entry. */
  lemma TwoMoves(s: OpenStore, e: Pending, rest: seq<Pending>)
    ensures var (s1, w1) := StrStep(s, Worker([e] + rest, None));
            StrStep(s1, w1) == (Put(s, Marked(e), true), Worker(rest, None))
  {
    hide Write, Where, Storable;
    WriteThenIndex(s, Marked(e));
    assert ([e] + rest)[1..] == rest;
  }

  // --- reaching ---

  ghost predicate Reaches(s: System, r: System, hash: Hash) {
    exists evs :: CanRun(s, evs, hash) && After(s, evs, hash) == r
  }

  lemma ReachesBy(s: System, evs: seq<Event>, hash: Hash)
    requires CanRun(s, evs, hash)
    ensures Reaches(s, After(s, evs, hash), hash)
  {
  }

  lemma ReachesOne(s: System, ev: Event, hash: Hash)
    requires Enabled(s, ev)
    ensures Reaches(s, Next(s, ev, hash), hash)
  {
    hide Enabled, Next, CanRun, After;
    OneEvent(s, ev, hash);
    ReachesBy(s, [ev], hash);
  }

  lemma ReachesOn(s: System, t: System, r: System, hash: Hash)
    requires Reaches(s, t, hash) && Reaches(t, r, hash)
    ensures Reaches(s, r, hash)
  {
    hide CanRun, After;
    var a :| CanRun(s, a, hash) && After(s, a, hash) == t;
    var b :| CanRun(t, b, hash) && After(t, b, hash) == r;
    Compose(s, a, b, hash);
  }

  /** The set worker of `id` runs to its end; the strings and everything else stay. */
  lemma {:induction false} SetRun(s: System, id: nat, hash: Hash) returns (r: System)
    requires !s.crashed && InCommit(s, id)
    ensures Reaches(s, r, hash) && InCommit(r, id) && r.txs[id].phase.set_.todo == []
    ensures r.db.strings == s.db.strings && OthersSame(s, r, id) && r.txs[id] == s.txs[id].(phase := s.txs[id].phase.(set_ := r.txs[id].phase.set_))
    decreases 2 * |s.txs[id].phase.set_.todo| - (if s.txs[id].phase.set_.written.None? then 0 else 1)
  {
    hide Write, Where, Storable, StrStep, Reaches;
    if s.txs[id].phase.set_.todo == [] {
      r := s;
      ReachesSelf(s, hash);
    } else {
      var ev := Moves(id, false);
      var t := Next(s, ev, hash);
      ReachesOne(s, ev, hash);
      r := SetRun(t, id, hash);
      ReachesOn(s, t, r, hash);
    }
  }

  lemma ReachesSelf(s: System, hash: Hash)
    ensures Reaches(s, s, hash)
  {
    ReachesBy(s, [], hash);
  }

  /** Both transactions have been begun, have made their calls and have started to commit. */
  predicate BothCommit(s: System, ops1: seq<Op>, ops2: seq<Op>)
    requires OpsFit(ops1) && OpsFit(ops2)
  {
    && s.mutex == Mutex(2, false) && s.done == {} && s.committed == [] && !s.closed && !s.crashed && s.txs.Keys == {1, 2}
    && (forall id :: id in s.txs ==> !s.txs[id].writer && InCommit(s, id))
    && s.txs[1].ops == ops1 && s.txs[1].phase.str == Worker(StrBuffer(ops1), None)
    && s.txs[2].ops == ops2 && s.txs[2].phase.str == Worker(StrBuffer(ops2), None)
  }

  /** These two transactions have committed with these calls, and no other with any. */
  predicate OnlyTwo(s: System, id1: nat, id2: nat, ops1: seq<Op>, ops2: seq<Op>) {
    && id1 != id2 && id1 in s.done && id2 in s.done && id1 in s.txs && id2 in s.txs && s.txs[id1].ops == ops1 && s.txs[id2].ops == ops2
    && forall id :: id in s.done && id != id1 && id != id2 ==> id in s.txs && s.txs[id].ops == []
  }

  lemma BothBegin(db0: Db, hash: Hash) returns (s: System)
    ensures Reaches(Start(db0), s, hash) && s == Start(db0).(mutex := Mutex(2, false), txs := map[1 := Fresh(false), 2 := Fresh(false)])
  {
    hide Reaches;
    var t := Next(Start(db0), Begins(1, false), hash);
    ReachesOne(Start(db0), Begins(1, false), hash);
    s := Next(t, Begins(2, false), hash);
    ReachesOne(t, Begins(2, false), hash);
    ReachesOn(Start(db0), t, s, hash);
  }

  lemma BothCall(db0: Db, ops1: seq<Op>, ops2: seq<Op>, hash: Hash) returns (s: System)
    requires OpsFit(ops1) && OpsFit(ops2)
    ensures Reaches(Start(db0), s, hash) && Buffering(s, 1, ops1, hash) && Buffering(s, 2, ops2, hash) && s.db.strings == db0.strings
    ensures s.mutex == Mutex(2, false) && s.done == {} && s.committed == [] && !s.closed && !s.crashed && s.txs.Keys == {1, 2}
  {
    hide Reaches, StrBuffer, SetBuffer, OpsFit, CanRun, After;
    var a := BothBegin(db0, hash);
    var evs1 := CallsRun(a, 1, ops1, hash);
    var b := After(a, evs1, hash);
    ReachesBy(a, evs1, hash);
    var evs2 := CallsRun(b, 2, ops2, hash);
    s := After(b, evs2, hash);
    ReachesBy(b, evs2, hash);
    ReachesOn(Start(db0), a, b, hash);
    ReachesOn(Start(db0), b, s, hash);
    assert forall id :: id in s.txs <==> id == 1 || id == 2;
  }

  lemma BothStart(db0: Db, ops1: seq<Op>, ops2: seq<Op>, hash: Hash) returns (s: System)
    requires OpsFit(ops1) && OpsFit(ops2)
    ensures Reaches(Start(db0), s, hash) && BothCommit(s, ops1, ops2) && s.db.strings == db0.strings
  {
    hide Reaches, StrBuffer, SetBuffer, OpsFit;
    var a := BothCall(db0, ops1, ops2, hash);
    var b := Next(a, Commits(1), hash);
    ReachesOne(a, Commits(1), hash);
    s := Next(b, Commits(2), hash);
    ReachesOne(b, Commits(2), hash);
    ReachesOn(Start(db0), a, b, hash);
    ReachesOn(Start(db0), b, s, hash);
  }

  /** The first writes of transaction 1, all of transaction 2, and the rest of transaction 1. */
  lemma BothWrite(s: System, ops1: seq<Op>, ops2: seq<Op>, n: nat, hash: Hash) returns (r: System)
    requires OpsFit(ops1) && OpsFit(ops2) && BothCommit(s, ops1, ops2) && n <= |StrBuffer(ops1)|
    ensures var es, fs := StrBuffer(ops1), StrBuffer(ops2);
            r.db.strings == StrFinish(StrFinish(StrFinish(s.db.strings, Worker(es[..n], None)), Worker(fs, None)), Worker(es[n..], None))
    ensures Reaches(s, r, hash) && r.mutex == s.mutex && r.done == s.done && r.committed == s.committed && r.closed == s.closed && !r.crashed && r.txs.Keys == {1, 2}
    ensures forall id :: id in r.txs ==> !r.txs[id].writer && InCommit(r, id) && r.txs[id].ops == s.txs[id].ops && r.txs[id].phase.str.todo == []
  {
    hide Reaches, StrBuffer, OpsFit, CanRun, After, StrFinish, StrMoves;
    var es, fs := StrBuffer(ops1), StrBuffer(ops2);
    StrRun(s, 1, es, n, hash);
    var a := After(s, StrMoves(1, n), hash);
    ReachesBy(s, StrMoves(1, n), hash);
    StrRun(a, 2, fs, |fs|, hash);
    var b := After(a, StrMoves(2, |fs|), hash);
    ReachesBy(a, StrMoves(2, |fs|), hash);
    assert fs[..|fs|] == fs && fs[|fs|..] == [];
    var rest := es[n..];
    StrRun(b, 1, rest, |rest|, hash);
    r := After(b, StrMoves(1, |rest|), hash);
    ReachesBy(b, StrMoves(1, |rest|), hash);
    assert rest[..|rest|] == rest && rest[|rest|..] == [];
    ReachesOn(s, a, b, hash);
    ReachesOn(s, b, r, hash);
  }

  lemma BothEnd(s: System, ops1: seq<Op>, ops2: seq<Op>, hash: Hash) returns (r: System)
    requires s.mutex == Mutex(2, false) && s.done == {} && s.committed == [] && !s.crashed && s.txs.Keys == {1, 2} && s.txs[1].ops == ops1 && s.txs[2].ops == ops2
    requires forall id :: id in s.txs ==> !s.txs[id].writer && InCommit(s, id) && s.txs[id].phase.str.todo == []
    ensures Reaches(s, r, hash) && r.db.strings == s.db.strings && r.committed == ops1 + ops2 && Quiet(r) && OnlyTwo(r, 1, 2, ops1, ops2)
  {
    hide Reaches, Quiet, OnlyTwo;
    var a := SetRun(s, 1, hash);
    var b := SetRun(a, 2, hash);
    ReachesOn(s, a, b, hash);
    r := EndBoth(b, ops1, ops2, hash);
    ReachesOn(s, b, r, hash);
  }

  /** Two transactions whose workers are done end one after the other. */
  lemma EndBoth(s: System, ops1: seq<Op>, ops2: seq<Op>, hash: Hash) returns (r: System)
    requires s.mutex == Mutex(2, false) && s.done == {} && s.committed == [] && !s.crashed && s.txs.Keys == {1, 2} && s.txs[1].ops == ops1 && s.txs[2].ops == ops2
    requires forall id :: id in s.txs ==> !s.txs[id].writer && InCommit(s, id) && s.txs[id].phase.str.todo == [] && s.txs[id].phase.set_.todo == []
    ensures Reaches(s, r, hash) && r.db.strings == s.db.strings && r.committed == ops1 + ops2 && Quiet(r) && OnlyTwo(r, 1, 2, ops1, ops2)
  {
    hide Reaches;
    var c := Next(s, Ends(1), hash);
    ReachesOne(s, Ends(1), hash);
    r := Next(c, Ends(2), hash);
    ReachesOne(c, Ends(2), hash);
    ReachesOn(s, c, r, hash);
    assert [] + ops1 + ops2 == ops1 + ops2;
    assert forall id :: id in r.txs ==> id == 1 || id == 2;
  }

  // --- what comes out ---

  /** The last value that the entries give the key. */
  function Last(es: seq<Pending>, k: Bytes): Option<Bytes> {
    if es == [] then None
    else
      var e := es[|es| - 1];
      if e.key == k then Some(e.value) else Last(es[..|es| - 1], k)
  }

  predicate Unexpiring(es: seq<Pending>) {
    forall i :: 0 <= i < |es| ==> es[i] == Plain(es[i].key, es[i].value)
  }

  function FoldEntries(m: Contents, es: seq<Pending>): Contents {
    if es == [] then m else FoldEntries(m, es[..|es| - 1])[es[|es| - 1].key := Cell(es[|es| - 1].value, 0)]
  }

  lemma {:induction false} FinishRefines(s: OpenStore, m: Contents, merged: int, es: seq<Pending>)
    requires Refines(s, m, merged) && Unexpiring(es)
    ensures Refines(StrFinish(s, Worker(es, None)), FoldEntries(m, es), merged)
    decreases |es|
  {
    hide Refines, Put, Storable;
    if es != [] {
      var most, e := es[..|es| - 1], es[|es| - 1];
      FinishRefines(s, m, merged, most);
      assert most + [e] == es;
      StrFinishAppend(s, most, e);
      PutRefines(StrFinish(s, Worker(most, None)), FoldEntries(m, most), merged, Marked(e), true);
    }
  }

  lemma {:induction false} FoldLast(m: Contents, es: seq<Pending>, k: Bytes)
    ensures Last(es, k).Some? ==> k in FoldEntries(m, es) && FoldEntries(m, es)[k] == Cell(Last(es, k).value, 0)
    ensures Last(es, k).None? ==> (k in FoldEntries(m, es) <==> k in m) && (k in m ==> FoldEntries(m, es)[k] == m[k])
    decreases |es|
  {
    if es != [] {
      FoldLast(m, es[..|es| - 1], k);
    }
  }

  lemma {:induction false} BufferUnexpiring(ops: seq<Op>)
    requires OpsFit(ops)
    ensures Unexpiring(StrBuffer(ops))
    decreases |ops|
  {
    hide Bufferable, MembersFit;
    if ops != [] {
      BufferUnexpiring(ops[..|ops| - 1]);
    }
  }

  lemma {:induction false} BufferFolds(m: Contents, ops: seq<Op>)
    requires OpsFit(ops)
    ensures FoldEntries(m, StrBuffer(ops)) == FoldSets(m, ops)
    decreases |ops|
  {
    hide Bufferable, MembersFit;
    if ops != [] {
      var most, op := ops[..|ops| - 1], ops[|ops| - 1];
      BufferFolds(m, most);
      if op.TxSet? {
        var es := StrBuffer(most) + [Plain(op.key, op.value)];
        assert es[..|es| - 1] == StrBuffer(most);
      } else {
        assert StrBuffer(most) + [] == StrBuffer(most);
      }
    }
  }

  /** Of two keys, one gets its last value before the other: there the buffer can be cut. */
  lemma {:induction false} Cut(es: seq<Pending>, a: Bytes, b: Bytes) returns (n: nat, x: Bytes, y: Bytes)
    requires a != b && Last(es, a).Some? && Last(es, b).Some?
    ensures n <= |es| && ((x == a && y == b) || (x == b && y == a)) && Last(es[n..], x).None? && Last(es[n..], y) == Last(es, y)
    decreases |es|
  {
    var i := |es| - 1;
    var e := es[i];
    if e.key == a || e.key == b {
      n, x, y := i, if e.key == a then b else a, e.key;
      assert es[i..] == [e] && [e][..0] == [];
    } else {
      n, x, y := Cut(es[..i], a, b);
      assert es[n..][..|es[n..]| - 1] == es[..i][n..] && es[n..][|es[n..]| - 1] == e;
    }
  }

  /**
   Mixing. Two RTX transactions that both set two keys, with different last values, can overlap so that each of them
   leaves its value in one of the keys, whatever else they do and whatever was there before. No order of the two
   transactions gives that.
   */
  lemma ReadersCanMix(db0: Db, m: Contents, merged: int, hash: Hash, ops1: seq<Op>, ops2: seq<Op>, a: Bytes, b: Bytes)
    returns (ss: seq<System>, evs: seq<Event>, m': Contents)
    requires Refines(db0.strings, m, merged) && OpsFit(ops1) && OpsFit(ops2) && a != b
    requires forall k :: k in {a, b} ==> Last(StrBuffer(ops1), k).Some? && Last(StrBuffer(ops2), k).Some? && Last(StrBuffer(ops1), k) != Last(StrBuffer(ops2), k)
    ensures Run(ss, evs, db0, hash) && Quiet(ss[|evs|]) && OnlyTwo(ss[|evs|], 1, 2, ops1, ops2)
    ensures Refines(ss[|evs|].db.strings, m', merged) && a in m' && b in m' && m'[a].expiredAt == m'[b].expiredAt == 0
    ensures var one, two := FoldSets(FoldSets(m, ops1), ops2), FoldSets(FoldSets(m, ops2), ops1);
            && a in one && b in one && a in two && b in two
            && !(m'[a] == one[a] && m'[b] == one[b]) && !(m'[a] == two[a] && m'[b] == two[b])
  {
    hide Refines, Reaches, StrFinish, Run, OpsFit, StrBuffer, BothCommit, Quiet;
    var es, fs := StrBuffer(ops1), StrBuffer(ops2);
    var n, x, y := Cut(es, a, b);
    var s := BothStart(db0, ops1, ops2, hash);
    CutFits(s, ops1, ops2);
    var t := BothWrite(s, ops1, ops2, n, hash);
    var r := BothEnd(t, ops1, ops2, hash);
    ReachesOn(Start(db0), s, t, hash);
    ReachesOn(Start(db0), t, r, hash);
    ss, evs := ReachesRun(db0, r, hash);
    BufferUnexpiring(ops1);
    BufferUnexpiring(ops2);
    m' := FoldEntries(FoldEntries(FoldEntries(m, es[..n]), fs), es[n..]);
    MixedRefines(db0.strings, m, merged, es, fs, n);
    MixedValues(m, es, fs, n, x, y);
    BufferFolds(m, ops1);
    BufferFolds(m, ops2);
    BufferFolds(FoldSets(m, ops1), ops2);
    BufferFolds(FoldSets(m, ops2), ops1);
    SerialValues(FoldSets(m, ops1), fs, a, b);
    SerialValues(FoldSets(m, ops2), es, a, b);
  }

  lemma CutFits(s: System, ops1: seq<Op>, ops2: seq<Op>)
    requires OpsFit(ops1) && OpsFit(ops2) && BothCommit(s, ops1, ops2)
    ensures s.mutex == Mutex(2, false) && s.done == {} && s.committed == [] && !s.crashed && s.txs.Keys == {1, 2} && s.txs[1].ops == ops1 && s.txs[2].ops == ops2
  {
  }

  lemma ReachesRun(db0: Db, r: System, hash: Hash) returns (ss: seq<System>, evs: seq<Event>)
    requires Reaches(Start(db0), r, hash)
    ensures Run(ss, evs, db0, hash) && ss[|evs|] == r
  {
    hide CanRun, After, Run;
    evs :| CanRun(Start(db0), evs, hash) && After(Start(db0), evs, hash) == r;
    ss := IsRun(db0, evs, hash);
  }

  lemma MixedRefines(s: OpenStore, m: Contents, merged: int, es: seq<Pending>, fs: seq<Pending>, n: nat)
    requires Refines(s, m, merged) && Unexpiring(es) && Unexpiring(fs) && n <= |es|
    ensures Refines(StrFinish(StrFinish(StrFinish(s, Worker(es[..n], None)), Worker(fs, None)), Worker(es[n..], None)),
                    FoldEntries(FoldEntries(FoldEntries(m, es[..n]), fs), es[n..]), merged)
  {
    hide Refines, StrFinish, FoldEntries;
    FinishRefines(s, m, merged, es[..n]);
    var s1, m1 := StrFinish(s, Worker(es[..n], None)), FoldEntries(m, es[..n]);
    FinishRefines(s1, m1, merged, fs);
    FinishRefines(StrFinish(s1, Worker(fs, None)), FoldEntries(m1, fs), merged, es[n..]);
  }

  lemma MixedValues(m: Contents, es: seq<Pending>, fs: seq<Pending>, n: nat, x: Bytes, y: Bytes)
    requires n <= |es| && Last(es[n..], x).None? && Last(es[n..], y) == Last(es, y) && Last(fs, x).Some? && Last(es, y).Some?
    ensures var m' := FoldEntries(FoldEntries(FoldEntries(m, es[..n]), fs), es[n..]);
            x in m' && y in m' && m'[x] == Cell(Last(fs, x).value, 0) && m'[y] == Cell(Last(es, y).value, 0)
  {
    hide Last, FoldEntries;
    var m1 := FoldEntries(m, es[..n]);
    FoldLast(m1, fs, x);
    FoldLast(FoldEntries(m1, fs), es[n..], x);
    FoldLast(FoldEntries(m1, fs), es[n..], y);
  }

  lemma SerialValues(m: Contents, es: seq<Pending>, a: Bytes, b: Bytes)
    requires Last(es, a).Some? && Last(es, b).Some?
    ensures var r := FoldEntries(m, es); a in r && b in r && r[a] == Cell(Last(es, a).value, 0) && r[b] == Cell(Last(es, b).value, 0)
  {
    FoldLast(m, es, a);
    FoldLast(m, es, b);
  }
}
