/** The accepted commands of a history folded into a plain map, against what Get finds. */
module Folding {
  import opened Bytes
  import opened LogFile
  import opened Store
  import opened Refinement
  import opened Recovery
  import opened Runs
  import opened Restarts

  // --- what a key is spared ---

  /**
   What a key is spared: no merge works on a file in which its entry has no room, and a restart finds its entry readable, or
   finds the key recoverable and no entry of it without room.
   */
  predicate Spared(w: World, ev: Event, k: Bytes) {
    match ev
    case Runs(_, _) => true
    case Drains => true
    case Merges(fid, _, _) => !Stranded(w.store, fid, k)
    case Reopens => HasRoom(w.store, k) || (DurableAt(w.store, k) && !Hidden(w.store, k))
  }

  /** A restart finds the cell of a key again, or drops it after its time. */
  lemma RestartSpares(s: Store, m: Contents, merged: int, k: Bytes)
    requires Refines(s, m, merged) && LiveFound(s, k) && (HasRoom(s, k) || (DurableAt(s, k) && !Hidden(s, k)))
    ensures Fades(Recovered(s), m, merged, k)
  {
    hide Refines, DurableAt, Hidden, Recovered, Live, HasRoom, Reopen, Fades;
    RefinesFiles(s, m, merged);
    if DurableAt(s, k) && !Hidden(s, k) {
      RecoveredFades(s, m, merged, k);
    } else {
      RestartNode(s, k);
      SameCell(s, m, merged, k);
      SameFades(Recovered(s), m, merged, k);
    }
  }

  lemma SameFades(m: Contents, p: Contents, merged: int, k: Bytes)
    requires k in m && k in p && m[k] == p[k]
    ensures Fades(m, p, merged, k)
  {
  }

  lemma MergeKeepsCell(w: World, ev: Event, k: Bytes)
    requires ev.Merges? && !Stranded(w.store, ev.fid, k)
    ensures var m := MergedContents(w.store, w.contents, ev.fid, ev.ratio);
            (k in m <==> k in w.contents) && (k in m ==> m[k] == w.contents[k])
  {
    hide Mergeable, Stranded;
  }

  lemma PointFound(ws: seq<World>, evs: seq<Event>, maxSize: nat, epoch: int, i: nat, k: Bytes)
    requires History(ws, evs, maxSize, epoch) && i < |ws|
    ensures LiveFound(ws[i].store, k)
  {
    hide History, Trace, LiveFound;
    var ss := Stores(ws, evs, maxSize, epoch);
    HistoryFound(ss, evs, maxSize, i, k);
  }

  // --- the fold of the commands ---

  /** The accepted commands folded into a plain map, whatever merges and restarts there were. */
  ghost function Fold(ws: seq<World>, evs: seq<Event>, maxSize: nat, epoch: int, i: nat): Contents
    requires History(ws, evs, maxSize, epoch) && i <= |evs|
    decreases i
  {
    if i == 0 then map[]
    else
      var p, ev := Fold(ws, evs, maxSize, epoch, i - 1), evs[i - 1];
      if ev.Runs? && !Execute(ws[i - 1].store, ev.command, ev.now).1.Failed? then Apply(p, ev.command, ev.now).0 else p
  }

  /** The cell is visible, although a merge that has read its clock since may have dropped it. */
  predicate Fading(p: Contents, k: Bytes, now: int, merged: int) {
    k in p && !Expired(p[k].expiredAt, now) && Gone(p[k], merged)
  }

  /** For this key `m` has what `p` has, unless its time was up at a merge. */
  predicate Fades(m: Contents, p: Contents, merged: int, k: Bytes) {
    (k in m ==> k in p && p[k] == m[k]) && (k in p && k !in m ==> Gone(p[k], merged))
  }

  /** What the fold asks of an event for one key: it is spared, and no command that depends on its value comes while that is fading. */
  predicate Undisturbed(w: World, p: Contents, ev: Event, k: Bytes) {
    Spared(w, ev, k) && (ev.Runs? && ReadsKey(ev.command) == Some(k) ==> !Fading(p, k, ev.now, w.merged))
  }

  lemma SameLookup(m: Contents, p: Contents, merged: int, k: Bytes, now: int)
    requires Fades(m, p, merged, k) && !Fading(p, k, now, merged)
    ensures Lookup(m, k, now) == Lookup(p, k, now)
  {
  }

  lemma {:induction false} PairsFade(m: Contents, p: Contents, merged: int, args: seq<Bytes>, k: Bytes)
    requires Fades(m, p, merged, k) && |args| % 2 == 0
    ensures Fades(SetPairs(m, args), SetPairs(p, args), merged, k)
    decreases |args|
  {
    if |args| >= 2 {
      PairsFade(m[args[0] := Cell(args[1], 0)], p[args[0] := Cell(args[1], 0)], merged, args[2..], k);
    }
  }

  lemma ApplyFades(m: Contents, p: Contents, merged: int, c: Command, now: int, k: Bytes)
    requires Fades(m, p, merged, k) && (ReadsKey(c) == Some(k) ==> !Fading(p, k, now, merged))
    ensures Fades(Apply(m, c, now).0, Apply(p, c, now).0, merged, k)
  {
    if ReadsKey(c) == Some(k) {
      SameLookup(m, p, merged, k, now);
      hide Lookup, Gone;
    } else if c.MSet? && |c.args| % 2 == 0 {
      PairsFade(m, p, merged, c.args, k);
    }
  }

  /** What a restart finds of a recoverable key without hidden entries. */
  lemma RecoveredFades(s: Store, m: Contents, merged: int, k: Bytes)
    requires Refines(s, m, merged) && DurableAt(s, k) && !Hidden(s, k)
    ensures Fades(Recovered(s), m, merged, k)
  {
    hide Reopen, Hidden, EntryAt, Used, DurableAt, WrittenAt;
    RefinesFiles(s, m, merged);
    RestartNode(s, k);
    assert k in s.index ==> NodeOk(s, m, merged, k);
    if k in Live(s) {
      SameCell(s, m, merged, k);
    }
  }

  lemma NextFades(w: World, p: Contents, ev: Event, k: Bytes)
    requires Refines(w.store, w.contents, w.merged) && LiveFound(w.store, k) && Allowed(w.store, ev)
    requires Fades(w.contents, p, w.merged, k) && Undisturbed(w, p, ev, k)
    ensures var p' := if ev.Runs? && !Execute(w.store, ev.command, ev.now).1.Failed? then Apply(p, ev.command, ev.now).0 else p;
            Fades(Next(w, ev).contents, p', Next(w, ev).merged, k)
  {
    hide Refines, Execute, Apply, Merge, Reopen, Recovered, Hidden, DurableAt, LiveFound, HasRoom;
    match ev
    case Runs(c, now) => ApplyFades(w.contents, p, w.merged, c, now, k);
    case Drains =>
    case Merges(fid, ratio, clock) =>
    case Reopens => RestartSpares(w.store, w.contents, w.merged, k);
  }

  lemma {:induction false} FoldFades(ws: seq<World>, evs: seq<Event>, maxSize: nat, epoch: int, i: nat, k: Bytes)
    requires History(ws, evs, maxSize, epoch) && i <= |evs|
    requires forall n :: 0 <= n < i ==> Undisturbed(ws[n], Fold(ws, evs, maxSize, epoch, n), evs[n], k)
    ensures Fades(ws[i].contents, Fold(ws, evs, maxSize, epoch, i), ws[i].merged, k)
    decreases i
  {
    hide Refines, Undisturbed, Next, Execute, Apply, LiveFound;
    if i > 0 {
      hide Fades;
      FoldFades(ws, evs, maxSize, epoch, i - 1, k);
      HistoryGood(ws, evs, maxSize, epoch, i - 1);
      PointFound(ws, evs, maxSize, epoch, i - 1, k);
      NextFades(ws[i - 1], Fold(ws, evs, maxSize, epoch, i - 1), evs[i - 1], k);
    }
  }

  /**
   The fold. For every key that no event of the history disturbs, whatever happens to other keys, Get finds exactly what
   folding the accepted commands leaves visible (last write wins, deletes remove, expired keys are hidden), given room and
   unless the key is fading.
   */
  lemma FoldReads(ws: seq<World>, evs: seq<Event>, maxSize: nat, epoch: int, i: nat, k: Bytes, now: int)
    requires History(ws, evs, maxSize, epoch) && i <= |evs|
    requires forall n :: 0 <= n < i ==> Undisturbed(ws[n], Fold(ws, evs, maxSize, epoch, n), evs[n], k)
    requires !Fading(Fold(ws, evs, maxSize, epoch, i), k, now, ws[i].merged)
    ensures forall v :: Get(ws[i].store, k, now) == Found(v)
                        <==> Lookup(Fold(ws, evs, maxSize, epoch, i), k, now) == Some(v) && HasRoom(ws[i].store, k)
  {
    hide Refines, Undisturbed, Fades, Next, Execute, Apply, Get, Fading, Lookup, HasRoom;
    FoldFades(ws, evs, maxSize, epoch, i, k);
    SameLookup(ws[i].contents, Fold(ws, evs, maxSize, epoch, i), ws[i].merged, k, now);
    HistoryGood(ws, evs, maxSize, epoch, i);
    GetRefines(ws[i].store, ws[i].contents, ws[i].merged, k, now);
  }
}
