/** Counters over whole histories (Incr, Decr, IncrBy and DecrBy in str.go). */
module Counters {
  import opened Bytes
  import opened Varint
  import opened Decimal
  import opened Store
  import opened Refinement
  import opened Recovery
  import opened Runs
  import opened Restarts
  import opened Folding

  /** The key is a counter at `v`: its decimal text without expiry, or no value at all for 0. */
  predicate CounterAt(m: Contents, k: Bytes, v: int) {
    if k in m then m[k] == Cell(FormatInt(v), 0) else v == 0
  }

  predicate InPairs(args: seq<Bytes>, k: Bytes) {
    exists i :: 0 <= i < |args| && i % 2 == 0 && args[i] == k
  }

  /** The command may write the key. */
  predicate Writes(c: Command, k: Bytes) {
    if c.MSet? then InPairs(c.args, k) else c.key == k
  }

  function ReplyAt(w: World, ev: Event): Reply
    requires ev.Runs? && Allowed(w.store, ev)
  {
    Execute(w.store, ev.command, ev.now).1
  }

  /** What event `j` adds to the counter: its increment if it was answered with a number. */
  ghost function Step(ws: seq<World>, evs: seq<Event>, maxSize: nat, epoch: int, k: Bytes, j: nat): int
    requires History(ws, evs, maxSize, epoch) && j < |evs|
  {
    if evs[j].Runs? && evs[j].command.IncrBy? && evs[j].command.key == k && ReplyAt(ws[j], evs[j]).Number?
    then evs[j].command.incr else 0
  }

  /** The sum of the accepted increments from event `i` up to event `j`. */
  ghost function Total(ws: seq<World>, evs: seq<Event>, maxSize: nat, epoch: int, k: Bytes, i: nat, j: nat): int
    requires History(ws, evs, maxSize, epoch) && i <= j <= |evs|
    decreases j
  {
    if i == j then 0
    else Total(ws, evs, maxSize, epoch, k, i, j - 1) + Step(ws, evs, maxSize, epoch, k, j - 1)
  }

  /** Only counter commands write the key, and it is spared. */
  predicate OnlyCounts(w: World, ev: Event, k: Bytes) {
    Spared(w, ev, k) && (ev.Runs? ==> ev.command.IncrBy? || !Writes(ev.command, k))
  }

  lemma {:induction false} PairsElsewhere(m: Contents, args: seq<Bytes>, k: Bytes)
    requires |args| % 2 == 0 && !InPairs(args, k)
    ensures k in SetPairs(m, args) <==> k in m
    ensures k in m ==> SetPairs(m, args)[k] == m[k]
    decreases |args|
  {
    if |args| >= 2 {
      assert args[0] != k;
      forall i | 0 <= i < |args[2..]| && i % 2 == 0
        ensures args[2..][i] != k
      {
        assert args[2..][i] == args[i + 2] && (i + 2) % 2 == 0;
      }
      PairsElsewhere(m[args[0] := Cell(args[1], 0)], args[2..], k);
    }
  }

  /** A command leaves every key alone that it does not write. */
  lemma ApplyElsewhere(m: Contents, c: Command, k: Bytes, now: int)
    requires !Writes(c, k)
    ensures var m' := Apply(m, c, now).0; (k in m' <==> k in m) && (k in m ==> m'[k] == m[k])
  {
    hide Incremented;
    if c.MSet? && |c.args| % 2 == 0 {
      PairsElsewhere(m, c.args, k);
    }
  }

  /** One counter command on the plain map. */
  lemma ApplyCounts(m: Contents, k: Bytes, v: int64, d: int64, now: int)
    requires CounterAt(m, k, v)
    ensures Apply(m, IncrBy(k, d), now)
            == if MIN64 <= v + d <= MAX64 then (m[k := Cell(FormatInt(v + d), 0)], Number(v + d)) else (m, IntegerOverflow)
  {
    hide Incremented, FormatInt;
    IncrementExact(TextOf(Lookup(m, k, now)), v, d);
  }

  /**
   One step of a counter within a history: the command answers with the new sum and stores it, or it is rejected
   because the sum would leave int64, or reading the old text failed. In the last two cases nothing changes.
   */
  lemma CounterStep(s: Store, m: Contents, merged: int, k: Bytes, v: int64, d: int64, now: int)
    requires Openable(s) && Refines(s, m, merged) && Writable(IncrBy(k, d), OldValue(s, IncrBy(k, d), now))
    requires CounterAt(m, k, v)
    ensures var (r, reply) := Execute(s, IncrBy(k, d), now);
            || (MIN64 <= v + d <= MAX64 && reply == Number(v + d) && Refines(r, m[k := Cell(FormatInt(v + d), 0)], merged))
            || (reply == IntegerOverflow && r == s && !(MIN64 <= v + d <= MAX64))
            || (reply.Failed? && r == s && Broken(Get(s, k, now)))
  {
    hide Refines, Get, Current, FormatInt;
    ExecuteRefines(s, m, merged, IncrBy(k, d), now);
    ApplyCounts(m, k, v, d, now);
    RejectedKeeps(s, k, d, now);
  }

  lemma RejectedKeeps(s: Store, k: Bytes, d: int64, now: int)
    requires Openable(s) && Writable(IncrBy(k, d), OldValue(s, IncrBy(k, d), now))
    ensures var (r, reply) := Execute(s, IncrBy(k, d), now);
            !reply.Number? ==> r == s
  {
    hide Get, Incremented, Put;
  }

  /**
   Counters. Along any part of any history where only counter commands write a key, whatever else happens to
   other keys, files and the index, the key's text is the decimal form of the sum of the accepted increments,
   and the sum never leaves int64.
   */
  lemma {:induction false} CounterSums(ws: seq<World>, evs: seq<Event>, maxSize: nat, epoch: int, k: Bytes, v: int64, i: nat, j: nat)
    requires History(ws, evs, maxSize, epoch) && i <= j <= |evs|
    requires CounterAt(ws[i].contents, k, v) && forall n :: i <= n < j ==> OnlyCounts(ws[n], evs[n], k)
    ensures var sum := v + Total(ws, evs, maxSize, epoch, k, i, j);
            MIN64 <= sum <= MAX64 && CounterAt(ws[j].contents, k, sum) && ParseInt(FormatInt(sum)) == Some(sum)
    decreases j
  {
    hide Refines, Allowed, Execute, ParseInt, FormatInt, Apply, Merge, Reopen, Drain, OnlyCounts, LiveFound;
    if i == j {
      TextRoundTrip(v);
    } else {
      CounterSums(ws, evs, maxSize, epoch, k, v, i, j - 1);
      var before := v + Total(ws, evs, maxSize, epoch, k, i, j - 1);
      HistoryGood(ws, evs, maxSize, epoch, j - 1);
      PointFound(ws, evs, maxSize, epoch, j - 1, k);
      EventCounts(ws[j - 1], evs[j - 1], k, before);
      TextRoundTrip(before + Step(ws, evs, maxSize, epoch, k, j - 1));
    }
  }

  lemma EventCounts(w: World, ev: Event, k: Bytes, v: int64)
    requires Refines(w.store, w.contents, w.merged) && LiveFound(w.store, k) && Allowed(w.store, ev)
    requires CounterAt(w.contents, k, v) && OnlyCounts(w, ev, k)
    ensures var step := if ev.Runs? && ev.command.IncrBy? && ev.command.key == k && ReplyAt(w, ev).Number? then ev.command.incr else 0;
            MIN64 <= v + step <= MAX64 && CounterAt(Next(w, ev).contents, k, v + step)
  {
    hide Refines, Execute, Apply, FormatInt, Merge, Reopen, Drain, OldValue, Writable, Recovered, Hidden, DurableAt, LiveFound, HasRoom;
    match ev
    case Runs(c, now) =>
      if Writes(c, k) {
        ExecuteRefines(w.store, w.contents, w.merged, c, now);
        ApplyCounts(w.contents, k, v, c.incr, now);
      } else {
        ApplyElsewhere(w.contents, c, k, now);
      }
    case Drains =>
    case Merges(fid, ratio, clock) =>
    case Reopens => CounterRestarts(w.store, w.contents, w.merged, k, v);
  }

  lemma CounterRestarts(s: Store, m: Contents, merged: int, k: Bytes, v: int64)
    requires Refines(s, m, merged) && LiveFound(s, k) && (HasRoom(s, k) || (DurableAt(s, k) && !Hidden(s, k))) && CounterAt(m, k, v)
    ensures CounterAt(Recovered(s), k, v)
  {
    hide Refines, FormatInt, DurableAt, Hidden, Recovered, LiveFound, HasRoom;
    RestartSpares(s, m, merged, k);
  }
}
