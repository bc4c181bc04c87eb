/** What a rescan of the discard table finds, after any run of its operations. */
module Reloading {
  import opened Bytes
  import opened Ledger

  /** No fid stands in two records. */
  ghost predicate UniqueFids(rs: Records) {
    forall o, p :: IsSlot(o) && IsSlot(p) && !Unclaimed(At(rs, o)) && !Unclaimed(At(rs, p)) && At(rs, o).fid == At(rs, p).fid ==> o == p
  }

  /** The free list holds, in ascending order, the slots below `end` that have neither fid nor total. */
  ghost predicate FreeBelow(t: Table, rs: Records, end: nat) {
    && (forall i, j :: 0 <= i < j < |t.free| ==> t.free[i] < t.free[j])
    && forall o :: o in t.free <==> IsSlot(o) && o < end && Unclaimed(At(rs, o))
  }

  /** The location map holds the other slots below `end`, under the fid they carry. */
  ghost predicate LocatedBelow(t: Table, rs: Records, end: nat) {
    && (forall f :: f in t.location ==>
          IsSlot(t.location[f]) && t.location[f] < end && !Unclaimed(At(rs, t.location[f])) && At(rs, t.location[f]).fid == f)
    && (forall o :: IsSlot(o) && o < end && !Unclaimed(At(rs, o)) ==>
          At(rs, o).fid in t.location && t.location[At(rs, o).fid] == o)
  }

  lemma {:induction false} ScanFinds(rs: Records, n: nat)
    requires n <= SLOTS && UniqueFids(rs)
    ensures var t := Scanned(rs, RECORD_SIZE * n);
            FreeBelow(t, rs, RECORD_SIZE * n) && LocatedBelow(t, rs, RECORD_SIZE * n) && |t.free| + |t.location| == n
  {
    hide UniqueFids, FreeBelow, LocatedBelow, Add;
    if n == 0 {
      ScanStarts(rs);
    } else {
      ScanFinds(rs, n - 1);
      var off := RECORD_SIZE * (n - 1);
      assert RECORD_SIZE * n - RECORD_SIZE == off;
      AddFinds(Scanned(rs, off), rs, off);
    }
  }

  lemma ScanStarts(rs: Records)
    ensures FreeBelow(Scanned(rs, 0), rs, 0) && LocatedBelow(Scanned(rs, 0), rs, 0) && Scanned(rs, 0) == Table([], map[])
  {
  }

  lemma AddFinds(t: Table, rs: Records, off: nat)
    requires UniqueFids(rs) && IsSlot(off) && FreeBelow(t, rs, off) && LocatedBelow(t, rs, off)
    ensures var r := Add(t, rs, off);
            && FreeBelow(r, rs, off + RECORD_SIZE) && LocatedBelow(r, rs, off + RECORD_SIZE)
            && |r.free| + |r.location| == |t.free| + |t.location| + 1
  {
    hide FreeBelow, LocatedBelow, UniqueFids;
    if Unclaimed(At(rs, off)) {
      AddFree(t, rs, off);
    } else {
      AddLocated(t, rs, off);
    }
  }

  lemma SlotsApart(a: int, b: int)
    requires IsSlot(a) && IsSlot(b) && a != b
    ensures a + RECORD_SIZE <= b || b + RECORD_SIZE <= a
  {
  }

  lemma NextSlot(off: int)
    requires IsSlot(off)
    ensures forall o: int :: IsSlot(o) ==> (o < off + RECORD_SIZE <==> o == off || o < off)
  {
    forall o: int | IsSlot(o)
      ensures o < off + RECORD_SIZE <==> o == off || o < off
    {
      if o != off {
        SlotsApart(o, off);
      }
    }
  }

  lemma AddFree(t: Table, rs: Records, off: nat)
    requires IsSlot(off) && Unclaimed(At(rs, off)) && FreeBelow(t, rs, off) && LocatedBelow(t, rs, off)
    ensures var r := t.(free := t.free + [off]); FreeBelow(r, rs, off + RECORD_SIZE) && LocatedBelow(r, rs, off + RECORD_SIZE)
  {
    hide At;
    NextSlot(off);
    hide IsSlot;
    var r := t.(free := t.free + [off]);
    forall i | 0 <= i < |t.free|
      ensures t.free[i] < off
    {
      assert t.free[i] in t.free;
    }
    assert forall o :: o in r.free <==> o in t.free || o == off;
  }

  lemma AddLocated(t: Table, rs: Records, off: nat)
    requires UniqueFids(rs) && IsSlot(off) && !Unclaimed(At(rs, off))
    requires FreeBelow(t, rs, off) && LocatedBelow(t, rs, off)
    ensures var r := t.(location := t.location[At(rs, off).fid := off]);
            FreeBelow(r, rs, off + RECORD_SIZE) && LocatedBelow(r, rs, off + RECORD_SIZE) && |r.location| == |t.location| + 1
  {
    hide At, Unclaimed, UniqueFids;
    NextSlot(off);
    hide IsSlot;
    NewFid(t, rs, off);
    OneMore(t.location, At(rs, off).fid, off);
  }

  lemma NewFid(t: Table, rs: Records, off: nat)
    requires UniqueFids(rs) && IsSlot(off) && !Unclaimed(At(rs, off)) && LocatedBelow(t, rs, off)
    ensures At(rs, off).fid !in t.location
  {
    hide At, Unclaimed, IsSlot;
  }

  lemma FreeIsUnclaimed(l: Ledger, o: nat)
    requires Sound(l) && o in l.free
    ensures IsSlot(o) && Unclaimed(At(l.records, o))
  {
    hide Covers;
    var i :| 0 <= i < |l.free| && l.free[i] == o;
  }

  /** The owner of a slot that carries a fid. */
  lemma Owner(l: Ledger, o: nat) returns (f: nat)
    requires Sound(l) && IsSlot(o) && !Unclaimed(At(l.records, o))
    ensures f in l.location && l.location[f] == o && Registered(At(l.records, o), f)
  {
    if o in l.free {
      FreeIsUnclaimed(l, o);
    }
    f :| f in l.location && l.location[f] == o;
    LocatedRecord(l, f);
  }

  lemma SoundUnique(l: Ledger)
    requires Sound(l)
    ensures UniqueFids(l.records)
  {
    hide Sound, Unclaimed;
    forall o: nat, p: nat | IsSlot(o) && IsSlot(p) && !Unclaimed(At(l.records, o)) && !Unclaimed(At(l.records, p)) && At(l.records, o).fid == At(l.records, p).fid
      ensures o == p
    {
      var f := Owner(l, o);
      var g := Owner(l, p);
    }
  }

  /** What the scan of a sound table finds. */
  lemma ReloadFinds(l: Ledger)
    requires Sound(l)
    ensures var r := Reload(l); var t := Table(r.free, r.location);
            FreeBelow(t, l.records, RECORD_SIZE * SLOTS) && LocatedBelow(t, l.records, RECORD_SIZE * SLOTS) && |r.free| + |r.location| == SLOTS
  {
    hide Sound, Scanned, UniqueFids, FreeBelow, LocatedBelow;
    SoundUnique(l);
    ScanFinds(l.records, SLOTS);
  }

  lemma SlotsBelow(o: int)
    requires IsSlot(o)
    ensures o < RECORD_SIZE * SLOTS
  {
  }

  /** Any reload gives a sound table again. */
  lemma ReloadSound(l: Ledger)
    requires Sound(l)
    ensures Sound(Reload(l))
  {
    hide Scanned;
    ReloadFinds(l);
    var r := Reload(l);
    forall f | f in r.location
      ensures Located(r.records, r.free, f, r.location[f])
    {
      var g := Owner(l, r.location[f]);
    }
    forall i | 0 <= i < |r.free|
      ensures IsSlot(r.free[i]) && Unclaimed(At(r.records, r.free[i]))
    {
      assert r.free[i] in r.free;
    }
    forall o: nat | IsSlot(o)
      ensures o in r.free || exists f :: f in r.location && r.location[f] == o
    {
      SlotsBelow(o);
      if o !in r.free {
        assert r.location[At(r.records, o).fid] == o;
      }
    }
  }

  ghost predicate AllRegistered(l: Ledger) {
    forall f :: f in l.location ==> Registered(At(l.records, l.location[f]), f)
  }

  ghost predicate SameTable(l: Ledger, r: Ledger) {
    r.location == l.location && r.records == l.records && forall o :: o in r.free <==> o in l.free
  }

  /**
   Reload. Rescanning rebuilds exactly the location map and the same free slots, if and only if every located
   fid has been registered: a fid that was only ever counted loses its slot.
   */
  lemma ReloadExact(l: Ledger)
    requires Sound(l)
    ensures SameTable(l, Reload(l)) <==> AllRegistered(l)
  {
    hide Scanned, Sound;
    ReloadFinds(l);
    var r := Reload(l);
    if AllRegistered(l) {
      ReloadSame(l, r);
    } else {
      var f :| f in l.location && !Registered(At(l.records, l.location[f]), f);
      LocatedRecord(l, f);
    }
  }

  lemma ReloadSame(l: Ledger, r: Ledger)
    requires Sound(l) && AllRegistered(l) && r.records == l.records
    requires FreeBelow(Table(r.free, r.location), l.records, RECORD_SIZE * SLOTS)
    requires LocatedBelow(Table(r.free, r.location), l.records, RECORD_SIZE * SLOTS)
    ensures SameTable(l, r)
  {
    hide Sound, Unclaimed;
    forall f | f in l.location
      ensures f in r.location && r.location[f] == l.location[f]
    {
      LocatedRecord(l, f);
      SlotsBelow(l.location[f]);
      NotUnclaimed(At(l.records, l.location[f]), f);
    }
    forall f | f in r.location
      ensures f in l.location
    {
      var g := Owner(l, r.location[f]);
    }
    assert r.location == l.location;
    forall o: nat
      ensures o in r.free <==> o in l.free
    {
      if o in l.free {
        FreeIsUnclaimed(l, o);
        SlotsBelow(o);
      } else if o in r.free {
        NotLocated(l, o);
      }
    }
  }

  lemma NotUnclaimed(r: Record, f: nat)
    requires Registered(r, f)
    ensures !Unclaimed(r)
  {
  }

  lemma NotLocated(l: Ledger, o: nat)
    requires Sound(l) && AllRegistered(l) && IsSlot(o) && Unclaimed(At(l.records, o))
    ensures o in l.free
  {
  }

  /** The candidates are exactly the registered files other than the active one whose ratio is exceeded. */
  lemma CandidateIff(l: Ledger, f: nat, active: nat, ratio: real)
    requires Sound(l) && f != 0
    ensures Candidate(l, f, active, ratio)
            <==> f != active && f in l.location && Registered(At(l.records, l.location[f]), f)
                 && At(l.records, l.location[f]).discarded as real / At(l.records, l.location[f]).total as real > ratio
  {
    if o :| o in l.records && l.records[o].fid == f && Picked(l.records[o], active, ratio) {
      var g := Owner(l, o);
    }
    if f in l.location {
      LocatedRecord(l, f);
    }
  }

  /** With a ratio of 0 or more fid 0 is no candidate; with a negative one it is if some slot has no fid, unless it is active. */
  lemma CandidateZero(l: Ledger, active: nat, ratio: real)
    ensures Candidate(l, 0, active, ratio) <==> ratio < 0.0 && active != 0 && exists o :: o in l.records && l.records[o].fid == 0
  {
    if ratio < 0.0 && active != 0 {
      if o :| o in l.records && l.records[o].fid == 0 {
        assert Picked(l.records[o], active, ratio);
      }
    }
  }

  // --- runs of the table ---

  datatype Op = Registers(fid: nat, total: nat) | Counts(fid: nat, delta: int) | Clears(fid: nat) | Removes(fid: nat) | Reloads

  function Step(l: Ledger, op: Op): Ledger {
    match op
    case Registers(fid, total) => SetTotal(l, fid, total)
    case Counts(fid, delta) => Incr(l, fid, delta)
    case Clears(fid) => Clear(l, fid)
    case Removes(fid) => RemoveSlot(l, fid)
    case Reloads => Reload(l)
  }

  /** The table after a run that started on a fresh file. */
  function After(ops: seq<Op>): Ledger {
    if ops == [] then Fresh() else Step(After(ops[..|ops| - 1]), ops[|ops| - 1])
  }

  lemma FreshSound()
    ensures Sound(Fresh()) && Clean(Fresh()) && Fresh().location == map[] && !Fresh().exited
  {
    hide Scanned;
    var l := Fresh();
    assert forall o :: At(l.records, o) == Blank;
    ScanFinds(l.records, SLOTS);
    assert forall f :: f !in l.location;
    forall i | 0 <= i < |l.free|
      ensures IsSlot(l.free[i])
    {
      assert l.free[i] in l.free;
    }
    forall o: nat | IsSlot(o)
      ensures o in l.free
    {
      SlotsBelow(o);
    }
  }

  lemma StepSound(l: Ledger, op: Op)
    requires Sound(l)
    ensures Sound(Step(l, op)) && (Clean(l) && !op.Reloads? ==> Clean(Step(l, op)))
  {
    hide Sound, Clean, Alloc, SetTotal, Incr, Clear, RemoveSlot, Reload, Counter, Registered;
    match op
    case Registers(fid, total) => SetTotalSound(l, fid, total);
    case Counts(fid, delta) => IncrSound(l, fid, delta);
    case Clears(fid) => ClearSound(l, fid);
    case Removes(fid) => RemoveSound(l, fid);
    case Reloads => ReloadSound(l);
  }

  /**
   The allocator. After any run, reloads included, free and located slots partition the same 682 slots, and no two
   files share one. Without a reload every free slot is all zero.
   */
  lemma {:induction false} AfterSound(ops: seq<Op>)
    ensures Sound(After(ops)) && ((forall i :: 0 <= i < |ops| ==> !ops[i].Reloads?) ==> Clean(After(ops)))
    decreases |ops|
  {
    hide Sound, Clean, Step;
    if ops == [] {
      FreshSound();
    } else {
      var most := ops[..|ops| - 1];
      AfterSound(most);
      StepSound(After(most), ops[|ops| - 1]);
    }
  }

  /** Counting goes to files that have a slot. */
  predicate Counted(l: Ledger, op: Op) {
    op.Counts? && op.delta > 0 ==> op.fid in l.location
  }

  /** Registering, clearing and removing keep every file registered; counting does if and only if the file has a slot, or none is left. */
  lemma StepRegistered(l: Ledger, op: Op)
    requires Sound(l) && AllRegistered(l)
    ensures AllRegistered(Step(l, op)) <==> Counted(l, op) || l.free == []
  {
    hide Sound, Reload;
    match op
    case Registers(fid, total) => RegisterRegistered(l, fid, total);
    case Counts(fid, delta) => CountRegistered(l, fid, delta);
    case Clears(fid) => AllocSound(l, fid); ReleaseRegistered(Alloc(l, fid), l, fid);
    case Removes(fid) => ReleaseRegistered(l, l, fid);
    case Reloads => ReloadExact(l);
  }

  lemma RegisterRegistered(l: Ledger, fid: nat, total: nat)
    requires Sound(l) && AllRegistered(l)
    ensures AllRegistered(SetTotal(l, fid, total))
  {
    hide Sound;
    AllocSound(l, fid);
    var r := SetTotal(l, fid, total);
    forall f | f in r.location
      ensures Registered(At(r.records, r.location[f]), f)
    {
      if f != fid && fid in r.location {
        OwnSlots(Alloc(l, fid), f, fid);
      }
    }
  }

  lemma OwnSlots(l: Ledger, f: nat, g: nat)
    requires Sound(l) && f in l.location && g in l.location && f != g
    ensures l.location[f] != l.location[g]
  {
  }

  lemma CountRegistered(l: Ledger, fid: nat, delta: int)
    requires Sound(l) && AllRegistered(l)
    ensures AllRegistered(Incr(l, fid, delta)) <==> delta <= 0 || fid in l.location || l.free == []
  {
    hide Sound;
    AllocSound(l, fid);
    var a, r := Alloc(l, fid), Incr(l, fid, delta);
    forall f | f in r.location && f != fid
      ensures Registered(At(r.records, r.location[f]), f)
    {
      if fid in a.location {
        OwnSlots(a, f, fid);
      }
    }
    if delta > 0 && fid !in l.location && l.free != [] {
      assert !Registered(At(r.records, r.location[fid]), fid);
    }
  }

  lemma ReleaseRegistered(a: Ledger, l: Ledger, fid: nat)
    requires Sound(a) && AllRegistered(l) && a.records == l.records
    requires forall f :: f != fid ==> (f in a.location <==> f in l.location) && (f in l.location ==> a.location[f] == l.location[f])
    ensures fid in a.location ==> AllRegistered(Released(a, fid))
    ensures fid !in a.location ==> AllRegistered(a)
  {
    hide Sound;
    if fid in a.location {
      var r := Released(a, fid);
      forall f | f in r.location
        ensures Registered(At(r.records, r.location[f]), f)
      {
        OwnSlots(a, f, fid);
      }
    }
  }

  /** Every count of the run went to a file that had a slot. */
  predicate AllCounted(ops: seq<Op>) {
    forall i :: 0 <= i < |ops| ==> Counted(After(ops[..i]), ops[i])
  }

  /** After any run whose counts all went to registered files, a reload changes nothing. */
  lemma {:induction false} ReloadAfter(ops: seq<Op>)
    requires AllCounted(ops)
    ensures AllRegistered(After(ops)) && SameTable(After(ops), Reload(After(ops)))
    decreases |ops|
  {
    hide Sound, Step, Reload, Registered;
    AfterSound(ops);
    if ops == [] {
      FreshSound();
    } else {
      var most, n := ops[..|ops| - 1], |ops| - 1;
      forall i | 0 <= i < |most|
        ensures Counted(After(most[..i]), most[i])
      {
        assert most[..i] == ops[..i];
      }
      ReloadAfter(most);
      AfterSound(most);
      assert ops[..n] == most && Counted(After(most), ops[n]);
      StepRegistered(After(most), ops[n]);
    }
    ReloadExact(After(ops));
  }

  // --- leftover counts ---

  /** A slot that a rescan takes for free although it holds a count. */
  predicate Stale(l: Ledger, o: nat) {
    IsSlot(o) && Unclaimed(At(l.records, o)) && At(l.records, o).discarded != 0
  }

  /** No slot that a rescan takes for free is higher. */
  ghost predicate OnTop(l: Ledger, o: nat) {
    forall p :: IsSlot(p) && Unclaimed(At(l.records, p)) ==> p <= o
  }

  /**
   Leftovers. The first file registered after a reload starts at 0, if and only if the highest slot without fid and
   total holds no count. Otherwise it starts with that count.
   */
  lemma InheritsIff(l: Ledger, fid: nat, total: nat)
    requires Sound(l) && fid != 0 && total != 0 && fid !in Reload(l).location && Reload(l).free != []
    ensures var r := SetTotal(Reload(l), fid, total);
            && (Counter(r, fid) == 0 <==> !exists o :: Stale(l, o) && OnTop(l, o))
            && forall o :: Stale(l, o) && OnTop(l, o) ==> Counter(r, fid) == At(l.records, o).discarded
  {
    hide Scanned, Sound, SetTotal;
    ReloadSound(l);
    ReloadFinds(l);
    SetTotalSound(Reload(l), fid, total);
    RegisteredNow(Reload(l), fid, total);
    var free := Reload(l).free;
    var top := free[|free| - 1];
    assert top in free;
    forall p: nat | IsSlot(p) && Unclaimed(At(l.records, p))
      ensures p <= top
    {
      SlotsBelow(p);
      assert p in free;
    }
    assert OnTop(l, top);
    assert forall o :: Stale(l, o) && OnTop(l, o) ==> o == top;
  }

  lemma RegisteredNow(l: Ledger, fid: nat, total: nat)
    requires fid != 0 && total != 0 && fid !in l.location && l.free != []
    ensures fid in SetTotal(l, fid, total).location
  {
  }

  /** In a table that was clean before the reload, the stale slots are those of files counted without being registered. */
  lemma StaleOwner(l: Ledger, o: nat)
    requires Sound(l) && Clean(l)
    ensures Stale(l, o) <==> exists f :: f in l.location && l.location[f] == o && Unclaimed(At(l.records, o)) && Counter(l, f) != 0
  {
    if Stale(l, o) {
      if o in l.free {
        FreeIsZero(l, o);
        assert false;
      }
      var f :| f in l.location && l.location[f] == o;
    }
    if f :| f in l.location && l.location[f] == o && Unclaimed(At(l.records, o)) && Counter(l, f) != 0 {
      LocatedRecord(l, f);
    }
  }

  lemma FreeIsZero(l: Ledger, o: nat)
    requires Clean(l) && o in l.free
    ensures At(l.records, o).discarded == 0
  {
    var i :| 0 <= i < |l.free| && l.free[i] == o;
  }

  const LAST_SLOT: nat := 8172

  lemma FreshTop()
    ensures var free := Fresh().free; |free| == SLOTS && free[SLOTS - 1] == LAST_SLOT
  {
    hide Scanned;
    FreshSound();
    var l := Fresh();
    assert forall o :: At(l.records, o) == Blank;
    ScanFinds(l.records, SLOTS);
    assert LAST_SLOT in l.free && l.free[SLOTS - 1] in l.free;
  }

  /** Two files are registered, and some of file 1 is dead. */
  function Counted1(total: nat, c: int): Ledger {
    Incr(SetTotal(SetTotal(Fresh(), 1, total), 2, total), 1, c)
  }

  /** File 1 is merged and its slot cleared; only then another size of it, which was still queued, is counted. */
  function Leftovers(total: nat, c: int, d: int): Ledger {
    Incr(Clear(Counted1(total, c), 1), 1, d)
  }

  lemma CountedRun(total: nat, c: int)
    requires total > 0 && 0 < c < U32
    ensures var l := Counted1(total, c);
            && Sound(l) && Clean(l) && !l.exited && l.location.Keys == {1, 2} && l.location[1] == LAST_SLOT && l.free != []
            && At(l.records, LAST_SLOT) == Record(1, total, c) && Registered(At(l.records, l.location[2]), 2)
  {
    hide Fresh, Sound, Clean;
    FreshSound();
    FreshTop();
    FreshZero();
    var a := SetTotal(Fresh(), 1, total);
    SetTotalSound(Fresh(), 1, total);
    assert a.location == map[1 := LAST_SLOT] && At(a.records, LAST_SLOT) == Record(1, total, 0);
    var b := SetTotal(a, 2, total);
    SetTotalSound(a, 2, total);
    assert b.location == map[1 := LAST_SLOT, 2 := b.location[2]];
    OwnSlots(b, 1, 2);
    IncrSound(b, 1, c);
  }

  lemma FreshZero()
    ensures forall o :: At(Fresh().records, o) == Blank
  {
    hide Scanned;
  }

  lemma LeftoversRun(total: nat, c: int, d: int)
    requires total > 0 && 0 < c < U32 && 0 < d < U32
    ensures var l := Leftovers(total, c, d);
            && Sound(l) && !l.exited && l.location.Keys == {1, 2} && l.location[1] == LAST_SLOT && l.free != []
            && At(l.records, LAST_SLOT) == Record(0, 0, d) && Registered(At(l.records, l.location[2]), 2)
  {
    hide Counted1, Sound, Clean;
    CountedRun(total, c);
    var b := Counted1(total, c);
    OwnSlots(b, 1, 2);
    var e := Clear(b, 1);
    ClearSound(b, 1);
    assert e.location.Keys == {2} && e.free[|e.free| - 1] == LAST_SLOT;
    IncrSound(e, 1, d);
  }

  /** File 1 was a candidate when it was merged; after a restart the next file inherits the count that came too late. */
  lemma CountInherited(total: nat, c: int, d: int, ratio: real)
    requires total > 0 && 0 < c < U32 && 0 < d < U32 && c as real / total as real > ratio
    ensures Candidate(Counted1(total, c), 1, 2, ratio)
    ensures var r := SetTotal(Reload(Leftovers(total, c, d)), 3, total);
            3 in r.location && Counter(r, 3) == d
  {
    hide Leftovers, Counted1, Sound, Scanned, SetTotal;
    CountedRun(total, c);
    CandidateIff(Counted1(total, c), 1, 2, ratio);
    var l := Leftovers(total, c, d);
    LeftoversRun(total, c, d);
    ReloadFinds(l);
    forall f | f in Reload(l).location
      ensures f != 3
    {
      var g := Owner(l, Reload(l).location[f]);
    }
    assert LAST_SLOT in Reload(l).free;
    RegisteredNow(Reload(l), 3, total);
    InheritsIff(l, 3, total);
    assert Stale(l, LAST_SLOT) && OnTop(l, LAST_SLOT);
  }
}
