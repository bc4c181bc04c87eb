/**
 The discard table of discard.go on records: which slot each file has, which slots are free, and what the slots hold.
 A slot is known by its offset in the table's file.
 */
module Ledger {
  import opened Bytes

  const RECORD_SIZE: nat := 12
  const FILE_SIZE: nat := 8192
  const SLOTS: nat := 682

  /** A record as stored: fid, total size, discarded size. */
  datatype Record = Record(fid: nat, total: nat, discarded: nat)

  const Blank: Record := Record(0, 0, 0)

  type Records = map<nat, Record>

  /** `free` is used as a stack. `exited` is set where the process ends for lack of a free slot. */
  datatype Ledger = Ledger(records: Records, free: seq<nat>, location: map<nat, nat>, exited: bool)

  predicate IsSlot(off: int) {
    0 <= off && off % RECORD_SIZE == 0 && off + RECORD_SIZE <= FILE_SIZE
  }

  function At(rs: Records, o: nat): Record {
    if o in rs then rs[o] else Blank
  }

  /** What the scan of newDiscard takes for a free slot, whatever count the record holds. */
  predicate Unclaimed(r: Record) {
    r.fid == 0 && r.total == 0
  }

  // --- the operations ---

  /** alloc */
  function Alloc(l: Ledger, fid: nat): (r: Ledger)
    ensures fid in l.location || l.free != [] <==> fid in r.location
    ensures l.exited ==> r.exited
  {
    if fid in l.location then l
    else if l.free == [] then l.(exited := true)
    else
      var last := |l.free| - 1;
      l.(free := l.free[..last], location := l.location[fid := l.free[last]])
  }

  /** setTotal writes fid and total, and leaves the third word of the slot as it is. */
  function SetTotal(l: Ledger, fid: nat, total: nat): (r: Ledger)
    ensures l.exited ==> r.exited
  {
    if fid == 0 || total == 0 || fid in l.location then l
    else
      var a := Alloc(l, fid);
      if fid !in a.location then a
      else
        var o := a.location[fid];
        a.(records := a.records[o := Record(fid, total, At(a.records, o).discarded)])
  }

  /** incrDiscard writes the third word only; the count is a uint32. */
  function Incr(l: Ledger, fid: nat, delta: int): (r: Ledger)
    ensures l.exited ==> r.exited
  {
    if delta <= 0 then l
    else
      var a := Alloc(l, fid);
      if fid !in a.location then a
      else
        var o := a.location[fid];
        var was := At(a.records, o);
        a.(records := a.records[o := was.(discarded := (was.discarded + delta) % U32)])
  }

  /** The slot of a located fid is blanked and given back. */
  function Released(l: Ledger, fid: nat): Ledger
    requires fid in l.location
  {
    var o := l.location[fid];
    l.(records := l.records[o := Blank], free := l.free + [o], location := l.location - {fid})
  }

  /** removeDiscard */
  function RemoveSlot(l: Ledger, fid: nat): Ledger {
    if fid == 0 || fid !in l.location then l else Released(l, fid)
  }

  /** clear: a fid without a slot first takes one. */
  function Clear(l: Ledger, fid: nat): (r: Ledger)
    ensures l.exited ==> r.exited
  {
    var a := Alloc(l, fid);
    if fid !in a.location then a else Released(a, fid)
  }

  // --- the scan of newDiscard ---

  datatype Table = Table(free: seq<nat>, location: map<nat, nat>)

  function Add(t: Table, rs: Records, off: nat): Table {
    var r := At(rs, off);
    if Unclaimed(r) then t.(free := t.free + [off]) else t.(location := t.location[r.fid := off])
  }

  /** What the scan leaves when it has read the records before `off`. */
  function Scanned(rs: Records, off: nat): Table {
    if off < RECORD_SIZE then Table([], map[]) else Add(Scanned(rs, off - RECORD_SIZE), rs, off - RECORD_SIZE)
  }

  /** The table after a restart. */
  function Reload(l: Ledger): Ledger {
    var t := Scanned(l.records, RECORD_SIZE * SLOTS);
    Ledger(l.records, t.free, t.location, l.exited)
  }

  /** The table of a new database. */
  function Fresh(): Ledger {
    Reload(Ledger(map o: nat | o < FILE_SIZE && IsSlot(o) :: Blank, [], map[], false))
  }

  // --- what the table stands for ---

  /** The count of dead bytes of a file, 0 if it has no slot. */
  function Counter(l: Ledger, f: nat): nat {
    if f in l.location then At(l.records, l.location[f]).discarded else 0
  }

  predicate Registered(r: Record, fid: nat) {
    fid != 0 && r.fid == fid && r.total != 0
  }

  /** A located fid was registered, or only ever counted: then its record carries no fid. */
  predicate Located(rs: Records, free: seq<nat>, fid: nat, o: nat) {
    IsSlot(o) && o !in free && (Registered(At(rs, o), fid) || Unclaimed(At(rs, o)))
  }

  predicate Distinct(s: seq<nat>) {
    forall i, j :: 0 <= i < j < |s| ==> s[i] != s[j]
  }

  predicate AllUnclaimed(rs: Records, free: seq<nat>) {
    forall i :: 0 <= i < |free| ==> IsSlot(free[i]) && Unclaimed(At(rs, free[i]))
  }

  predicate AllLocated(l: Ledger) {
    forall f :: f in l.location ==> Located(l.records, l.free, f, l.location[f])
  }

  predicate Injective(location: map<nat, nat>) {
    forall f, g :: f in location && g in location && location[f] == location[g] ==> f == g
  }

  ghost predicate Covers(free: seq<nat>, location: map<nat, nat>) {
    forall o :: IsSlot(o) ==> o in free || exists f :: f in location && location[f] == o
  }

  ghost predicate AllSlots(rs: Records) {
    forall o :: o in rs <==> IsSlot(o)
  }

  /** Free and located slots partition the table; a free slot carries no fid and no total. */
  ghost predicate Sound(l: Ledger) {
    && AllSlots(l.records) && |l.free| + |l.location| == SLOTS && Distinct(l.free)
    && AllUnclaimed(l.records, l.free) && AllLocated(l) && Injective(l.location) && Covers(l.free, l.location)
  }

  /** No free slot holds a leftover count. */
  predicate Clean(l: Ledger) {
    forall i :: 0 <= i < |l.free| ==> At(l.records, l.free[i]).discarded == 0
  }

  /** What alloc hands to the next new fid: the count left over in the last free slot. */
  function Leftover(l: Ledger): nat {
    if l.free == [] then 0 else At(l.records, l.free[|l.free| - 1]).discarded
  }

  /** The test of getCCL on one record. */
  predicate Picked(r: Record, active: nat, ratio: real) {
    r.fid != active
    && (if r.total != 0 && r.fid != 0 then r.discarded as real / r.total as real else 0.0) > ratio
  }

  /** A fid that getCCL returns. */
  predicate Candidate(l: Ledger, fid: nat, active: nat, ratio: real) {
    exists o :: o in l.records && l.records[o].fid == fid && Picked(l.records[o], active, ratio)
  }

  // --- every operation keeps the partition ---

  lemma AllocCovers(free: seq<nat>, location: map<nat, nat>, fid: nat)
    requires Covers(free, location) && |free| > 0 && fid !in location
    ensures Covers(free[..|free| - 1], location[fid := free[|free| - 1]])
  {
    var off, rest := free[|free| - 1], free[..|free| - 1];
    var after := location[fid := off];
    assert free == rest + [off];
    forall o | IsSlot(o)
      ensures o in rest || exists f :: f in after && after[f] == o
    {
      if o !in free {
        var f :| f in location && location[f] == o;
        assert after[f] == o;
      } else if o == off {
        assert after[fid] == o;
      }
    }
  }

  lemma AllocPartition(l: Ledger, fid: nat)
    requires Sound(l)
    ensures Sound(Alloc(l, fid))
  {
    hide Covers, IsSlot, Unclaimed, Registered, At, AllSlots;
    if fid !in l.location && l.free != [] {
      var r := Alloc(l, fid);
      var off := l.free[|l.free| - 1];
      OneMore(l.location, fid, off);
      AllocCovers(l.free, l.location, fid);
      LastDistinct(l.free);
      forall f | f in l.location
        ensures Located(r.records, r.free, f, l.location[f]) && l.location[f] != off
      {
        assert Located(l.records, l.free, f, l.location[f]);
      }
    }
  }

  lemma OneMore(location: map<nat, nat>, fid: nat, off: nat)
    requires fid !in location
    ensures |location[fid := off]| == |location| + 1
  {
    assert location[fid := off].Keys == location.Keys + {fid};
  }

  lemma OneLess(location: map<nat, nat>, fid: nat)
    requires fid in location
    ensures |location - {fid}| == |location| - 1
  {
    assert (location - {fid}).Keys == location.Keys - {fid};
  }

  lemma LastDistinct(s: seq<nat>)
    requires Distinct(s) && |s| > 0
    ensures Distinct(s[..|s| - 1]) && s[|s| - 1] !in s[..|s| - 1] && s[|s| - 1] in s && forall x :: x in s[..|s| - 1] ==> x in s
  {
  }

  /** alloc keeps the partition and touches no record; a new fid starts with the leftover count. */
  lemma AllocSound(l: Ledger, fid: nat)
    requires Sound(l)
    ensures var r := Alloc(l, fid);
            && Sound(r) && (Clean(l) ==> Clean(r)) && r.records == l.records
            && (fid in r.location && fid !in l.location ==> Unclaimed(At(l.records, r.location[fid])) && Counter(r, fid) == Leftover(l))
            && forall f :: f != fid ==> (f in r.location <==> f in l.location) && (f in l.location ==> r.location[f] == l.location[f])
  {
    AllocPartition(l, fid);
    hide Covers, IsSlot, Unclaimed, Registered, AllSlots, AllLocated, Injective;
  }

  /** A record written into the slot of a located fid, under its own fid or none, disturbs no other. */
  lemma RecordSound(l: Ledger, fid: nat, rec: Record)
    requires Sound(l) && fid in l.location && (Registered(rec, fid) || Unclaimed(rec))
    ensures var r := l.(records := l.records[l.location[fid] := rec]);
            && Sound(r) && (Clean(l) ==> Clean(r)) && Counter(r, fid) == rec.discarded
            && forall f :: f != fid ==> Counter(r, f) == Counter(l, f)
  {
    hide Covers;
    var o, r := l.location[fid], l.(records := l.records[l.location[fid] := rec]);
    assert Located(l.records, l.free, fid, o);
    forall f | f in l.location
      ensures Located(r.records, r.free, f, r.location[f]) && (f != fid ==> l.location[f] != o)
    {
      assert Located(l.records, l.free, f, l.location[f]);
    }
    forall i | 0 <= i < |l.free|
      ensures l.free[i] != o
    {
      assert l.free[i] in l.free;
    }
  }

  lemma ReleasedCovers(free: seq<nat>, location: map<nat, nat>, fid: nat)
    requires Covers(free, location) && fid in location
    ensures Covers(free + [location[fid]], location - {fid})
  {
    var more, after := free + [location[fid]], location - {fid};
    assert location[fid] in more && forall o :: o in free ==> o in more;
    forall o | IsSlot(o)
      ensures o in more || exists f :: f in after && after[f] == o
    {
      if o !in free && o != location[fid] {
        var f :| f in location && location[f] == o;
        assert after[f] == o;
      }
    }
  }

  lemma GivenBack(l: Ledger, fid: nat)
    requires Sound(l) && fid in l.location && Unclaimed(At(l.records, l.location[fid]))
    ensures Sound(l.(free := l.free + [l.location[fid]], location := l.location - {fid}))
  {
    hide Covers, IsSlot, Unclaimed, At, AllSlots, AllUnclaimed, AllLocated, Injective, Distinct;
    LocatedRecord(l, fid);
    OneLess(l.location, fid);
    ReleasedCovers(l.free, l.location, fid);
    AppendDistinct(l.free, l.location[fid]);
    AppendUnclaimed(l.records, l.free, l.location[fid]);
    FewerInjective(l.location, fid);
    FewerLocated(l, fid);
  }

  lemma AppendUnclaimed(rs: Records, free: seq<nat>, o: nat)
    requires AllUnclaimed(rs, free) && IsSlot(o) && Unclaimed(At(rs, o))
    ensures AllUnclaimed(rs, free + [o])
  {
    hide IsSlot, Unclaimed, At;
  }

  lemma FewerInjective(location: map<nat, nat>, fid: nat)
    requires Injective(location)
    ensures Injective(location - {fid})
  {
  }

  lemma FewerLocated(l: Ledger, fid: nat)
    requires AllLocated(l) && Injective(l.location) && fid in l.location
    ensures AllLocated(l.(free := l.free + [l.location[fid]], location := l.location - {fid}))
  {
    hide IsSlot, Unclaimed, At, Registered;
    var r := l.(free := l.free + [l.location[fid]], location := l.location - {fid});
    forall f | f in r.location
      ensures Located(r.records, r.free, f, r.location[f])
    {
      assert Located(l.records, l.free, f, l.location[f]) && l.location[f] != l.location[fid];
    }
  }

  lemma AppendDistinct(s: seq<nat>, x: nat)
    requires Distinct(s) && x !in s
    ensures Distinct(s + [x])
  {
  }

  /** Giving back a slot keeps the partition, and the slot is blank. */
  lemma ReleasedSound(l: Ledger, fid: nat)
    requires Sound(l) && fid in l.location
    ensures var r := Released(l, fid);
            && Sound(r) && (Clean(l) ==> Clean(r)) && Counter(r, fid) == 0
            && forall f :: f != fid ==> Counter(r, f) == Counter(l, f)
  {
    hide Sound;
    RecordSound(l, fid, Blank);
    GivenBack(l.(records := l.records[l.location[fid] := Blank]), fid);
  }

  /** setTotal: a file registered for the first time starts with the leftover count, which is 0 in a clean table. */
  lemma SetTotalSound(l: Ledger, fid: nat, total: nat)
    requires Sound(l)
    ensures var r := SetTotal(l, fid, total);
            && Sound(r) && (Clean(l) ==> Clean(r))
            && (fid != 0 && total != 0 && fid in r.location && fid !in l.location ==> Counter(r, fid) == Leftover(l) && Registered(At(r.records, r.location[fid]), fid))
            && forall f :: f != fid || f in l.location ==> Counter(r, f) == Counter(l, f)
  {
    hide Covers, Sound;
    AllocSound(l, fid);
    var a := Alloc(l, fid);
    if fid != 0 && total != 0 && fid !in l.location && fid in a.location {
      RecordSound(a, fid, Record(fid, total, At(a.records, a.location[fid]).discarded));
    }
  }

  /** incrDiscard adds to the count of one file, and nothing else. */
  lemma IncrSound(l: Ledger, fid: nat, delta: int)
    requires Sound(l)
    ensures var r := Incr(l, fid, delta);
            && Sound(r) && (Clean(l) ==> Clean(r))
            && (delta > 0 && fid in r.location ==>
                  Counter(r, fid) == ((if fid in l.location then Counter(l, fid) else Leftover(l)) + delta) % U32)
            && forall f :: f != fid || delta <= 0 || fid !in r.location ==> Counter(r, f) == Counter(l, f)
  {
    hide Covers, Sound;
    AllocSound(l, fid);
    var a := Alloc(l, fid);
    if delta > 0 && fid in a.location {
      var was := At(a.records, a.location[fid]);
      LocatedRecord(a, fid);
      RecordSound(a, fid, was.(discarded := (was.discarded + delta) % U32));
    }
  }

  lemma LocatedRecord(l: Ledger, fid: nat)
    requires Sound(l) && fid in l.location
    ensures Registered(At(l.records, l.location[fid]), fid) || Unclaimed(At(l.records, l.location[fid]))
    ensures IsSlot(l.location[fid]) && l.location[fid] !in l.free
  {
    hide Covers;
    assert Located(l.records, l.free, fid, l.location[fid]);
  }

  lemma ClearSound(l: Ledger, fid: nat)
    requires Sound(l)
    ensures var r := Clear(l, fid);
            && Sound(r) && (Clean(l) ==> Clean(r)) && Counter(r, fid) == 0
            && forall f :: f != fid ==> Counter(r, f) == Counter(l, f)
  {
    hide Covers, Sound;
    AllocSound(l, fid);
    var a := Alloc(l, fid);
    if fid in a.location {
      ReleasedSound(a, fid);
    }
  }

  lemma RemoveSound(l: Ledger, fid: nat)
    requires Sound(l)
    ensures var r := RemoveSlot(l, fid);
            && Sound(r) && (Clean(l) ==> Clean(r)) && (fid != 0 ==> Counter(r, fid) == 0)
            && forall f :: f != fid ==> Counter(r, f) == Counter(l, f)
  {
    hide Covers, Sound;
    if fid != 0 && fid in l.location {
      ReleasedSound(l, fid);
    }
  }
}
