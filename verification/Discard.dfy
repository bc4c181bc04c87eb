/** The discard table of discard.go as it runs: 12-byte records in an 8192-byte file, against the table of records. */
module Discard {
  import opened Bytes
  import opened Ledger
  import opened Reloading
  import opened Sorting
  import Book = Ledger

  function Word(file: Bytes, off: nat): (x: nat)
    requires off + 4 <= |file|
    ensures x < U32
  {
    Le32(file[off..off + 4])
  }

  function RecordAt(file: Bytes, off: nat): Record
    requires off + RECORD_SIZE <= |file|
  {
    Record(Word(file, off), Word(file, off + 4), Word(file, off + 8))
  }

  /** The records in the bytes of the file. */
  function RecordsOf(file: Bytes): Records
    requires |file| == FILE_SIZE
  {
    map o: nat | o < FILE_SIZE && IsSlot(o) :: RecordAt(file, o)
  }

  /** Writing `data` at `at` leaves every word outside the written range as it was. */
  lemma WordFrame(file: Bytes, data: Bytes, at: nat, off: nat)
    requires at + |data| <= |file| && off + 4 <= |file| && (off + 4 <= at || at + |data| <= off)
    ensures |WriteAt(file, data, at)| == |file| && Word(WriteAt(file, data, at), off) == Word(file, off)
  {
    var r := WriteAt(file, data, at);
    assert r[off..off + 4] == file[off..off + 4] by {
      if off + 4 <= at {
        assert r[off..off + 4] == r[..at][off..off + 4];
      }
    }
  }

  /** A word written is the word read. */
  lemma WordWritten(file: Bytes, data: Bytes, at: nat, i: nat, x: int)
    requires at + |data| <= |file| && i + 4 <= |data| && 0 <= x < U32 && data[i..i + 4] == PutLe32(x)
    ensures Word(WriteAt(file, data, at), at + i) == x
  {
    var r := WriteAt(file, data, at);
    assert r[at + i..at + i + 4] == r[at..at + |data|][i..i + 4];
    Le32RoundTrip(x);
  }

  lemma RecordFrame(file: Bytes, data: Bytes, at: nat, off: nat)
    requires |file| == FILE_SIZE && IsSlot(off) && at + |data| <= FILE_SIZE
    requires at + |data| <= off || off + RECORD_SIZE <= at
    ensures RecordAt(WriteAt(file, data, at), off) == RecordAt(file, off)
  {
    hide Word;
    WordFrame(file, data, at, off);
    WordFrame(file, data, at, off + 4);
    WordFrame(file, data, at, off + 8);
  }

  /** A write inside one slot changes that record only. */
  lemma SlotWritten(file: Bytes, o: nat, data: Bytes, at: nat)
    requires |file| == FILE_SIZE && IsSlot(o) && o <= at && at + |data| <= o + RECORD_SIZE
    ensures var r := WriteAt(file, data, at);
            |r| == FILE_SIZE && RecordsOf(r) == RecordsOf(file)[o := RecordAt(r, o)]
  {
    hide RecordAt;
    var r := WriteAt(file, data, at);
    forall p: nat | IsSlot(p) && p != o
      ensures RecordAt(r, p) == RecordAt(file, p)
    {
      SlotsApart(p, o);
      RecordFrame(file, data, at, p);
    }
  }

  lemma TotalWritten(file: Bytes, off: nat, fid: nat, total: nat, buf: Bytes)
    requires |file| == FILE_SIZE && IsSlot(off) && fid < U32 && total < U32 && buf == PutLe32(fid) + PutLe32(total)
    ensures var r := WriteAt(file, buf, off); |r| == FILE_SIZE && RecordAt(r, off) == Record(fid, total, RecordAt(file, off).discarded)
  {
    hide Word;
    WordWritten(file, buf, off, 0, fid);
    WordWritten(file, buf, off, 4, total);
    WordFrame(file, buf, off, off + 8);
  }

  lemma CounterWritten(file: Bytes, off: nat, x: int, buf: Bytes)
    requires |file| == FILE_SIZE && IsSlot(off) && 0 <= x < U32 && buf == PutLe32(x)
    ensures var r := WriteAt(file, buf, off + 8); |r| == FILE_SIZE && RecordAt(r, off) == RecordAt(file, off).(discarded := x)
  {
    hide Word;
    WordWritten(file, buf, off + 8, 0, x);
    WordFrame(file, buf, off + 8, off);
    WordFrame(file, buf, off + 8, off + 4);
  }

  lemma SlotBlanked(file: Bytes, off: nat, buf: Bytes)
    requires |file| == FILE_SIZE && IsSlot(off) && buf == Zeros(RECORD_SIZE)
    ensures var r := WriteAt(file, buf, off); |r| == FILE_SIZE && RecordAt(r, off) == Blank
  {
    hide Word;
    assert PutLe32(0) == [0, 0, 0, 0];
    assert buf[0..4] == buf[4..8] == buf[8..12] == [0, 0, 0, 0];
    WordWritten(file, buf, off, 0, 0);
    WordWritten(file, buf, off, 4, 0);
    WordWritten(file, buf, off, 8, 0);
  }

  /** A file of zeros holds blank records only. */
  lemma ZerosAreBlank(file: Bytes)
    requires file == Zeros(FILE_SIZE)
    ensures RecordsOf(file) == Fresh().records
  {
    hide Scanned;
    forall o: int | IsSlot(o)
      ensures RecordAt(file, o) == Blank
    {
      assert file[o..o + 4] == [0, 0, 0, 0] && file[o + 4..o + 8] == [0, 0, 0, 0] && file[o + 8..o + 12] == [0, 0, 0, 0];
    }
  }

  lemma RecordRead(file: Bytes, o: nat)
    requires |file| == FILE_SIZE && IsSlot(o)
    ensures o in RecordsOf(file) && At(RecordsOf(file), o) == RecordAt(file, o) && Word(file, o + 8) == RecordAt(file, o).discarded
  {
  }

  /** The picks from the records below `end`, each as often as it was picked. */
  ghost predicate PicksBelow(rs: Records, picked: multiset<nat>, active: nat, ratio: real, end: nat) {
    && (forall f :: f in picked <==> exists o :: o in rs && o < end && rs[o].fid == f && Picked(rs[o], active, ratio))
    && forall f :: f != 0 || ratio >= 0.0 ==> picked[f] <= 1
  }

  lemma PickNext(l: Ledger, picked: multiset<nat>, active: nat, ratio: real, off: nat)
    requires Sound(l) && IsSlot(off) && PicksBelow(l.records, picked, active, ratio, off)
    ensures var r := At(l.records, off);
            PicksBelow(l.records, if Picked(r, active, ratio) then picked + multiset{r.fid} else picked, active, ratio, off + RECORD_SIZE)
  {
    NextSlot(off);
    assert off in l.records && forall o :: o in l.records ==> IsSlot(o);
    if Picked(At(l.records, off), active, ratio) {
      PickedOnce(l, picked, active, ratio, off);
    }
    hide Picked, Sound, IsSlot;
    var rs, r := l.records, At(l.records, off);
    var more := if Picked(r, active, ratio) then picked + multiset{r.fid} else picked;
    forall f: nat
      ensures f in more <==> exists o :: o in rs && o < off + RECORD_SIZE && rs[o].fid == f && Picked(rs[o], active, ratio)
    {
      if f in picked {
        var o: nat :| o in rs && o < off && rs[o].fid == f && Picked(rs[o], active, ratio);
        assert o < off + RECORD_SIZE;
      } else if f in more {
        assert off < off + RECORD_SIZE;
      }
    }
  }

  lemma PickedOnce(l: Ledger, picked: multiset<nat>, active: nat, ratio: real, off: nat)
    requires Sound(l) && IsSlot(off) && PicksBelow(l.records, picked, active, ratio, off) && Picked(At(l.records, off), active, ratio)
    ensures var f := At(l.records, off).fid; f != 0 || ratio >= 0.0 ==> f != 0 && f !in picked
  {
    var f := At(l.records, off).fid;
    if f != 0 && f in picked {
      var o :| o in l.records && o < off && l.records[o].fid == f && Picked(l.records[o], active, ratio);
      SoundUnique(l);
    }
  }

  /** discard of discard.go, without its channel. */
  class DiscardTable {
    var file: Bytes
    var freeList: seq<nat>
    var location: map<nat, nat>

    ghost function State(): Ledger
      requires |file| == FILE_SIZE
      reads this
    {
      Ledger(RecordsOf(file), freeList, location, false)
    }

    ghost predicate Valid()
      reads this
    {
      |file| == FILE_SIZE && Sound(State())
    }

    /** newDiscard: scans the file record by record until a read comes short. `was` is the table that left the file. */
    constructor (content: Bytes, ghost was: Ledger)
      requires |content| == FILE_SIZE
      ensures file == content && State() == Reload(Ledger(RecordsOf(content), [], map[], false))
      ensures content == Zeros(FILE_SIZE) ==> Valid() && State() == Fresh()
      ensures Sound(was) && was.records == RecordsOf(content) ==> Valid() && State() == Reload(was.(exited := false))
    {
      hide RecordAt, Sound;
      var free: seq<nat>, loc: map<nat, nat> := [], map[];
      var offset := 0;
      while offset + RECORD_SIZE <= |content|
        invariant offset % RECORD_SIZE == 0 && offset <= FILE_SIZE
        invariant Table(free, loc) == Scanned(RecordsOf(content), offset)
      {
        RecordRead(content, offset);
        var r := RecordAt(content, offset);
        if r.fid == 0 && r.total == 0 {
          free := free + [offset];
        } else {
          loc := loc[r.fid := offset];
        }
        offset := offset + RECORD_SIZE;
      }
      file, freeList, location := content, free, loc;
      new;
      hide Scanned;
      if content == Zeros(FILE_SIZE) {
        ZerosAreBlank(content);
        FreshSound();
      }
      if Sound(was) && was.records == RecordsOf(content) {
        ReloadKept(was);
      }
    }

    /** alloc: the slot of the fid, a free one if it has none; None is ErrDiscardNoSpace. */
    method Alloc(fid: nat) returns (off: Option<nat>)
      requires Valid()
      modifies this`freeList, this`location
      ensures Valid() && State().(exited := off.None?) == Book.Alloc(old(State()), fid)
      ensures off.Some? ==> fid in location && location[fid] == off.value && IsSlot(off.value)
    {
      hide RecordsOf, Sound;
      AllocKept(State(), fid);
      if fid in location {
        return Some(location[fid]);
      }
      if |freeList| == 0 {
        return None;
      }
      var last := freeList[|freeList| - 1];
      freeList := freeList[..|freeList| - 1];
      location := location[fid := last];
      off := Some(last);
    }

    /** setTotal: registers the file; `ok` is false where the process exits for lack of a free slot. */
    method SetTotal(fid: nat, total: nat) returns (ok: bool)
      requires Valid() && fid < U32 && total < U32
      modifies this
      ensures Valid() && State().(exited := !ok) == Book.SetTotal(old(State()), fid, total)
    {
      hide RecordsOf, RecordAt, PutLe32, WriteAt, Sound;
      StepSound(State(), Registers(fid, total));
      if fid == 0 || total == 0 || fid in location {
        return true;
      }
      var off := Alloc(fid);
      if off.None? {
        return false;
      }
      var buf := PutLe32(fid) + PutLe32(total);
      RecordRead(file, off.value);
      TotalWritten(file, off.value, fid, total, buf);
      SlotWritten(file, off.value, buf, off.value);
      file := WriteAt(file, buf, off.value);
      ok := true;
    }

    /** incrDiscard: adds to the count of the file, on uint32. */
    method IncrDiscard(fid: nat, delta: int) returns (ok: bool)
      requires Valid()
      modifies this
      ensures Valid() && State().(exited := !ok) == Incr(old(State()), fid, delta)
    {
      hide RecordsOf, RecordAt, Word, PutLe32, WriteAt, Sound;
      StepSound(State(), Counts(fid, delta));
      if delta <= 0 {
        return true;
      }
      var off := Alloc(fid);
      if off.None? {
        return false;
      }
      var v := Word(file, off.value + 8);
      RecordRead(file, off.value);
      var buf := PutLe32((v + delta) % U32);
      CounterWritten(file, off.value, (v + delta) % U32, buf);
      SlotWritten(file, off.value, buf, off.value + 8);
      file := WriteAt(file, buf, off.value + 8);
      ok := true;
    }

    /** Blanks the slot of a located fid and gives it back. */
    method Release(fid: nat)
      requires Valid() && fid in location
      modifies this
      ensures Valid() && State() == Released(old(State()), fid)
    {
      hide RecordsOf, RecordAt, WriteAt, Sound;
      LocatedRecord(State(), fid);
      ReleasedSound(State(), fid);
      var off, buf := location[fid], Zeros(RECORD_SIZE);
      SlotBlanked(file, off, buf);
      SlotWritten(file, off, buf, off);
      file := WriteAt(file, buf, off);
      location := location - {fid};
      freeList := freeList + [off];
    }

    /** removeDiscard */
    method RemoveDiscard(fid: nat)
      requires Valid()
      modifies this
      ensures Valid() && State() == RemoveSlot(old(State()), fid)
    {
      hide RecordsOf, Sound;
      if fid == 0 || fid !in location {
        return;
      }
      Release(fid);
    }

    /** clear: like removeDiscard, but a fid without a slot first takes one; `ok` as in SetTotal. */
    method Clear(fid: nat) returns (ok: bool)
      requires Valid()
      modifies this
      ensures Valid() && State().(exited := !ok) == Book.Clear(old(State()), fid)
    {
      hide RecordsOf, Sound;
      var off := Alloc(fid);
      if off.None? {
        return false;
      }
      Release(fid);
      ok := true;
    }

    /**
     getCCL: the compaction candidates in ascending order, each once; the ratio is a real here. With a negative ratio
     fid 0 can appear too, for records without a fid.
     */
    method GetCCL(active: nat, ratio: real) returns (ccl: seq<nat>)
      requires Valid()
      ensures Ascending(ccl) && forall f :: f in ccl <==> Candidate(State(), f, active, ratio)
      ensures forall f :: f != 0 || ratio >= 0.0 ==> multiset(ccl)[f] <= 1
    {
      hide RecordAt, RecordsOf, Sound, Picked, Candidate;
      var picked: seq<nat> := [];
      var offset := 0;
      while offset + RECORD_SIZE <= |file|
        invariant offset % RECORD_SIZE == 0 && offset <= FILE_SIZE && |file| == FILE_SIZE
        invariant PicksBelow(RecordsOf(file), multiset(picked), active, ratio, offset)
      {
        RecordRead(file, offset);
        var r := RecordAt(file, offset);
        PickNext(State(), multiset(picked), active, ratio, offset);
        hide PicksBelow;
        if Picked(r, active, ratio) {
          picked := picked + [r.fid];
        }
        offset := offset + RECORD_SIZE;
      }
      ccl := SortAll(picked);
      AllPicked(State(), picked, ccl, active, ratio, offset);
    }
  }

  lemma AllPicked(l: Ledger, picked: seq<nat>, ccl: seq<nat>, active: nat, ratio: real, end: nat)
    requires Sound(l) && PicksBelow(l.records, multiset(picked), active, ratio, end) && end + RECORD_SIZE > FILE_SIZE
    requires multiset(ccl) == multiset(picked)
    ensures forall f :: f in ccl <==> Candidate(l, f, active, ratio)
    ensures forall f :: f != 0 || ratio >= 0.0 ==> multiset(ccl)[f] <= 1
  {
    SlotsOnly(l, end);
    hide Sound, Picked;
    forall f
      ensures f in ccl <==> Candidate(l, f, active, ratio)
    {
      assert f in ccl <==> f in multiset(ccl);
    }
  }

  lemma ReloadKept(l: Ledger)
    requires Sound(l)
    ensures Sound(Reload(l.(exited := false)))
  {
    hide Sound, Reload;
    FlagIrrelevant(l, false);
    ReloadSound(l.(exited := false));
  }

  lemma FlagIrrelevant(l: Ledger, exited: bool)
    requires Sound(l)
    ensures Sound(l.(exited := exited))
  {
  }

  lemma AllocKept(l: Ledger, fid: nat)
    requires Sound(l)
    ensures Sound(Book.Alloc(l, fid).(exited := l.exited))
    ensures fid in Book.Alloc(l, fid).location ==> IsSlot(Book.Alloc(l, fid).location[fid])
  {
    hide Sound;
    AllocSound(l, fid);
    FlagIrrelevant(Book.Alloc(l, fid), l.exited);
    if fid in Book.Alloc(l, fid).location {
      LocatedRecord(Book.Alloc(l, fid), fid);
    }
  }

  lemma SlotsOnly(l: Ledger, end: nat)
    requires Sound(l) && end + RECORD_SIZE > FILE_SIZE
    ensures forall o :: o in l.records ==> o < end
  {
  }
}
