/** Stores whose logs differ only in the transaction flags of their entries: every read answers the same. */
module Alike {
  import opened Bytes
  import opened Varint
  import opened LogEntry
  import opened LogFile
  import opened Ledger
  import opened Store

  type OpenStore = s: Store | Openable(s) witness Empty(1)

  /** The entry as a commit writes it. */
  function Marked(e: Entry): Entry {
    e.(txStat := TX_COMMITTED)
  }

  /** A write that fits the format both on its own and in a transaction. */
  predicate Bufferable(e: Entry) {
    Storable(e) && Storable(Marked(e))
  }

  /** The same entry up to its transaction flag, with the same encoded size. */
  predicate AlikeEntry(a: Entry, b: Entry) {
    Storable(a) && Storable(b) && a == b.(txStat := a.txStat) && Size(a) == Size(b)
  }

  predicate AlikeEntries(es: Entries, fs: Entries) {
    |es| == |fs| && forall i :: 0 <= i < |es| ==> AlikeEntry(es[i], fs[i])
  }

  predicate AlikeFile(f: File, g: File) {
    f.length == g.length && AlikeEntries(f.entries, g.entries)
  }

  predicate AlikeFiles(fs: Files, gs: Files) {
    fs.Keys == gs.Keys && forall f :: f in fs ==> AlikeFile(fs[f], gs[f])
  }

  predicate AlikeStores(s: Store, r: Store) {
    && s == r.(files := s.files) && AlikeFiles(s.files, r.files)
  }

  /** Whatever a transaction can buffer has the same size with the flag as without. */
  lemma MarkedAlike(e: Entry)
    requires Bufferable(e) && e.txStat == 0
    ensures AlikeEntry(e, Marked(e))
  {
    hide EntryCrc, Encode;
    FieldsLength(e);
    FieldsLength(Marked(e));
  }

  /** A key that is not empty and lengths below 2^32 are enough. */
  lemma PlainFits(key: Bytes, value: Bytes)
    requires key != [] && Sized(Plain(key, value))
    ensures Bufferable(Plain(key, value))
  {
    hide EntryCrc, HeaderSize, PutVarint;
    HeaderFits(Plain(key, value));
    HeaderFits(Marked(Plain(key, value)));
  }

  lemma {:induction false} UsedAlike(es: Entries, fs: Entries)
    requires AlikeEntries(es, fs)
    ensures Used(es) == Used(fs)
    decreases |es|
  {
    hide Size, Storable;
    if es != [] {
      assert AlikeEntry(es[0], fs[0]);
      UsedAlike(es[1..], fs[1..]);
    }
  }

  lemma {:induction false} EntryAtAlike(es: Entries, fs: Entries, off: int)
    requires AlikeEntries(es, fs)
    ensures EntryAt(es, off).Some? <==> EntryAt(fs, off).Some?
    ensures EntryAt(es, off).Some? ==> AlikeEntry(EntryAt(es, off).value, EntryAt(fs, off).value)
    decreases |es|
  {
    hide Size, HeaderSize, EntryCrc;
    if es != [] && off > 0 {
      assert AlikeEntry(es[0], fs[0]);
      EntryAtAlike(es[1..], fs[1..], off - Size(es[0]));
    }
  }

  lemma AlikeSelf(s: Store)
    ensures AlikeStores(s, s)
  {
    hide Size;
  }

  /** Alike stores answer every read alike, at any time. */
  lemma GetAlike(s: Store, r: Store, key: Bytes, now: int)
    requires AlikeStores(s, r)
    ensures Get(s, key, now) == Get(r, key, now)
  {
    hide EntryAt, Storable, Size, AlikeEntries;
    if key in s.index && s.index[key].fid in s.files {
      var n := s.index[key];
      assert AlikeFile(s.files[n.fid], r.files[n.fid]);
      EntryAtAlike(s.files[n.fid].entries, r.files[n.fid].entries, n.offset);
    }
  }

  lemma NewFileAlike(s: Store, r: Store, fid: nat)
    requires AlikeStores(s, r)
    ensures AlikeStores(WithFile(s, fid), WithFile(r, fid)) && Opened(WithFile(s, fid)) == Opened(WithFile(r, fid)) == (fid != 0)
  {
    hide AlikeEntries;
    assert AlikeFile(File([], s.maxSize), File([], s.maxSize)) by { NothingAlike(); }
  }

  lemma NothingAlike()
    ensures AlikeEntries([], [])
  {
  }

  lemma ActiveAlike(f: File, g: File)
    requires AlikeFile(f, g)
    ensures AlikeEntries(f.entries, g.entries)
  {
  }

  lemma RolledAlike(s: OpenStore, r: OpenStore, a: Entry, b: Entry)
    requires AlikeStores(s, r) && AlikeEntry(a, b)
    ensures AlikeStores(Rolled(s, a), Rolled(r, b))
  {
    hide Size, Storable, Used, AlikeEntry, SetTotal, AlikeFile, WithFile;
    var s0, r0 := EnsureActive(s), EnsureActive(r);
    NewFileAlike(s, r, 1);
    NewFileAlike(s0, r0, s0.active + 1);
    assert AlikeFile(ActiveFile(s0), ActiveFile(r0));
    ActiveAlike(ActiveFile(s0), ActiveFile(r0));
    UsedAlike(ActiveFile(s0).entries, ActiveFile(r0).entries);
    SizeAlike(a, b);
  }

  lemma SizeAlike(a: Entry, b: Entry)
    requires AlikeEntry(a, b)
    ensures Storable(a) && Storable(b) && Size(a) == Size(b)
  {
  }

  /** Alike entries are written to the same place, and leave alike stores. */
  lemma WriteAlike(s: OpenStore, r: OpenStore, a: Entry, b: Entry)
    requires AlikeStores(s, r) && AlikeEntry(a, b)
    ensures AlikeStores(Write(s, a), Write(r, b)) && Where(s, a) == Where(r, b)
  {
    hide Size, Storable, Used, Rolled;
    RolledAlike(s, r, a, b);
    var s', r' := Rolled(s, a), Rolled(r, b);
    assert AlikeFile(ActiveFile(s'), ActiveFile(r'));
    UsedAlike(ActiveFile(s').entries, ActiveFile(r').entries);
  }

  lemma PutAlike(s: OpenStore, r: OpenStore, a: Entry, b: Entry, send: bool)
    requires AlikeStores(s, r) && AlikeEntry(a, b)
    ensures AlikeStores(Put(s, a, send), Put(r, b, send))
  {
    hide Size, Storable, Write, Where, AlikeFiles;
    WriteAlike(s, r, a, b);
    WriteKeepsIndex(s, a);
    WriteKeepsIndex(r, b);
  }

  lemma WriteKeepsIndex(s: OpenStore, e: Entry)
    requires Storable(e)
    ensures var r := Write(s, e); r.index == s.index && r.queue == s.queue
  {
    hide Size, Used, Storable;
  }
}
