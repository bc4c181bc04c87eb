/** One log file: entries behind one another in a zero-filled file (logfile/log_file.go). */
module LogFile {
  import opened Bytes
  import opened Varint
  import opened LogEntry
  import Crc32

  /** What ReadLogEntry reports. Malformed stands for a Go panic or a failed read at a negative offset. */
  datatype ReadResult = Read(entry: Entry, size: nat) | Eof | EndOfLog | InvalidCrc | Malformed

  /** An entry together with where it was written. */
  datatype Rec = Rec(fid: nat, offset: nat, entry: Entry)

  /** Assembles the entry from its header and its key and value bytes, and checks the checksum. */
  function Assemble(buf: Bytes, h: Header, kv: Bytes): (r: ReadResult)
    requires 0 <= h.length <= |buf| && |kv| == h.kSize + h.vSize && h.txStat < 0x1_0000
    ensures r.Read? ==> r.size == h.length + |kv|
  {
    var key, value := kv[..h.kSize], kv[h.kSize..];
    if SplitCrc(buf[..h.length], key, value) != h.crc then InvalidCrc
    else Read(Entry(key, value, h.stat, h.expiredAt, h.txId, h.txStat), h.length + |kv|)
  }

  /** The part of ReadLogEntry after the header was decoded. */
  function ReadBody(file: Bytes, off: nat, buf: Bytes, h: Header): (r: ReadResult)
    requires |buf| == MAX_HEADER_SIZE && off + |buf| <= |file| && h.txStat < 0x1_0000
    ensures r.Read? ==> 0 < r.size && off + r.size <= |file|
  {
    if h.crc == 0 && h.kSize == 0 && h.vSize == 0 then EndOfLog
    else if off + h.length < 0 || h.length > |buf| then Malformed
    else if off + h.length + h.kSize + h.vSize > |file| then Eof
    else if h.length < 0 then Malformed
    else Assemble(buf, h, file[off + h.length..off + h.length + h.kSize + h.vSize])
  }

  /** LogFile.ReadLogEntry on the bytes of the file. A short read is EOF. */
  function ReadEntry(file: Bytes, off: nat): (r: ReadResult)
    ensures r.Read? ==> 0 < r.size && off + r.size <= |file|
    ensures r.Read? ==> off + MAX_HEADER_SIZE <= |file|
  {
    if off + MAX_HEADER_SIZE > |file| then Eof
    else
      var buf := file[off..off + MAX_HEADER_SIZE];
      match DecodeHeader(buf)
      case None => Malformed
      case Some(h) => ReadBody(file, off, buf, h)
  }

  /** The loop of a replay or a merge: entries until the first read that is not an entry. */
  function Scan(fid: nat, file: Bytes, off: nat): (r: (seq<Rec>, ReadResult))
    decreases |file| - off
    ensures !r.1.Read?
  {
    var next := ReadEntry(file, off);
    if next.Read? then
      var (recs, stop) := Scan(fid, file, off + next.size);
      ([Rec(fid, off, next.entry)] + recs, stop)
    else ([], next)
  }

  // --- what writers leave in a file ---

  predicate AllStorable(es: seq<Entry>) {
    forall i :: 0 <= i < |es| ==> Storable(es[i])
  }

  function EncodeAll(es: seq<Entry>): Bytes
    requires AllStorable(es)
  {
    if es == [] then [] else Encode(es[0]) + EncodeAll(es[1..])
  }

  /** The write offset after `es`. */
  function Used(es: seq<Entry>): nat
    requires AllStorable(es)
  {
    if es == [] then 0 else Size(es[0]) + Used(es[1..])
  }

  /** A file of `length` bytes that holds `es` and nothing else. */
  function FileBytes(es: seq<Entry>, length: nat): Bytes
    requires AllStorable(es) && Used(es) <= length
  {
    EncodeAll(es) + Zeros(length - Used(es))
  }

  /** Where the entries `es` lie when the first one is at `off`. */
  function Recs(fid: nat, es: seq<Entry>, off: nat): (r: seq<Rec>)
    requires AllStorable(es)
    ensures |r| == |es|
  {
    if es == [] then [] else [Rec(fid, off, es[0])] + Recs(fid, es[1..], off + Size(es[0]))
  }

  /** Every entry starts at least a full header before the end of the file. */
  predicate Roomed(es: seq<Entry>, off: nat, length: nat)
    requires AllStorable(es)
  {
    es == [] || (off + MAX_HEADER_SIZE <= length && Roomed(es[1..], off + Size(es[0]), length))
  }

  /** The entries before the first one that starts too close to the end. */
  function RoomedPrefix(es: seq<Entry>, off: nat, length: nat): (r: seq<Entry>)
    requires AllStorable(es)
    ensures AllStorable(r) && |r| <= |es|
  {
    if es == [] || off + MAX_HEADER_SIZE > length then []
    else [es[0]] + RoomedPrefix(es[1..], off + Size(es[0]), length)
  }

  // --- reading one entry ---

  /** The bytes of `e`, but with this checksum, status, key and value. */
  function Stored(e: Entry, crc: Bytes, stat: byte, kv: Bytes): Bytes
    requires Sized(e)
  {
    crc + ([stat] + Fields(e)) + kv
  }

  /** What reading gives for bytes of that shape: the entry if the checksum fits, InvalidCrc otherwise. */
  lemma ReadShaped(file: Bytes, off: nat, e: Entry, crc: Bytes, stat: byte, kv: Bytes)
    requires Sized(e) && HeaderSize(e) <= MAX_HEADER_SIZE
    requires off + MAX_HEADER_SIZE <= |file| && off + Size(e) <= |file|
    requires |crc| == 4 && |kv| == |e.key| + |e.value| && file[off..off + Size(e)] == Stored(e, crc, stat, kv)
    requires kv != [] || Le32(crc) != 0
    ensures ReadEntry(file, off) ==
            if Crc32.Checksum([stat] + Fields(e) + kv) == Le32(crc)
            then Read(e.(key := kv[..|e.key|], value := kv[|e.key|..], stat := stat), Size(e))
            else InvalidCrc
  {
    hide ReadEntry, ReadBody, Assemble, DecodeHeader, Crc32.Checksum, Le32;
    var stored := file[off..off + Size(e)];
    var buf := file[off..off + MAX_HEADER_SIZE];
    assert buf[..HeaderSize(e)] == stored[..HeaderSize(e)] == crc + ([stat] + Fields(e));
    HeaderInBuffer(buf, e, crc, stat);
    assert file[off + HeaderSize(e)..off + Size(e)] == stored[HeaderSize(e)..] == kv;
    var h := HeaderOf(e.(stat := stat), Le32(crc));
    ReadsBody(file, off, buf, h);
    AssemblesBody(file, off, buf, h, kv);
    AssembleShaped(buf, e, crc, stat, kv);
  }

  lemma ReadsBody(file: Bytes, off: nat, buf: Bytes, h: Header)
    requires off + MAX_HEADER_SIZE <= |file| && buf == file[off..off + MAX_HEADER_SIZE]
    requires h.txStat < 0x1_0000 && DecodeHeader(buf) == Some(h)
    ensures ReadEntry(file, off) == ReadBody(file, off, buf, h)
  {
  }

  lemma AssemblesBody(file: Bytes, off: nat, buf: Bytes, h: Header, kv: Bytes)
    requires |buf| == MAX_HEADER_SIZE && off + |buf| <= |file| && h.txStat < 0x1_0000
    requires 0 <= h.length <= |buf| && |kv| == h.kSize + h.vSize && (kv != [] || h.crc != 0)
    requires off + h.length + |kv| <= |file| && file[off + h.length..off + h.length + |kv|] == kv
    ensures ReadBody(file, off, buf, h) == Assemble(buf, h, kv)
  {
  }

  lemma AssembleShaped(buf: Bytes, e: Entry, crc: Bytes, stat: byte, kv: Bytes)
    requires Sized(e) && HeaderSize(e) <= |buf| && |crc| == 4 && |kv| == |e.key| + |e.value|
    requires buf[..HeaderSize(e)] == crc + ([stat] + Fields(e))
    ensures Assemble(buf, HeaderOf(e.(stat := stat), Le32(crc)), kv) ==
            if Crc32.Checksum([stat] + Fields(e) + kv) == Le32(crc)
            then Read(e.(key := kv[..|e.key|], value := kv[|e.key|..], stat := stat), Size(e))
            else InvalidCrc
  {
    var head := buf[..HeaderSize(e)];
    SplitCrcAgrees(head, kv[..|e.key|], kv[|e.key|..]);
    assert head[4..] == [stat] + Fields(e) && kv[..|e.key|] + kv[|e.key|..] == kv;
  }

  lemma HeaderInBuffer(buf: Bytes, e: Entry, crc: Bytes, stat: byte)
    requires Sized(e) && HeaderSize(e) <= |buf| && |crc| == 4
    requires buf[..HeaderSize(e)] == crc + ([stat] + Fields(e))
    ensures DecodeHeader(buf) == Some(HeaderOf(e.(stat := stat), Le32(crc)))
  {
    hide DecodeHeader, PutVarints, Le32;
    var head := buf[..HeaderSize(e)];
    assert buf[5..] == head[5..] + buf[HeaderSize(e)..] && head[5..] == Fields(e);
    assert buf[4] == head[4] == stat;
    assert buf[..4] == head[..4] == crc;
    SamePrefix(buf, crc);
    HeaderRoundTrip(buf, e.(stat := stat), buf[HeaderSize(e)..]);
  }

  lemma SamePrefix(buf: Bytes, crc: Bytes)
    requires |buf| >= 4 && |crc| == 4 && buf[..4] == crc
    ensures Le32(buf) == Le32(crc)
  {
    assert forall i :: 0 <= i < 4 ==> buf[i] == crc[i];
  }

  /** The entry lies at `off`, with room to read a full header. */
  predicate Holds(file: Bytes, off: nat, e: Entry) {
    && Storable(e) && off + MAX_HEADER_SIZE <= |file| && off + Size(e) <= |file|
    && file[off..off + Size(e)] == Encode(e)
  }

  /** A stored entry reads back as itself wherever it lies, given room for a full header. */
  lemma ReadsBack(file: Bytes, off: nat, e: Entry)
    requires Holds(file, off, e)
    ensures ReadEntry(file, off) == Read(e, Size(e))
  {
    var kv, crc := e.key + e.value, PutLe32(EntryCrc(e));
    assert Encode(e) == Stored(e, crc, e.stat, kv);
    Le32RoundTrip(EntryCrc(e));
    ReadShaped(file, off, e, crc, e.stat, kv);
    assert kv[..|e.key|] == e.key && kv[|e.key|..] == e.value;
  }

  /** A file that ends inside an entry gives EOF there, wherever it was cut. */
  lemma TruncatedReads(file: Bytes, off: nat, e: Entry)
    requires Storable(e) && off <= |file| < off + Size(e) && file[off..] == Encode(e)[..|file| - off]
    ensures ReadEntry(file, off) == Eof
  {
    if off + MAX_HEADER_SIZE <= |file| {
      hide DecodeHeader, PutVarints, Le32, PutLe32, EntryCrc, ReadEntry;
      var buf, crc, n := file[off..off + MAX_HEADER_SIZE], PutLe32(EntryCrc(e)), HeaderSize(e);
      assert Encode(e) == crc + ([e.stat] + Fields(e)) + (e.key + e.value);
      assert buf[..n] == file[off..][..n] == Encode(e)[..n] == crc + ([e.stat] + Fields(e));
      HeaderInBuffer(buf, e, crc, e.stat);
      assert e.(stat := e.stat) == e;
      ReadsBody(file, off, buf, HeaderOf(e, Le32(crc)));
    }
  }

  /** The header at `off` still decodes to the lengths of `e`. */
  predicate LengthsKept(file: Bytes, off: nat, e: Entry)
    requires Sized(e) && off + MAX_HEADER_SIZE <= |file|
  {
    var h := DecodeHeader(file[off..off + MAX_HEADER_SIZE]);
    h.Some? && h.value.length == HeaderSize(e) && h.value.kSize == |e.key| && h.value.vSize == |e.value|
  }

  /**
   Damage to any one byte of an entry is always reported: in the checksum, the status, the key or the value,
   and in the five header integers if the lengths they decode to are kept.
   */
  lemma CorruptionDetected(file: Bytes, off: nat, e: Entry, q: nat, b: byte)
    requires Holds(file, off, e) && (e.key != [] || e.value != [])
    requires q < Size(e) && b != file[off + q]
    requires 5 <= q < HeaderSize(e) ==> LengthsKept(file[off + q := b], off, e)
    ensures ReadEntry(file[off + q := b], off) == InvalidCrc
  {
    hide ReadEntry, LengthsKept, EntryCrc;
    var file' := file[off + q := b];
    var stored := file'[off..off + Size(e)];
    assert stored == Encode(e)[q := b] && Encode(e)[q] == file[off + q];
    if q < 4 {
      ChecksumDamaged(file', off, e, q, b);
    } else if 5 <= q < HeaderSize(e) {
      HeaderDamaged(file', off, e, q - 4, b);
    } else {
      BodyDamaged(file', off, e, q - 4, b);
    }
  }

  lemma HeaderDamaged(file: Bytes, off: nat, e: Entry, i: nat, b: byte)
    requires Storable(e) && off + MAX_HEADER_SIZE <= |file| && off + Size(e) <= |file|
    requires (e.key != [] || e.value != []) && i < HeaderSize(e) - 4 && i < |Body(e)| && b != Body(e)[i]
    requires file[off..off + Size(e)] == Encode(e)[4 + i := b] && LengthsKept(file, off, e)
    ensures ReadEntry(file, off) == InvalidCrc
  {
    hide ReadEntry, ReadBody, DecodeHeader, Crc32.Checksum, EntryCrc, Body, SplitCrc, Assemble, PutLe32, Le32, HeaderSize;
    var buf, n := file[off..off + MAX_HEADER_SIZE], HeaderSize(e);
    var h, kv := DecodeHeader(buf).value, file[off + n..off + Size(e)];
    DecodedFacts(buf);
    ReadsBody(file, off, buf, h);
    AssemblesBody(file, off, buf, h, kv);
    DamagedBody(file, off, e, i, b);
    DamagedAssembles(buf, h, kv, Body(e)[i := b]);
    SamePrefix(buf, PutLe32(EntryCrc(e)));
    Le32RoundTrip(EntryCrc(e));
    Crc32.SingleByteDetected(Body(e), i, b);
    StoredChecksum(e);
  }

  /** How the damaged bytes split into checksum, header and the rest. */
  lemma DamagedBody(file: Bytes, off: nat, e: Entry, i: nat, b: byte)
    requires Sized(e) && HeaderSize(e) <= MAX_HEADER_SIZE && off + MAX_HEADER_SIZE <= |file| && off + Size(e) <= |file|
    requires i < HeaderSize(e) - 4 && i < |Body(e)| && file[off..off + Size(e)] == Encode(e)[4 + i := b]
    ensures var buf, kv := file[off..off + MAX_HEADER_SIZE], file[off + HeaderSize(e)..off + Size(e)];
            |kv| == |e.key| + |e.value| && buf[..4] == PutLe32(EntryCrc(e)) && buf[..HeaderSize(e)][4..] + kv == Body(e)[i := b]
  {
    hide EntryCrc, PutLe32, Body;
    var buf, stored, n := file[off..off + MAX_HEADER_SIZE], file[off..off + Size(e)], HeaderSize(e);
    var kv := file[off + n..off + Size(e)];
    assert stored == PutLe32(EntryCrc(e)) + Body(e)[i := b];
    assert stored[..n] == buf[..n] && stored[n..] == kv && stored[4..] == Body(e)[i := b];
    assert buf[..4] == stored[..4];
  }

  lemma DamagedAssembles(buf: Bytes, h: Header, kv: Bytes, body: Bytes)
    requires 4 < h.length <= |buf| && |kv| == h.kSize + h.vSize && h.txStat < 0x1_0000 && buf[..h.length][4..] + kv == body
    ensures Crc32.Checksum(body) != h.crc ==> Assemble(buf, h, kv) == InvalidCrc
  {
    hide Crc32.Checksum;
    var key, value := kv[..h.kSize], kv[h.kSize..];
    assert key + value == kv;
    SplitCrcAgrees(buf[..h.length], key, value);
  }

  lemma StoredChecksum(e: Entry)
    requires Sized(e)
    ensures EntryCrc(e) == Crc32.Checksum(Body(e))
  {
  }

  lemma DecodedFacts(buf: Bytes)
    requires |buf| >= 5 && DecodeHeader(buf).Some?
    ensures DecodeHeader(buf).value.crc == Le32(buf) && DecodeHeader(buf).value.txStat < 0x1_0000
  {
    hide GetVarints, Le32;
  }

  lemma ChecksumDamaged(file: Bytes, off: nat, e: Entry, q: nat, b: byte)
    requires Storable(e) && off + MAX_HEADER_SIZE <= |file| && off + Size(e) <= |file|
    requires (e.key != [] || e.value != []) && q < 4 && b != Encode(e)[q]
    requires file[off..off + Size(e)] == Encode(e)[q := b]
    ensures ReadEntry(file, off) == InvalidCrc
  {
    var kv, crc := e.key + e.value, PutLe32(EntryCrc(e));
    assert Encode(e)[q := b] == Stored(e, crc[q := b], e.stat, kv);
    ReadShaped(file, off, e, crc[q := b], e.stat, kv);
    assert [e.stat] + Fields(e) + kv == Body(e);
    PutLe32RoundTrip(crc[q := b]);
  }

  lemma BodyDamaged(file: Bytes, off: nat, e: Entry, i: nat, b: byte)
    requires Storable(e) && off + MAX_HEADER_SIZE <= |file| && off + Size(e) <= |file|
    requires (e.key != [] || e.value != []) && i < |Body(e)| && b != Body(e)[i] && !(1 <= i < HeaderSize(e) - 4)
    requires file[off..off + Size(e)] == Encode(e)[4 + i := b]
    ensures ReadEntry(file, off) == InvalidCrc
  {
    var kv, crc := e.key + e.value, PutLe32(EntryCrc(e));
    var stat := if i == 0 then b else e.stat;
    var kv' := if i == 0 then kv else kv[4 + i - HeaderSize(e) := b];
    assert Body(e)[i := b] == [stat] + Fields(e) + kv';
    assert Encode(e)[4 + i := b] == crc + Body(e)[i := b] == Stored(e, crc, stat, kv');
    ReadShaped(file, off, e, crc, stat, kv');
    Le32RoundTrip(EntryCrc(e));
    Crc32.SingleByteDetected(Body(e), i, b);
  }

  // --- reading a whole file ---

  lemma {:induction false} ZeroVarints(buf: Bytes, off: nat, n: nat)
    requires off + n <= |buf| && forall i :: 0 <= i < |buf| ==> buf[i] == 0
    ensures GetVarints(buf, off, n) == Some((seq(n, _ => 0), off + n))
    decreases n
  {
    if n > 0 {
      assert GetVarint(buf[off..]) == (0, 1);
      ZeroVarints(buf, off + 1, n - 1);
      assert seq(n, _ => 0) == [0] + seq(n - 1, _ => 0);
    } else {
      assert seq(n, _ => 0) == [];
    }
  }

  lemma ZerosEndTheLog(file: Bytes, off: nat)
    requires off + MAX_HEADER_SIZE <= |file| && forall i :: off <= i < |file| ==> file[i] == 0
    ensures ReadEntry(file, off) == EndOfLog
  {
    hide GetVarints, SplitCrc;
    var buf := file[off..off + MAX_HEADER_SIZE];
    assert forall i :: 0 <= i < |buf| ==> buf[i] == file[off + i] == 0;
    ZeroVarints(buf, 5, 5);
    assert Le32(buf) == 0;
    assert DecodeHeader(buf) == Some(Header(0, 0, 0, 0, 0, 0, 0, 10));
  }

  lemma {:induction false} EncodeAllLength(es: seq<Entry>)
    requires AllStorable(es)
    ensures |EncodeAll(es)| == Used(es)
  {
    if es != [] {
      EncodeAllLength(es[1..]);
    }
  }

  /** How a scan ends: at the zeros, or at a place where no full header can be read. */
  function Stop(es: seq<Entry>, off: nat, length: nat): ReadResult
    requires AllStorable(es)
  {
    if Roomed(es, off, length) && off + Used(es) + MAX_HEADER_SIZE <= length then EndOfLog else Eof
  }

  /** From `off` on the file holds `es` and then, if a header fits there, only zeros. */
  predicate Ahead(file: Bytes, es: seq<Entry>, off: nat) {
    && AllStorable(es) && off + Used(es) <= |file| && file[off..off + Used(es)] == EncodeAll(es)
    && (off + Used(es) + MAX_HEADER_SIZE <= |file| ==> forall i :: off + Used(es) <= i < |file| ==> file[i] == 0)
  }

  /** One read: the next entry, or one of the two ways a scan ends. */
  lemma AheadReads(file: Bytes, es: seq<Entry>, off: nat)
    requires Ahead(file, es, off)
    ensures if off + MAX_HEADER_SIZE > |file| then ReadEntry(file, off) == Eof
            else if es == [] then ReadEntry(file, off) == EndOfLog
            else ReadEntry(file, off) == Read(es[0], Size(es[0])) && Ahead(file, es[1..], off + Size(es[0]))
  {
    hide ReadEntry, Encode, EntryCrc;
    if off + MAX_HEADER_SIZE > |file| {
      ReadsEof(file, off);
    } else if es == [] {
      ZerosEndTheLog(file, off);
    } else {
      var n := Size(es[0]);
      EncodeAllLength(es[1..]);
      assert file[off..off + n] == EncodeAll(es)[..n] == Encode(es[0]);
      ReadsBack(file, off, es[0]);
      assert file[off + n..off + n + Used(es[1..])] == EncodeAll(es)[n..] == EncodeAll(es[1..]);
    }
  }

  lemma {:induction false} ScanFrom(fid: nat, file: Bytes, es: seq<Entry>, off: nat)
    requires AllStorable(es) && Ahead(file, es, off)
    ensures Scan(fid, file, off) == (Recs(fid, RoomedPrefix(es, off, |file|), off), Stop(es, off, |file|))
    decreases |es|
  {
    hide ReadEntry, Encode, EntryCrc, Scan, Recs, Ahead;
    AheadReads(file, es, off);
    if off + MAX_HEADER_SIZE > |file| || es == [] {
      AheadEnd(file, es, off);
      ScanEnds(fid, file, off);
    } else {
      ScanFrom(fid, file, es[1..], off + Size(es[0]));
      RecsOfPrefix(fid, es, off, |file|);
      ScanSteps(fid, file, off, es[0], Size(es[0]));
    }
  }

  lemma AheadEnd(file: Bytes, es: seq<Entry>, off: nat)
    requires Ahead(file, es, off)
    ensures off + Used(es) <= |file|
  {
  }

  lemma ScanEnds(fid: nat, file: Bytes, off: nat)
    requires !ReadEntry(file, off).Read?
    ensures Scan(fid, file, off) == ([], ReadEntry(file, off)) && Recs(fid, [], off) == []
  {
    hide ReadEntry;
  }

  lemma ScanSteps(fid: nat, file: Bytes, off: nat, e: Entry, n: nat)
    requires ReadEntry(file, off) == Read(e, n)
    ensures Scan(fid, file, off) == ([Rec(fid, off, e)] + Scan(fid, file, off + n).0, Scan(fid, file, off + n).1)
  {
    hide ReadEntry;
  }

  lemma ReadsEof(file: Bytes, off: nat)
    requires off + MAX_HEADER_SIZE > |file|
    ensures ReadEntry(file, off) == Eof
  {
  }

  lemma RecsOfPrefix(fid: nat, es: seq<Entry>, off: nat, length: nat)
    requires AllStorable(es) && es != [] && off + MAX_HEADER_SIZE <= length
    ensures Recs(fid, RoomedPrefix(es, off, length), off)
            == [Rec(fid, off, es[0])] + Recs(fid, RoomedPrefix(es[1..], off + Size(es[0]), length), off + Size(es[0]))
  {
    assert RoomedPrefix(es, off, length)[1..] == RoomedPrefix(es[1..], off + Size(es[0]), length);
  }

  /**
   Framing. Reading a file entry by entry gives exactly the entries that were written, at the offsets
   they were written to, up to the first one that starts less than 25 bytes before the end of the
   file; then it stops. Nothing is assumed about the room at the end.
   */
  lemma Framing(fid: nat, es: seq<Entry>, length: nat)
    requires AllStorable(es) && Used(es) <= length
    ensures Scan(fid, FileBytes(es, length), 0) == (Recs(fid, RoomedPrefix(es, 0, length), 0), Stop(es, 0, length))
  {
    hide ReadEntry;
    FileBytesAhead(es, length);
    ScanFrom(fid, FileBytes(es, length), es, 0);
  }

  lemma FileBytesAhead(es: seq<Entry>, length: nat)
    requires AllStorable(es) && Used(es) <= length
    ensures Ahead(FileBytes(es, length), es, 0) && |FileBytes(es, length)| == length
  {
    hide Encode, EntryCrc;
    EncodeAllLength(es);
    assert FileBytes(es, length)[0..Used(es)] == EncodeAll(es);
  }

  lemma {:induction false} RoomedPrefixComplete(es: seq<Entry>, off: nat, length: nat)
    requires AllStorable(es)
    ensures RoomedPrefix(es, off, length) == es <==> Roomed(es, off, length)
    decreases |es|
  {
    if es != [] {
      RoomedPrefixComplete(es[1..], off + Size(es[0]), length);
      if off + MAX_HEADER_SIZE <= length {
        var rest := RoomedPrefix(es[1..], off + Size(es[0]), length);
        assert ([es[0]] + rest)[1..] == rest && es == [es[0]] + es[1..];
      }
    }
  }

  lemma {:induction false} RecsInjective(fid: nat, es: seq<Entry>, fs: seq<Entry>, off: nat)
    requires AllStorable(es) && AllStorable(fs) && Recs(fid, es, off) == Recs(fid, fs, off)
    ensures es == fs
    decreases |es|
  {
    if es != [] {
      assert Recs(fid, es, off)[0] == Recs(fid, fs, off)[0];
      assert Recs(fid, es, off)[1..] == Recs(fid, fs, off)[1..];
      RecsInjective(fid, es[1..], fs[1..], off + Size(es[0]));
      assert es == [es[0]] + es[1..] && fs == [fs[0]] + fs[1..];
    } else {
      assert |fs| == |Recs(fid, fs, off)| == 0;
    }
  }

  /** A scan finds all entries of a file if and only if each of them has room for a full header. */
  lemma ScanCompleteIffRoomed(fid: nat, es: seq<Entry>, length: nat)
    requires AllStorable(es) && Used(es) <= length
    ensures Scan(fid, FileBytes(es, length), 0).0 == Recs(fid, es, 0) <==> Roomed(es, 0, length)
  {
    Framing(fid, es, length);
    RoomedPrefixComplete(es, 0, length);
    if Recs(fid, RoomedPrefix(es, 0, length), 0) == Recs(fid, es, 0) {
      RecsInjective(fid, RoomedPrefix(es, 0, length), es, 0);
    }
  }

  /** Entries of 25 bytes or more always have room. */
  lemma {:induction false} LargeEntriesRoomed(es: seq<Entry>, off: nat, length: nat)
    requires AllStorable(es) && off + Used(es) <= length
    requires forall i :: 0 <= i < |es| ==> Size(es[i]) >= MAX_HEADER_SIZE
    ensures Roomed(es, off, length)
    decreases |es|
  {
    if es != [] {
      LargeEntriesRoomed(es[1..], off + Size(es[0]), length);
    }
  }

  // --- appending ---

  /** The entry that starts at `off`, if an entry starts there. */
  function EntryAt(es: seq<Entry>, off: int): (r: Option<Entry>)
    requires AllStorable(es)
    decreases |es|
  {
    if es == [] || off < 0 then None
    else if off == 0 then Some(es[0])
    else EntryAt(es[1..], off - Size(es[0]))
  }

  lemma {:induction false} UsedAppend(es: seq<Entry>, e: Entry)
    requires AllStorable(es) && Storable(e)
    ensures Used(es + [e]) == Used(es) + Size(e)
    decreases |es|
  {
    if es == [] {
      assert es + [e] == [e];
    } else {
      assert (es + [e])[1..] == es[1..] + [e];
      UsedAppend(es[1..], e);
    }
  }

  lemma {:induction false} EncodeAllAppend(es: seq<Entry>, e: Entry)
    requires AllStorable(es) && Storable(e)
    ensures EncodeAll(es + [e]) == EncodeAll(es) + Encode(e)
    decreases |es|
  {
    hide Encode, EntryCrc;
    if es == [] {
      assert es + [e] == [e];
    } else {
      assert (es + [e])[1..] == es[1..] + [e];
      EncodeAllAppend(es[1..], e);
    }
  }

  lemma {:induction false} RecsAppend(fid: nat, es: seq<Entry>, e: Entry, off: nat)
    requires AllStorable(es) && Storable(e)
    ensures Recs(fid, es + [e], off) == Recs(fid, es, off) + [Rec(fid, off + Used(es), e)]
    decreases |es|
  {
    if es == [] {
      assert es + [e] == [e];
    } else {
      assert (es + [e])[1..] == es[1..] + [e];
      RecsAppend(fid, es[1..], e, off + Size(es[0]));
    }
  }

  /** An appended entry lies at the old write offset, and no earlier entry moves. */
  lemma {:induction false} EntryAtAppend(es: seq<Entry>, e: Entry, off: int)
    requires AllStorable(es) && Storable(e)
    ensures EntryAt(es + [e], off) == if off == Used(es) then Some(e) else EntryAt(es, off)
    decreases |es|
  {
    if es == [] {
      assert es + [e] == [e];
    } else {
      assert (es + [e])[1..] == es[1..] + [e];
      EntryAtAppend(es[1..], e, off - Size(es[0]));
    }
  }

  /** Entries lie within the used part, and no two of them overlap. */
  lemma {:induction false} EntriesDisjoint(es: seq<Entry>, off: int, other: int)
    requires AllStorable(es) && EntryAt(es, off).Some?
    ensures Storable(EntryAt(es, off).value)
    ensures 0 <= off && off + Size(EntryAt(es, off).value) <= Used(es)
    ensures off < other < off + Size(EntryAt(es, off).value) ==> EntryAt(es, other).None?
    decreases |es|
  {
    if off != 0 {
      EntriesDisjoint(es[1..], off - Size(es[0]), other - Size(es[0]));
    }
  }

  /** Appending to the entries is writing their bytes at the write offset. */
  lemma WriteAppends(es: seq<Entry>, e: Entry, length: nat)
    requires AllStorable(es) && Storable(e) && Used(es) <= length
    ensures Used(es + [e]) <= Max(length, Used(es) + Size(e))
    ensures |FileBytes(es, length)| == length
    ensures FileBytes(es + [e], Max(length, Used(es) + Size(e))) == WriteAt(FileBytes(es, length), Encode(e), Used(es))
  {
    hide Encode, EntryCrc, Size, EncodeAll, Used, WriteAt, HeaderSize;
    UsedAppend(es, e);
    EncodeAllAppend(es, e);
    EncodeAllLength(es);
    WriteInZeros(EncodeAll(es), length, Encode(e));
  }

  lemma WriteInZeros(head: Bytes, length: nat, data: Bytes)
    requires |head| <= length
    ensures WriteAt(head + Zeros(length - |head|), data, |head|)
            == head + data + Zeros(Max(length, |head| + |data|) - |head| - |data|)
  {
    var before := head + Zeros(length - |head|);
    assert before[..|head|] == head;
    var n := |head| + |data|;
    if n < length {
      assert before[n..] == Zeros(length - n);
    }
  }

  /** Reading where an entry starts: that entry, or EOF without room for a full header. */
  lemma {:induction false} ReadAtBoundary(file: Bytes, es: seq<Entry>, base: nat, off: nat)
    requires AllStorable(es) && base + Used(es) <= |file|
    requires file[base..base + Used(es)] == EncodeAll(es)
    requires EntryAt(es, off).Some?
    ensures Storable(EntryAt(es, off).value)
    ensures ReadEntry(file, base + off) == if base + off + MAX_HEADER_SIZE <= |file|
                                            then Read(EntryAt(es, off).value, Size(EntryAt(es, off).value)) else Eof
    decreases |es|
  {
    hide ReadEntry, Encode, EntryCrc;
    var n := Size(es[0]);
    EncodeAllLength(es[1..]);
    if off == 0 {
      assert file[base..base + n] == EncodeAll(es)[..n] == Encode(es[0]);
      if base + MAX_HEADER_SIZE <= |file| {
        ReadsBack(file, base, es[0]);
      } else {
        ReadsEof(file, base);
      }
    } else {
      assert file[base + n..base + n + Used(es[1..])] == EncodeAll(es)[n..] == EncodeAll(es[1..]);
      ReadAtBoundary(file, es[1..], base + n, off - n);
    }
  }

  /** What can be read is the front part of what was written. */
  lemma {:induction false} RoomedPrefixIs(es: seq<Entry>, off: nat, length: nat)
    requires AllStorable(es)
    ensures RoomedPrefix(es, off, length) <= es
    decreases |es|
  {
    if es != [] && off + MAX_HEADER_SIZE <= length {
      RoomedPrefixIs(es[1..], off + Size(es[0]), length);
    }
  }

  /** It can be read to its own end. */
  lemma {:induction false} RoomedPrefixRoomed(es: seq<Entry>, off: nat, length: nat)
    requires AllStorable(es)
    ensures Roomed(RoomedPrefix(es, off, length), off, length)
    decreases |es|
  {
    if es != [] && off + MAX_HEADER_SIZE <= length {
      RoomedPrefixRoomed(es[1..], off + Size(es[0]), length);
      assert RoomedPrefix(es, off, length)[1..] == RoomedPrefix(es[1..], off + Size(es[0]), length);
    }
  }

  /** The entries that can be read are exactly those that have room. */
  lemma {:induction false} RoomedPrefixAt(es: seq<Entry>, off: int, base: nat, length: nat)
    requires AllStorable(es)
    ensures EntryAt(RoomedPrefix(es, base, length), off) == if base + off + MAX_HEADER_SIZE <= length then EntryAt(es, off) else None
    decreases |es|
  {
    if es != [] && base + MAX_HEADER_SIZE <= length && off > 0 {
      RoomedPrefixAt(es[1..], off - Size(es[0]), base + Size(es[0]), length);
      assert RoomedPrefix(es, base, length)[1..] == RoomedPrefix(es[1..], base + Size(es[0]), length);
    }
  }

  /** If a file does not have all of them, the first one without room starts where they end. */
  lemma {:induction false} RoomedPrefixEnd(es: seq<Entry>, base: nat, length: nat)
    requires AllStorable(es)
    ensures RoomedPrefix(es, base, length) != es ==> base + Used(RoomedPrefix(es, base, length)) + MAX_HEADER_SIZE > length
    decreases |es|
  {
    if es != [] && base + MAX_HEADER_SIZE <= length {
      RoomedPrefixEnd(es[1..], base + Size(es[0]), length);
      assert RoomedPrefix(es, base, length)[1..] == RoomedPrefix(es[1..], base + Size(es[0]), length);
      assert es == [es[0]] + es[1..];
    }
  }

  lemma {:induction false} UsedPrefix(es: seq<Entry>, fs: seq<Entry>)
    requires AllStorable(es) && AllStorable(fs) && es <= fs
    ensures Used(es) <= Used(fs)
    ensures Used(fs) <= |EncodeAll(fs)| && EncodeAll(es) == EncodeAll(fs)[..Used(es)]
    decreases |es|
  {
    hide Size, Encode, EntryCrc;
    EncodeAllLength(fs);
    if es != [] {
      UsedPrefix(es[1..], fs[1..]);
      SizeIsLength(fs[0]);
      EncodeAllLength(fs[1..]);
      assert es[0] == fs[0];
    }
  }

  lemma SizeIsLength(e: Entry)
    requires Sized(e)
    ensures |Encode(e)| == Size(e)
  {
  }

  /** A file is also the file of what can be read of it. */
  lemma AheadTruncated(file: Bytes, es: seq<Entry>)
    requires Ahead(file, es, 0)
    ensures Ahead(file, RoomedPrefix(es, 0, |file|), 0)
  {
    hide Size, Encode, EntryCrc, EncodeAll, Used, RoomedPrefix;
    var fs := RoomedPrefix(es, 0, |file|);
    RoomedPrefixIs(es, 0, |file|);
    UsedPrefix(fs, es);
    RoomedPrefixEnd(es, 0, |file|);
    assert file[0..Used(fs)] == file[0..Used(es)][..Used(fs)];
  }

  /** Writing an entry at the write offset. */
  lemma AheadWrite(file: Bytes, es: seq<Entry>, e: Entry)
    requires Ahead(file, es, 0) && Storable(e)
    ensures Used(es) <= |file| && Ahead(WriteAt(file, Encode(e), Used(es)), es + [e], 0)
  {
    hide Size, Encode, EntryCrc, EncodeAll, Used, WriteAt;
    UsedAppend(es, e);
    EncodeAllAppend(es, e);
    SizeIsLength(e);
    var r, n := WriteAt(file, Encode(e), Used(es)), Used(es);
    assert r[0..n + Size(e)] == r[..n] + r[n..n + Size(e)];
  }
}
