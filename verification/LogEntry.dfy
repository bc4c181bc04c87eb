/** The log entry and its binary form (logfile/log_entry.go). */
module LogEntry {
  import opened Bytes
  import opened Varint
  import Crc32

  /** Status values of an entry; 0 is a plain write. */
  const S_DELETE: byte := 1
  const S_LIST_META: byte := 2

  /** TxStatus of an entry written by a commit. */
  const TX_COMMITTED: nat := 1

  const MAX_HEADER_SIZE: nat := 25

  /** `txId` is the uint64 seen as the int64 that is stored. */
  datatype Entry = Entry(key: Bytes, value: Bytes, stat: byte, expiredAt: int64, txId: int64, txStat: nat)

  /** What decodeHeader leaves in the struct, and the header's length. */
  datatype Header = Header(crc: int, stat: byte, expiredAt: int64, txId: int64, txStat: nat,
                           kSize: nat, vSize: nat, length: int)

  function Plain(key: Bytes, value: Bytes): Entry {
    Entry(key, value, 0, 0, 0, 0)
  }

  function Expiring(key: Bytes, value: Bytes, expiredAt: int64): Entry {
    Entry(key, value, 0, expiredAt, 0, 0)
  }

  function Tombstone(key: Bytes): Entry {
    Entry(key, [], S_DELETE, 0, 0, 0)
  }

  /** The five integers of the header, in order. */
  function FieldValues(e: Entry): (xs: seq<int64>)
    requires Sized(e)
    ensures |xs| == 5
  {
    [e.expiredAt, e.txId, e.txStat, |e.key|, |e.value|]
  }

  function Fields(e: Entry): Bytes
    requires Sized(e)
  {
    PutVarints(FieldValues(e))
  }

  /** Lengths survive the conversion to uint32, and the status the one to uint16. */
  predicate Sized(e: Entry) {
    |e.key| < U32 && |e.value| < U32 && e.txStat < 0x1_0000
  }

  /** Everything after the checksum. */
  function Body(e: Entry): Bytes
    requires Sized(e)
  {
    [e.stat] + Fields(e) + (e.key + e.value)
  }

  function EntryCrc(e: Entry): (crc: int)
    requires Sized(e)
    ensures 0 <= crc < U32
  {
    Crc32.Checksum(Body(e))
  }

  /** The result of EncodeEntry. */
  function Encode(e: Entry): (b: Bytes)
    requires Sized(e)
  {
    PutLe32(EntryCrc(e)) + Body(e)
  }

  function HeaderSize(e: Entry): nat
    requires Sized(e)
  {
    5 + |Fields(e)|
  }

  function Size(e: Entry): (n: nat)
    requires Sized(e)
    ensures n == |Encode(e)|
    ensures n >= 10
  {
    FieldsLength(e);
    HeaderSize(e) + |e.key| + |e.value|
  }

  /**
   Entries that can be written and read back: the header fits the 25-byte buffer (EncodeEntry panics
   otherwise), and the entry is not mistaken for the end of the log.
   */
  predicate Storable(e: Entry) {
    && Sized(e)
    && HeaderSize(e) <= MAX_HEADER_SIZE
    && (e.key != [] || e.value != [] || EntryCrc(e) != 0)
  }

  /** The struct that decodeHeader fills, with its conversions to uint16 and uint32. */
  function FromFields(crc: int, stat: byte, xs: seq<int64>, length: int): Header
    requires |xs| == 5
  {
    Header(crc, stat, xs[0], xs[1], xs[2] % 0x1_0000, xs[3] % U32, xs[4] % U32, length)
  }

  /** decodeHeader; None where Go panics. */
  function DecodeHeader(buf: Bytes): Option<Header>
    requires |buf| >= 5
  {
    var fields := GetVarints(buf, 5, 5);
    if fields.None? then None
    else Some(FromFields(Le32(buf), buf[4], fields.value.0, fields.value.1))
  }

  function HeaderOf(e: Entry, crc: int): Header
    requires Sized(e)
  {
    Header(crc, e.stat, e.expiredAt, e.txId, e.txStat, |e.key|, |e.value|, HeaderSize(e))
  }

  /** getEntryCrc: the checksum computed in three pieces. */
  function SplitCrc(header: Bytes, key: Bytes, value: Bytes): int {
    if |header| <= 4 then 0
    else Crc32.Update(Crc32.Update(Crc32.Checksum(header[4..]), key), value)
  }

  /** Decoding gives back every field, whatever bytes follow the header. */
  lemma HeaderRoundTrip(buf: Bytes, e: Entry, rest: Bytes)
    requires Sized(e) && |buf| >= 5
    requires buf[4] == e.stat && buf[5..] == Fields(e) + rest
    ensures DecodeHeader(buf) == Some(HeaderOf(e, Le32(buf)))
  {
    hide GetVarints, PutVarints, Fields, Le32, HeaderSize;
    FieldsRoundTrip(buf, e, rest, 5);
    assert FromFields(Le32(buf), buf[4], FieldValues(e), HeaderSize(e)) == HeaderOf(e, Le32(buf));
  }

  lemma FieldsRoundTrip(buf: Bytes, e: Entry, rest: Bytes, n: nat)
    requires Sized(e) && |buf| >= 5 && n == 5 && buf[5..] == Fields(e) + rest
    ensures GetVarints(buf, 5, n) == Some((FieldValues(e), HeaderSize(e)))
  {
    VarintsRoundTrip(buf, 5, FieldValues(e), rest);
  }

  /** The split checksum is the one-shot checksum, so it always matches what EncodeEntry stored. */
  lemma SplitCrcAgrees(header: Bytes, key: Bytes, value: Bytes)
    requires |header| > 4
    ensures SplitCrc(header, key, value) == Crc32.Checksum(header[4..] + (key + value))
  {
    var h := header[4..];
    Crc32.UpdateAppend(0, h, key);
    Crc32.UpdateAppend(0, h + key, value);
    assert h + (key + value) == (h + key) + value;
  }

  // --- when the header fits ---

  lemma FieldsLength(e: Entry)
    requires Sized(e)
    ensures |Fields(e)| == |PutVarint(e.expiredAt)| + |PutVarint(e.txId)| + |PutVarint(e.txStat)|
                           + |PutVarint(|e.key|)| + |PutVarint(|e.value|)|
    ensures |Fields(e)| >= 5
  {
    var d, v: int64 := |e.key|, |e.value|;
    var c: int64 := e.txStat;
    PutVarintsCons(v, []);
    PutVarintsCons(d, [v]);
    PutVarintsCons(c, [d, v]);
    PutVarintsCons(e.txId, [c, d, v]);
    PutVarintsCons(e.expiredAt, [e.txId, c, d, v]);
    assert FieldValues(e) == [e.expiredAt] + [e.txId, c, d, v];
    assert [e.txId, c, d, v] == [e.txId] + [c, d, v] && [c, d, v] == [c] + [d, v] && [d, v] == [d] + [v] && [v] == [v] + [];
  }

  lemma Powers()
    ensures Pow128(1) == 0x80
    ensures Pow128(5) == 0x8_0000_0000
    ensures Pow128(8) == 0x100_0000_0000_0000
    ensures Pow128(10) == 0x40_0000_0000_0000_0000
  {
    assert Pow128(2) == 0x4000;
    assert Pow128(4) == 0x1000_0000;
    assert Pow128(6) == 0x400_0000_0000;
  }

  /**
   What every writer of the repository produces: no transaction id, a commit flag of at most 2 and an
   expiry within 2^55 seconds of the epoch. These headers take at most 25 bytes, although the layout
   comment at logfile/log_entry.go:29 adds up to 38.
   */
  lemma HeaderFits(e: Entry)
    requires Sized(e) && e.txId == 0 && e.txStat <= 2
    requires -0x80_0000_0000_0000 <= e.expiredAt < 0x80_0000_0000_0000
    ensures HeaderSize(e) <= MAX_HEADER_SIZE
  {
    FieldsLength(e);
    Powers();
    UvarintLength(ZigZag(e.expiredAt), 8);
    UvarintLength(ZigZag(0), 1);
    UvarintLength(ZigZag(e.txStat), 1);
    UvarintLength(ZigZag(|e.key|), 5);
    UvarintLength(ZigZag(|e.value|), 5);
  }

  /** The bound on the expiry is the best one: one second later, entries with long keys and values overflow. */
  lemma HeaderOverflows(e: Entry)
    requires Sized(e)
    requires e.expiredAt >= 0x80_0000_0000_0000 || e.expiredAt < -0x80_0000_0000_0000
    requires |e.key| >= 0x800_0000 && |e.value| >= 0x800_0000
    ensures HeaderSize(e) > MAX_HEADER_SIZE
  {
    FieldsLength(e);
    Powers();
    UvarintLength(ZigZag(e.expiredAt), 8);
    assert Pow128(4) == 0x1000_0000;
    UvarintLength(ZigZag(|e.key|), 4);
    UvarintLength(ZigZag(|e.value|), 4);
  }
}
