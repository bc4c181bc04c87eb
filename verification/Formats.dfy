/** The bytes on disk, spelled out: integers, entries, compound keys, list cells and table records. */
module Formats {
  import opened Bytes
  import opened Varint
  import Crc32
  import opened Residue
  import opened LogEntry
  import opened Ledger
  import opened Discard
  import opened Alike
  import CompoundKey
  import ListDb
  import Lists

  /** The least significant byte comes first. */
  lemma LittleEndian(a: byte, b: byte, c: byte, d: byte)
    ensures PutLe32(a + 0x100 * b + 0x1_0000 * c + 0x100_0000 * d) == [a, b, c, d]
  {
    PutLe32RoundTrip([a, b, c, d]);
  }

  /**
   An entry: four bytes of checksum over the rest, the status, then expiry, transaction id, transaction status, key length
   and value length as varints, then key and value.
   */
  lemma EntryLayout(e: Entry)
    requires Sized(e)
    ensures var b := Encode(e);
            && |b| > 4 && Crc32.Checksum(b[4..] + b[..4]) == 0x2144_DF1C
            && b[4..] == [e.stat] + PutVarint(e.expiredAt) + PutVarint(e.txId) + PutVarint(e.txStat)
                         + PutVarint(|e.key|) + PutVarint(|e.value|) + e.key + e.value
  {
    hide Crc32.Checksum, PutVarint, PutVarints, PutLe32;
    var b := Encode(e);
    assert b[..4] == PutLe32(EntryCrc(e)) && b[4..] == Body(e);
    ResidueIff(Body(e), b[..4]);
    var x, y, z: int64 := e.txStat, |e.key|, |e.value|;
    PutVarintsCons(e.expiredAt, [e.txId, x, y, z]);
    PutVarintsCons(e.txId, [x, y, z]);
    PutVarintsCons(x, [y, z]);
    PutVarintsCons(y, [z]);
    PutVarintsCons(z, []);
    assert [e.expiredAt] + [e.txId, x, y, z] == FieldValues(e);
    assert [e.txId] + [x, y, z] == [e.txId, x, y, z] && [x] + [y, z] == [x, y, z] && [y] + [z] == [y, z] && [z] + [] == [z];
    assert PutVarints([]) == [] by { NoVarints(); }
    assert Fields(e) == PutVarint(e.expiredAt) + PutVarint(e.txId) + PutVarint(x) + PutVarint(y) + PutVarint(z);
  }

  lemma NoVarints()
    ensures PutVarints([]) == []
  {
  }

  /** What Set, Delete and a commit write for short keys and values, byte by byte. */
  lemma ShortEntries(key: Bytes, value: Bytes)
    requires |key| < 64 && |value| < 64
    ensures Encode(Plain(key, value))[4..] == [0, 0, 0, 0, 2 * |key|, 2 * |value|] + key + value
    ensures Encode(Tombstone(key))[4..] == [1, 0, 0, 0, 2 * |key|, 0] + key
    ensures Encode(Marked(Plain(key, value)))[4..] == [0, 0, 0, 2, 2 * |key|, 2 * |value|] + key + value
  {
    hide PutVarint, Encode;
    EntryLayout(Plain(key, value));
    EntryLayout(Tombstone(key));
    EntryLayout(Marked(Plain(key, value)));
    VarintFormat(0);
    VarintFormat(1);
    VarintFormat(|key|);
    VarintFormat(|value|);
  }

  /** The counters of a list are written under status 2, as two words. */
  lemma CountersEntry(key: Bytes, head: nat, tail: nat)
    requires |key| < 64 && head < U32 && tail < U32
    ensures Encode(Lists.MetaEntry(key, head, tail))[4..] == [2, 0, 0, 0, 2 * |key|, 16] + key + PutLe32(head) + PutLe32(tail)
  {
    hide PutVarint, Encode, PutLe32;
    var e := Lists.MetaEntry(key, head, tail);
    EntryLayout(e);
    VarintFormat(0);
    VarintFormat(8);
    VarintFormat(|key|);
    assert |e.value| == 8;
  }

  /** A compound key: both lengths as varints, then key and field. */
  lemma CompoundLayout(key: Bytes, sub: Bytes)
    requires CompoundKey.Short(key) && CompoundKey.Short(sub)
    ensures CompoundKey.Encoded(key, sub) == PutVarint(|key|) + PutVarint(|sub|) + key + sub
    ensures |key| < 64 && |sub| < 64 ==> CompoundKey.Encoded(key, sub) == [2 * |key|, 2 * |sub|] + key + sub
  {
    hide PutVarint, PutVarints;
    var x, y: int64 := |key|, |sub|;
    PutVarintsCons(x, [y]);
    PutVarintsCons(y, []);
    assert [x] + [y] == [x, y] && [y] + [] == [y];
    NoVarints();
    VarintFormat(x);
    VarintFormat(y);
  }

  /** A list cell is under its number and the list's key; a new list counts from 2^31 - 1 and 2^31. */
  lemma ListLayout(key: Bytes, a: byte, b: byte, c: byte, d: byte, head: nat, tail: nat)
    requires head < U32 && tail < U32
    ensures ListDb.CellKey(key, a + 0x100 * b + 0x1_0000 * c + 0x100_0000 * d) == [a, b, c, d] + key
    ensures ListDb.MetaValue(head, tail) == PutLe32(head) + PutLe32(tail)
    ensures ListDb.Meta(map[], key) == (0x7fff_ffff, 0x8000_0000)
  {
    LittleEndian(a, b, c, d);
  }

  /** A record of the discard table is fid, total and dead bytes, four bytes each, at 12 times its number. */
  lemma RecordLayout(file: Bytes, n: nat, fid: nat, total: nat, dead: nat)
    requires |file| == 8192 && n < 682 && fid < U32 && total < U32 && dead < U32
    requires file[12 * n..12 * n + 12] == PutLe32(fid) + PutLe32(total) + PutLe32(dead)
    ensures 12 * n in RecordsOf(file) && RecordsOf(file)[12 * n] == Record(fid, total, dead)
  {
    hide PutLe32, Le32;
    ThreeWords(file, 12 * n, PutLe32(fid), PutLe32(total), PutLe32(dead));
    Le32RoundTrip(fid);
    Le32RoundTrip(total);
    Le32RoundTrip(dead);
  }

  lemma ThreeWords(file: Bytes, o: nat, a: Bytes, b: Bytes, c: Bytes)
    requires |a| == |b| == |c| == 4 && o + 12 <= |file| && file[o..o + 12] == a + b + c
    ensures file[o..o + 4] == a && file[o + 4..o + 8] == b && file[o + 8..o + 12] == c
  {
    var w := a + b + c;
    forall i | 0 <= i < 4
      ensures file[o + i] == a[i] && file[o + 4 + i] == b[i] && file[o + 8 + i] == c[i]
    {
      assert file[o..o + 12][i] == w[i] && file[o..o + 12][4 + i] == w[4 + i] && file[o..o + 12][8 + i] == w[8 + i];
    }
  }
}
