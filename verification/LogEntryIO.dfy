/** EncodeEntry as it runs: a 25-byte header buffer filled field by field, then the final buffer. */
module LogEntryIO {
  import opened Bytes
  import opened Varint
  import opened LogEntry
  import Crc32

  /** binary.PutVarint(buf[off:], x): writes one byte per seven bits. */
  method PutVarintAt(buf: array<byte>, off: nat, x: int64) returns (n: nat)
    requires off + |PutVarint(x)| <= buf.Length
    modifies buf
    ensures n == |PutVarint(x)|
    ensures buf[..off + n] == old(buf[..off]) + PutVarint(x)
  {
    var u := ZigZag(x);
    hide PutUvarint, ZigZag;
    ghost var written: Bytes := [];
    n := 0;
    while u >= 128
      invariant n == |written| && off + n + |PutUvarint(u)| <= buf.Length
      invariant buf[..off + n] == old(buf[..off]) + written
      invariant PutVarint(x) == written + PutUvarint(u)
      decreases u
    {
      PutUvarintUnfolds(u);
      written := written + [u % 128 + 128];
      buf[off + n] := u % 128 + 128;
      n := n + 1;
      u := u / 128;
    }
    PutUvarintUnfolds(u);
    buf[off + n] := u;
    n := n + 1;
  }

  lemma PutUvarintUnfolds(u: nat)
    ensures PutUvarint(u) == if u < 128 then [u] else [u % 128 + 128] + PutUvarint(u / 128)
  {
  }

  /** Several PutVarint calls in a row, each where the one before it ended. */
  method PutVarintsAt(buf: array<byte>, off: nat, xs: seq<int64>) returns (n: nat)
    requires off + |PutVarints(xs)| <= buf.Length
    modifies buf
    ensures n == |PutVarints(xs)|
    ensures buf[..off + n] == old(buf[..off]) + PutVarints(xs)
    decreases |xs|
  {
    hide PutVarint;
    if |xs| == 0 {
      n := 0;
    } else {
      var first := PutVarintAt(buf, off, xs[0]);
      var rest := PutVarintsAt(buf, off + first, xs[1..]);
      n := first + rest;
    }
  }

  /** The header buffer: four bytes left for the checksum, the status, then the five integers. */
  method EncodeHeader(e: Entry) returns (buf: array<byte>, offset: nat)
    requires Sized(e) && HeaderSize(e) <= MAX_HEADER_SIZE
    ensures fresh(buf) && buf.Length == MAX_HEADER_SIZE && offset == HeaderSize(e)
    ensures buf[4..offset] == [e.stat] + Fields(e)
  {
    hide PutVarints;
    buf := new byte[MAX_HEADER_SIZE](_ => 0);
    buf[4] := e.stat;
    ghost var head := buf[..5];
    var n := PutVarintsAt(buf, 5, FieldValues(e));
    offset := 5 + n;
    assert buf[4..offset] == buf[..offset][4..];
    assert (head + Fields(e))[4..] == [e.stat] + Fields(e);
  }

  /** copy(dst[at:], data) */
  method CopyTo(dst: array<byte>, at: nat, data: Bytes)
    requires at + |data| <= dst.Length
    modifies dst
    ensures dst[..at + |data|] == old(dst[..at]) + data
    ensures dst[at + |data|..] == old(dst[at + |data|..])
  {
    var i := 0;
    while i < |data|
      invariant 0 <= i <= |data|
      invariant dst[..at + i] == old(dst[..at]) + data[..i]
      invariant forall j :: at + i <= j < dst.Length ==> dst[j] == old(dst[j])
    {
      dst[at + i] := data[i];
      i := i + 1;
    }
  }

  /** The three copies of EncodeEntry into the new buffer. */
  method Join(header: Bytes, key: Bytes, value: Bytes) returns (out: array<byte>)
    ensures fresh(out) && out[..] == header + key + value
  {
    out := new byte[|header| + |key| + |value|](_ => 0);
    CopyTo(out, 0, header);
    CopyTo(out, |header|, key);
    CopyTo(out, |header| + |key|, value);
  }

  /** EncodeEntry: the header, the key and the value, with the checksum of all of it put in front. */
  method EncodeEntry(e: Entry) returns (out: array<byte>, size: nat)
    requires Sized(e) && HeaderSize(e) <= MAX_HEADER_SIZE
    ensures fresh(out) && out[..] == Encode(e) && size == out.Length == Size(e)
  {
    hide Crc32.Checksum, PutLe32, Fields, Body;
    var buf, offset := EncodeHeader(e);
    size := offset + |e.key| + |e.value|;
    out := Join(buf[..offset], e.key, e.value);
    BodyBehindCrc(out[..], buf[..offset], e);
    assert out[4..] == out[..][4..];
    var crc := Crc32.Checksum(out[4..]);
    CopyTo(out, 0, PutLe32(crc));
    assert out[..] == out[..4] + out[4..];
  }

  lemma BodyBehindCrc(out: Bytes, header: Bytes, e: Entry)
    requires Sized(e) && |header| > 4 && header[4..] == [e.stat] + Fields(e) && out == header + e.key + e.value
    ensures out[4..] == Body(e)
  {
    hide Fields;
    assert out[4..] == header[4..] + (e.key + e.value);
  }
}
