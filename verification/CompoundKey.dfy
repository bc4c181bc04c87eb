/** The keys of hash fields: two lengths, the hash's key and the field (encodeKey and decodeKey in db.go). */
module CompoundKey {
  import opened Bytes
  import opened Varint
  import opened LogEntryIO

  const HEADER_SIZE: nat := 10

  /** Lengths below 2^32. */
  predicate Short(key: Bytes) {
    |key| < U32
  }

  function Lengths(key: Bytes, sub: Bytes): seq<int64>
    requires Short(key) && Short(sub)
  {
    [|key|, |sub|]
  }

  /** The result of encodeKey. */
  function Encoded(key: Bytes, sub: Bytes): Bytes
    requires Short(key) && Short(sub)
  {
    PutVarints(Lengths(key, sub)) + (key + sub)
  }

  /** decodeKey; None where slicing panics. */
  function Decoded(encoded: Bytes): Option<(Bytes, Bytes)> {
    var header := GetVarints(encoded, 0, 2);
    if header.None? then None
    else
      var (xs, off) := header.value;
      if 0 <= off <= |encoded| && 0 <= xs[0] && off + xs[0] <= |encoded| then
        Some((encoded[off..off + xs[0]], encoded[off + xs[0]..]))
      else None
  }

  /** decodeKey undoes encodeKey, for all keys and fields. */
  lemma DecodeEncoded(key: Bytes, sub: Bytes)
    requires Short(key) && Short(sub)
    ensures Decoded(Encoded(key, sub)) == Some((key, sub))
  {
    var e, off := Encoded(key, sub), |PutVarints(Lengths(key, sub))|;
    assert e[0..] == e;
    LengthsRead(e, key, sub, 2);
    assert e[off..] == key + sub;
    assert e[off..off + |key|] == e[off..][..|key|] == key;
    assert e[off + |key|..] == e[off..][|key|..] == sub;
  }

  lemma LengthsRead(e: Bytes, key: Bytes, sub: Bytes, n: nat)
    requires Short(key) && Short(sub) && n == 2 && e == Encoded(key, sub)
    ensures GetVarints(e, 0, n) == Some((Lengths(key, sub), |PutVarints(Lengths(key, sub))|))
  {
    assert e[0..] == e;
    VarintsRoundTrip(e, 0, Lengths(key, sub), key + sub);
  }

  /** So no two pairs share an encoded key. */
  lemma EncodedInjective(key: Bytes, sub: Bytes, key': Bytes, sub': Bytes)
    requires Short(key) && Short(sub) && Short(key') && Short(sub') && Encoded(key, sub) == Encoded(key', sub')
    ensures key == key' && sub == sub'
  {
    DecodeEncoded(key, sub);
    DecodeEncoded(key', sub');
  }

  /** The 10-byte header buffer always suffices. */
  lemma HeaderFits(key: Bytes, sub: Bytes)
    requires Short(key) && Short(sub)
    ensures |PutVarints(Lengths(key, sub))| <= HEADER_SIZE
  {
    var a, b: int64 := |key|, |sub|;
    PutVarintsCons(b, []);
    PutVarintsCons(a, [b]);
    assert Lengths(key, sub) == [a] + [b] && [b] == [b] + [];
    assert Pow128(2) == 0x4000;
    assert Pow128(4) == 0x1000_0000;
    assert Pow128(5) == 0x8_0000_0000;
    UvarintLength(ZigZag(a), 5);
    UvarintLength(ZigZag(b), 5);
  }

  /** encodeKey as it runs: the two lengths into the header buffer, then header, key and field into the result. */
  method EncodeKey(key: Bytes, sub: Bytes) returns (buf: array<byte>)
    requires Short(key) && Short(sub)
    ensures fresh(buf) && buf[..] == Encoded(key, sub)
  {
    hide PutVarints;
    HeaderFits(key, sub);
    var header := new byte[HEADER_SIZE](_ => 0);
    var index := PutVarintsAt(header, 0, Lengths(key, sub));
    var length := |key| + |sub|;
    buf := new byte[length + index](_ => 0);
    CopyTo(buf, 0, header[..index]);
    if length > 0 {
      CopyTo(buf, index, key);
      CopyTo(buf, index + |key|, sub);
    }
    assert buf[..] == header[..index] + key + sub;
    assert header[..index] == PutVarints(Lengths(key, sub));
  }
}
