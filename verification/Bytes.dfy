/** Bytes, byte strings and the little-endian 32-bit words that LazyDB stores on disk. */
module Bytes {

  type byte = x: int | 0 <= x < 256

  type Bytes = seq<byte>

  const U32: int := 0x1_0000_0000

  datatype Option<+T> = None | Some(value: T)

  function Max(a: int, b: int): int {
    if a < b then b else a
  }

  /** `n` zero bytes: what a file holds where nothing was written. */
  function Zeros(n: nat): (z: Bytes)
    ensures |z| == n
    ensures forall i :: 0 <= i < n ==> z[i] == 0
  {
    seq(n, _ => 0)
  }

  /** binary.LittleEndian.PutUint32 */
  function PutLe32(x: int): (b: Bytes)
    requires 0 <= x < U32
    ensures |b| == 4
  {
    [x % 0x100, x / 0x100 % 0x100, x / 0x1_0000 % 0x100, x / 0x100_0000]
  }

  /** binary.LittleEndian.Uint32 */
  function Le32(b: Bytes): (x: int)
    requires |b| >= 4
    ensures 0 <= x < U32
  {
    var b0: int, b1: int, b2: int, b3: int := b[0], b[1], b[2], b[3];
    b0 + 0x100 * b1 + 0x1_0000 * b2 + 0x100_0000 * b3
  }

  lemma Le32RoundTrip(x: int)
    requires 0 <= x < U32
    ensures Le32(PutLe32(x)) == x
  {
    var y := x / 0x100;
    var z := y / 0x100;
    assert x / 0x1_0000 == z && x / 0x100_0000 == z / 0x100;
  }

  /** A stored word determines its four bytes. */
  lemma PutLe32RoundTrip(b: Bytes)
    requires |b| == 4
    ensures PutLe32(Le32(b)) == b
  {
    var x := Le32(b);
    var b1: int, b2: int, b3: int := b[1], b[2], b[3];
    assert x % 0x100 == b[0] && x / 0x100 == b1 + 0x100 * b2 + 0x1_0000 * b3;
    assert x / 0x1_0000 == b2 + 0x100 * b3 && x / 0x100_0000 == b3;
  }

  /** The bytes of a file after os.File.WriteAt(data, at): a write past the end extends it. */
  function WriteAt(file: Bytes, data: Bytes, at: nat): (r: Bytes)
    requires at <= |file|
    ensures |r| == Max(|file|, at + |data|)
    ensures r[at..at + |data|] == data
    ensures r[..at] == file[..at]
    ensures forall i :: at + |data| <= i < |file| ==> r[i] == file[i]
  {
    file[..at] + data + (if at + |data| < |file| then file[at + |data|..] else [])
  }

  /** Adding multiples of 2^32 does not change a uint32. */
  lemma {:induction false} ModShift(x: int, q: int)
    ensures (x + q * U32) % U32 == x % U32
    decreases if q < 0 then -q else q
  {
    if q > 0 {
      ModShift(x, q - 1);
      assert x + q * U32 == x + (q - 1) * U32 + U32;
    } else if q < 0 {
      ModShift(x, q + 1);
      assert x + q * U32 == x + (q + 1) * U32 - U32;
    }
  }
}
