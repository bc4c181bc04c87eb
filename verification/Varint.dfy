/**
 The zig-zag base-128 integers of Go's encoding/binary (PutVarint and Varint), which carry every
 header field of a log entry and the two lengths of a compound key.
 */
module Varint {
  import opened Bytes

  const MIN64: int := -0x8000_0000_0000_0000
  const MAX64: int := 0x7fff_ffff_ffff_ffff
  const U64: int := 0x1_0000_0000_0000_0000

  type int64 = x: int | MIN64 <= x <= MAX64

  function ZigZag(x: int64): (u: nat)
    ensures u < U64
  {
    if x >= 0 then 2 * x else -2 * x - 1
  }

  function UnZigZag(u: nat): (x: int64)
    requires u < U64
  {
    if u % 2 == 0 then u / 2 else -(u / 2) - 1
  }

  /** binary.PutUvarint */
  function PutUvarint(u: nat): (b: Bytes)
    ensures |b| >= 1
  {
    if u < 128 then [u] else [u % 128 + 128] + PutUvarint(u / 128)
  }

  /** binary.PutVarint */
  function PutVarint(x: int64): (b: Bytes)
    ensures |b| >= 1
  {
    PutUvarint(ZigZag(x))
  }

  /**
   binary.Uvarint, with `i` bytes already consumed. The second component is the count of bytes read,
   0 when the buffer ends too early and negative when the value does not fit 64 bits.
   */
  function UvarintFrom(b: Bytes, i: nat): (r: (nat, int))
    requires i <= 10
    decreases |b|
    ensures r.1 <= i + |b|
    ensures r.1 > 0 ==> r.1 > i
  {
    if b == [] then (0, 0)
    else if i == 10 || (i == 9 && 1 < b[0] < 128) then (0, -(i + 1))
    else if b[0] < 128 then (b[0], i + 1)
    else
      var (v, n) := UvarintFrom(b[1..], i + 1);
      if n <= 0 then (0, n) else (b[0] - 128 + 128 * v, n)
  }

  /** binary.Varint */
  function GetVarint(b: Bytes): (r: (int, int))
    ensures r.1 <= |b|
  {
    var (u, n) := UvarintFrom(b, 0);
    if u < U64 then (UnZigZag(u), n) else (0, n)
  }

  /** 2^(64 - 7i): what the bytes after the i-th may still carry. */
  function Room(i: nat): (m: nat)
    requires i <= 9
  {
    if i == 0 then U64
    else if i == 1 then 0x200_0000_0000_0000
    else if i == 2 then 0x4_0000_0000_0000
    else if i == 3 then 0x800_0000_0000
    else if i == 4 then 0x10_0000_0000
    else if i == 5 then 0x2000_0000
    else if i == 6 then 0x40_0000
    else if i == 7 then 0x8000
    else if i == 8 then 0x100
    else 2
  }

  lemma {:induction false} UvarintRoundTrip(u: nat, i: nat, rest: Bytes)
    requires i <= 9 && u < Room(i)
    ensures UvarintFrom(PutUvarint(u) + rest, i) == (u, i + |PutUvarint(u)|)
    decreases u
  {
    var b := PutUvarint(u) + rest;
    if u >= 128 {
      assert i < 9;
      assert b[1..] == PutUvarint(u / 128) + rest;
      UvarintRoundTrip(u / 128, i + 1, rest);
    }
  }

  /** Whatever follows a written integer, reading gives it back and consumes exactly its bytes. */
  lemma VarintRoundTrip(x: int64, rest: Bytes)
    ensures GetVarint(PutVarint(x) + rest) == (x, |PutVarint(x)|)
  {
    UvarintRoundTrip(ZigZag(x), 0, rest);
  }

  /** Written integers are never a proper prefix of one another, so they are injective in context. */
  lemma VarintInjective(x: int64, y: int64, restX: Bytes, restY: Bytes)
    requires PutVarint(x) + restX == PutVarint(y) + restY
    ensures x == y && restX == restY
  {
    VarintRoundTrip(x, restX);
    VarintRoundTrip(y, restY);
    assert restX == (PutVarint(x) + restX)[|PutVarint(x)|..];
    assert restY == (PutVarint(y) + restY)[|PutVarint(y)|..];
  }

  // --- the bytes ---

  /** The value of groups of seven bits, the lowest group first. */
  function Groups(b: Bytes): nat {
    if b == [] then 0 else b[0] % 128 + 128 * Groups(b[1..])
  }

  /** Every byte but the last has its high bit set. */
  predicate Continued(b: Bytes) {
    b != [] && b[|b| - 1] < 128 && forall i :: 0 <= i < |b| - 1 ==> b[i] >= 128
  }

  lemma OneGroup(x: byte, b: Bytes)
    ensures Groups([x] + b) == x % 128 + 128 * Groups(b)
    ensures x >= 128 && Continued(b) ==> Continued([x] + b)
  {
    assert ([x] + b)[1..] == b;
  }

  lemma {:induction false} UvarintFormat(u: nat)
    ensures Continued(PutUvarint(u)) && Groups(PutUvarint(u)) == u
    decreases u
  {
    if u >= 128 {
      hide Continued, Groups;
      UvarintFormat(u / 128);
      OneGroup(u % 128 + 128, PutUvarint(u / 128));
    } else {
      assert [u][1..] == [];
    }
  }

  /** Seven bits a byte, lowest first, of twice the number, or of the odd number below twice its absolute value if negative. */
  lemma VarintFormat(x: int64)
    ensures Continued(PutVarint(x)) && Groups(PutVarint(x)) == if x >= 0 then 2 * x else -2 * x - 1
    ensures 0 <= x < 64 ==> PutVarint(x) == [2 * x]
  {
    UvarintFormat(ZigZag(x));
  }

  // --- several integers in a row ---

  /** The integers `xs` written one after the other. */
  function PutVarints(xs: seq<int64>): Bytes
    decreases |xs|
  {
    if |xs| == 0 then [] else PutVarint(xs[0]) + PutVarints(xs[1..])
  }

  /** Reads `n` integers from `off` on, with the offset after them; None where slicing at an offset panics. */
  function GetVarints(buf: Bytes, off: int, n: nat): (r: Option<(seq<int64>, int)>)
    decreases n
    ensures r.Some? ==> |r.value.0| == n
  {
    if n == 0 then Some(([], off))
    else if 0 <= off <= |buf| then
      var (x, used) := GetVarint(buf[off..]);
      var rest := GetVarints(buf, off + used, n - 1);
      if rest.None? then None else Some(([x] + rest.value.0, rest.value.1))
    else None
  }

  lemma PutVarintsCons(x: int64, xs: seq<int64>)
    ensures PutVarints([x] + xs) == PutVarint(x) + PutVarints(xs)
  {
    assert ([x] + xs)[1..] == xs;
  }

  lemma VarintAt(buf: Bytes, off: nat, x: int64, rest: Bytes)
    requires off <= |buf| && buf[off..] == PutVarint(x) + rest
    ensures GetVarint(buf[off..]) == (x, |PutVarint(x)|)
    ensures off + |PutVarint(x)| <= |buf| && buf[off + |PutVarint(x)|..] == rest
  {
    VarintRoundTrip(x, rest);
    assert buf[off + |PutVarint(x)|..] == buf[off..][|PutVarint(x)|..];
  }

  lemma {:induction false} VarintsRoundTrip(buf: Bytes, off: nat, xs: seq<int64>, rest: Bytes)
    requires off <= |buf| && buf[off..] == PutVarints(xs) + rest
    ensures GetVarints(buf, off, |xs|) == Some((xs, off + |PutVarints(xs)|))
    decreases |xs|
  {
    hide PutVarint, GetVarint;
    if |xs| > 0 {
      var more := PutVarints(xs[1..]) + rest;
      assert PutVarints(xs) + rest == PutVarint(xs[0]) + more;
      VarintAt(buf, off, xs[0], more);
      VarintsRoundTrip(buf, off + |PutVarint(xs[0])|, xs[1..], rest);
      assert xs == [xs[0]] + xs[1..];
    }
  }

  /** 128^n */
  function Pow128(n: nat): (p: nat)
    ensures p >= 1
  {
    if n == 0 then 1 else 128 * Pow128(n - 1)
  }

  /** The exact length: `n` bytes suffice if and only if the value is below 128^n. */
  lemma {:induction false} UvarintLength(u: nat, n: nat)
    requires n >= 1
    ensures |PutUvarint(u)| <= n <==> u < Pow128(n)
    decreases n
  {
    if n == 1 {
      assert Pow128(1) == 128;
    } else if u >= 128 {
      UvarintLength(u / 128, n - 1);
      assert u < 128 * Pow128(n - 1) <==> u / 128 < Pow128(n - 1);
    } else {
      assert Pow128(n) >= 128;
    }
  }
}
