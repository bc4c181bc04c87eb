/**
 The CRC-32 of hash/crc32 with the IEEE polynomial (section 8 of RFC 1952), as a fold over bytes.
 Words are integers below 2^32.
 */
module Crc32 {
  import opened Bytes

  type word = x: int | 0 <= x < U32

  const POLYNOMIAL: word := 0xEDB8_8320

  function Bit(x: nat, y: nat): nat {
    if x % 2 == y % 2 then 0 else 1
  }

  /** Bitwise exclusive or. */
  function Xor(x: nat, y: nat): (r: nat) {
    if x == 0 && y == 0 then 0 else Bit(x, y) + 2 * Xor(x / 2, y / 2)
  }

  function Not(x: word): word {
    U32 - 1 - x
  }

  /** One bit of the division. */
  function Round(x: nat): nat {
    if x % 2 == 1 then Xor(x / 2, POLYNOMIAL) else x / 2
  }

  function Rounds(x: nat, n: nat): nat
    decreases n
  {
    if n == 0 then x else Round(Rounds(x, n - 1))
  }

  /**
   The bits of a byte, each of which takes one round. Only their number matters; it is not written as a plain 8, because
   the verifier would then unroll all eight rounds wherever a checksum occurs.
   */
  const BYTE_BITS: seq<nat> := [0, 1, 2, 3, 4, 5, 6, 7]

  /** Folds one byte into the state. */
  function Step(state: word, b: byte): word {
    StepInRange(state, b);
    Rounds(Xor(state, b), |BYTE_BITS|)
  }

  function Fold(state: word, data: Bytes): word
    decreases |data|
  {
    if |data| == 0 then state else Fold(Step(state, data[0]), data[1..])
  }

  /** crc32.Update */
  function Update(crc: word, data: Bytes): word {
    Not(Fold(Not(crc), data))
  }

  /** crc32.ChecksumIEEE */
  function Checksum(data: Bytes): word {
    Update(0, data)
  }

  function Pow2(k: nat): nat {
    if k == 0 then 1 else 2 * Pow2(k - 1)
  }

  lemma {:induction false} XorBound(x: nat, y: nat, k: nat)
    requires x < Pow2(k) && y < Pow2(k)
    ensures Xor(x, y) < Pow2(k)
    decreases k
  {
    if x > 0 || y > 0 {
      XorBound(x / 2, y / 2, k - 1);
    }
  }

  /** The highest bit of one operand survives if the other operand does not have it. */
  lemma {:induction false} XorTop(x: nat, y: nat, k: nat)
    requires x < Pow2(k) <= y < Pow2(k + 1)
    ensures Pow2(k) <= Xor(x, y) < Pow2(k + 1)
    decreases k
  {
    if k > 0 {
      assert y / 2 < Pow2(k);
      XorTop(x / 2, y / 2, k - 1);
    } else {
      assert y == 1 && Xor(0, 0) == 0;
    }
  }

  lemma {:induction false} XorInjective(m: nat, x: nat, y: nat)
    requires Xor(m, x) == Xor(m, y)
    ensures x == y
    decreases m + x + y
  {
    if m > 0 || x > 0 || y > 0 {
      assert Xor(m, x) == Bit(m, x) + 2 * Xor(m / 2, x / 2);
      assert Xor(m, y) == Bit(m, y) + 2 * Xor(m / 2, y / 2);
      XorInjective(m / 2, x / 2, y / 2);
    }
  }

  lemma {:induction false} XorCommutes(x: nat, y: nat)
    ensures Xor(x, y) == Xor(y, x)
    decreases x + y
  {
    if x > 0 || y > 0 {
      XorCommutes(x / 2, y / 2);
    }
  }

  lemma Powers()
    ensures Pow2(31) == 0x8000_0000 && Pow2(32) == U32
  {
    assert Pow2(8) == 0x100;
    assert Pow2(16) == 0x1_0000;
    assert Pow2(24) == 0x100_0000;
  }

  lemma RoundInRange(x: word)
    ensures Round(x) < U32
    ensures x % 2 == 1 <==> Round(x) >= 0x8000_0000
  {
    Powers();
    if x % 2 == 1 {
      XorTop(x / 2, POLYNOMIAL, 31);
    }
  }

  lemma {:induction false} RoundsInRange(x: word, n: nat)
    ensures Rounds(x, n) < U32
  {
    if n > 0 {
      RoundsInRange(x, n - 1);
      RoundInRange(Rounds(x, n - 1));
    }
  }

  lemma StepInRange(state: word, b: byte)
    ensures Rounds(Xor(state, b), |BYTE_BITS|) < U32
  {
    Powers();
    XorBound(state, b, 32);
    RoundsInRange(Xor(state, b), |BYTE_BITS|);
  }

  lemma {:induction false} FoldAppend(state: word, a: Bytes, b: Bytes)
    ensures Fold(state, a + b) == Fold(Fold(state, a), b)
    decreases |a|
  {
    if |a| == 0 {
      assert a + b == b;
    } else {
      assert (a + b)[1..] == a[1..] + b;
      FoldAppend(Step(state, a[0]), a[1..], b);
    }
  }

  /** The incremental form continues the one-shot form. */
  lemma UpdateAppend(crc: word, a: Bytes, b: Bytes)
    ensures Update(crc, a + b) == Update(Update(crc, a), b)
  {
    FoldAppend(Not(crc), a, b);
  }

  // --- the checksum sees every change of a single byte ---

  /** The polynomial's top bit tells which branch a round took, so no round loses information. */
  lemma RoundInjective(x: word, y: word)
    requires Round(x) == Round(y)
    ensures x == y
  {
    RoundInRange(x);
    RoundInRange(y);
    if x % 2 == 1 {
      XorCommutes(x / 2, POLYNOMIAL);
      XorCommutes(y / 2, POLYNOMIAL);
      XorInjective(POLYNOMIAL, x / 2, y / 2);
    }
  }

  lemma {:induction false} RoundsInjective(x: word, y: word, n: nat)
    requires Rounds(x, n) == Rounds(y, n)
    ensures x == y
  {
    if n > 0 {
      RoundsInRange(x, n - 1);
      RoundsInRange(y, n - 1);
      RoundInjective(Rounds(x, n - 1), Rounds(y, n - 1));
      RoundsInjective(x, y, n - 1);
    }
  }

  lemma StepInjective(s: word, t: word, a: byte, b: byte)
    requires Step(s, a) == Step(t, b)
    ensures a == b ==> s == t
    ensures s == t ==> a == b
  {
    Powers();
    XorBound(s, a, 32);
    XorBound(t, b, 32);
    RoundsInjective(Xor(s, a), Xor(t, b), |BYTE_BITS|);
    if s == t {
      XorInjective(s, a, b);
    } else if a == b {
      XorCommutes(s, a);
      XorCommutes(t, a);
      XorInjective(a, s, t);
    }
  }

  lemma {:induction false} FoldInjective(s: word, t: word, data: Bytes)
    requires Fold(s, data) == Fold(t, data)
    ensures s == t
    decreases |data|
  {
    if |data| > 0 {
      FoldInjective(Step(s, data[0]), Step(t, data[0]), data[1..]);
      StepInjective(s, t, data[0], data[0]);
    }
  }

  /** Changing exactly one byte always changes the checksum. */
  lemma SingleByteDetected(data: Bytes, i: nat, b: byte)
    requires i < |data| && b != data[i]
    ensures Checksum(data[i := b]) != Checksum(data)
  {
    var s, tail := Fold(Not(0), data[..i]), data[i + 1..];
    assert data == data[..i] + ([data[i]] + tail);
    assert data[i := b] == data[..i] + ([b] + tail);
    FoldAppend(Not(0), data[..i], [data[i]] + tail);
    FoldAppend(Not(0), data[..i], [b] + tail);
    assert ([data[i]] + tail)[1..] == tail && ([b] + tail)[1..] == tail;
    if Checksum(data[i := b]) == Checksum(data) {
      FoldInjective(Step(s, data[i]), Step(s, b), tail);
      StepInjective(s, s, data[i], b);
    }
  }
}
