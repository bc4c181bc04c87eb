/**
 Which checksum it is: appended to its data in little-endian order, the CRC-32 of the IEEE polynomial leaves the same
 residue for all data. The residue fixes polynomial, bit order, rounds per byte and both complements.
 */
module Residue {
  import opened Bytes
  import opened Crc32

  // --- a round is linear ---

  lemma {:induction false} XorAssociates(x: nat, y: nat, z: nat)
    ensures Xor(Xor(x, y), z) == Xor(x, Xor(y, z))
    decreases x + y + z
  {
    if x > 0 || y > 0 || z > 0 {
      XorHalves(x, y);
      XorHalves(y, z);
      XorHalves(Xor(x, y), z);
      XorHalves(x, Xor(y, z));
      XorAssociates(x / 2, y / 2, z / 2);
    }
  }

  lemma XorHalves(x: nat, y: nat)
    ensures Xor(x, y) % 2 == Bit(x, y) && Xor(x, y) / 2 == Xor(x / 2, y / 2)
    ensures Xor(x, y) == Bit(x, y) + 2 * Xor(x / 2, y / 2)
  {
  }

  lemma {:induction false} XorSelf(x: nat)
    ensures Xor(x, x) == 0 && Xor(x, 0) == x && Xor(0, x) == x
  {
    if x > 0 {
      XorSelf(x / 2);
    }
  }

  /** Exchanging the two middle operands. */
  lemma XorExchange(a: nat, b: nat, c: nat, d: nat)
    ensures Xor(Xor(a, b), Xor(c, d)) == Xor(Xor(a, c), Xor(b, d))
  {
    hide Xor;
    XorAssociates(a, b, Xor(c, d));
    XorAssociates(b, c, d);
    XorCommutes(b, c);
    XorAssociates(c, b, d);
    XorAssociates(a, c, Xor(b, d));
  }

  lemma RoundLinear(x: nat, y: nat)
    ensures Round(Xor(x, y)) == Xor(Round(x), Round(y))
  {
    XorHalves(x, y);
    hide Xor;
    var p, a, b := POLYNOMIAL, x / 2, y / 2;
    XorSelf(p);
    XorSelf(Xor(a, b));
    XorSelf(b);
    XorExchange(a, p, b, p);
    XorExchange(a, p, b, 0);
    XorExchange(a, 0, b, p);
    XorSelf(a);
  }

  lemma {:induction false} RoundsLinear(x: nat, y: nat, n: nat)
    ensures Rounds(Xor(x, y), n) == Xor(Rounds(x, n), Rounds(y, n))
    decreases n
  {
    hide Xor, Round;
    if n > 0 {
      RoundsLinear(x, y, n - 1);
      RoundLinear(Rounds(x, n - 1), Rounds(y, n - 1));
    }
  }

  lemma {:induction false} RoundsAdd(x: nat, n: nat, m: nat)
    ensures Rounds(x, n + m) == Rounds(Rounds(x, n), m)
    decreases m
  {
    hide Round;
    if m > 0 {
      RoundsAdd(x, n, m - 1);
    }
  }

  /** Zero bits are shifted out. */
  lemma {:induction false} RoundsShift(x: nat, n: nat)
    ensures Rounds(Pow2(n) * x, n) == x
    decreases n
  {
    hide Xor;
    if n > 0 {
      RoundsShift(2 * x, n - 1);
      assert Pow2(n) * x == Pow2(n - 1) * (2 * x);
    }
  }

  // --- a word folded in as a whole ---

  lemma {:induction false} XorDisjoint(b: nat, w: nat, n: nat)
    requires b < Pow2(n)
    ensures Xor(b, Pow2(n) * w) == b + Pow2(n) * w
    decreases n
  {
    hide Xor;
    if n == 0 {
      XorSelf(w);
    } else {
      var y := Pow2(n - 1) * w;
      assert Pow2(n) * w == 2 * y;
      XorDisjoint(b / 2, w, n - 1);
      XorEven(b, y);
    }
  }

  lemma XorEven(b: nat, y: nat)
    requires Xor(b / 2, y) == b / 2 + y
    ensures Xor(b, 2 * y) == b + 2 * y
  {
    hide Xor;
    XorHalves(b, 2 * y);
    assert (2 * y) / 2 == y && (2 * y) % 2 == 0;
  }

  /** A byte takes eight rounds; what is above it moves down. */
  lemma StepWord(state: word, b: byte, w: nat, n: nat)
    ensures Rounds(Xor(state, b + 0x100 * w), 8 + n) == Rounds(Xor(Step(state, b), w), n)
  {
    hide Xor, Rounds;
    assert Pow2(8) == 0x100;
    XorDisjoint(b, w, 8);
    XorAssociates(state, b, 0x100 * w);
    RoundsAdd(Xor(state, b + 0x100 * w), 8, n);
    RoundsLinear(Xor(state, b), 0x100 * w, 8);
    RoundsShift(w, 8);
  }

  lemma FoldWord(state: word, w: int)
    requires 0 <= w < U32
    ensures Fold(state, PutLe32(w)) == Rounds(Xor(state, w), 32)
  {
    hide Xor, Rounds, Step;
    var b := PutLe32(w);
    var s1 := Step(state, b[0]);
    var s2 := Step(s1, b[1]);
    var s3 := Step(s2, b[2]);
    var s4 := Step(s3, b[3]);
    FoldFour(state, b);
    var w1 := w / 0x100;
    var w2 := w1 / 0x100;
    var w3 := w2 / 0x100;
    assert w / 0x1_0000 == w2 && w / 0x100_0000 == w3;
    assert b[0] + 0x100 * w1 == w && b[1] + 0x100 * w2 == w1 && b[2] + 0x100 * w3 == w2 && b[3] == w3;
    assert Rounds(Xor(state, w), 32) == Rounds(Xor(s1, w1), 24) by { StepWord(state, b[0], w1, 24); }
    assert Rounds(Xor(s1, w1), 24) == Rounds(Xor(s2, w2), 16) by { StepWord(s1, b[1], w2, 16); }
    assert Rounds(Xor(s2, w2), 16) == Rounds(Xor(s3, w3), 8) by { StepWord(s2, b[2], w3, 8); }
    assert Rounds(Xor(s3, w3), 8) == Rounds(Xor(s4, 0), 0) by { StepWord(s3, b[3], 0, 0); }
    XorSelf(s4);
    NoRounds(s4);
  }

  lemma NoRounds(x: nat)
    ensures Rounds(x, 0) == x
  {
  }

  lemma FoldFour(state: word, b: Bytes)
    requires |b| == 4
    ensures Fold(state, b) == Step(Step(Step(Step(state, b[0]), b[1]), b[2]), b[3])
  {
    hide Step, Fold;
    var s1 := Step(state, b[0]);
    var s2 := Step(s1, b[1]);
    FoldOne(state, b);
    FoldOne(s1, b[1..]);
    FoldOne(s2, b[1..][1..]);
    FoldOne(Step(s2, b[2]), b[1..][1..][1..]);
    FoldNone(Step(Step(s2, b[2]), b[3]), b[1..][1..][1..][1..]);
  }

  lemma FoldOne(state: word, b: Bytes)
    requires b != []
    ensures Fold(state, b) == Fold(Step(state, b[0]), b[1..])
  {
  }

  lemma FoldNone(state: word, b: Bytes)
    requires b == []
    ensures Fold(state, b) == state
  {
  }

  lemma {:induction false} XorComplement(x: nat, n: nat)
    requires x < Pow2(n)
    ensures Xor(x, Pow2(n) - 1 - x) == Pow2(n) - 1
    decreases n
  {
    if n > 0 {
      XorHalves(x, Pow2(n) - 1 - x);
      XorComplement(x / 2, n - 1);
    }
  }

  // --- rounds on hexadecimal digits ---

  type digit = x: int | 0 <= x < 16

  /** Eight digits, most significant first. */
  function Hex(a: digit, b: digit, c: digit, d: digit, e: digit, f: digit, g: digit, h: digit): nat {
    h + 16 * (g + 16 * (f + 16 * (e + 16 * (d + 16 * (c + 16 * (b + 16 * a))))))
  }

  lemma XorShift(x: nat, y: nat)
    ensures Xor(16 * x, 16 * y) == 16 * Xor(x, y)
  {
    hide Xor;
    XorDouble(x, y);
    XorDouble(2 * x, 2 * y);
    XorDouble(4 * x, 4 * y);
    XorDouble(8 * x, 8 * y);
  }

  lemma XorDouble(x: nat, y: nat)
    ensures Xor(2 * x, 2 * y) == 2 * Xor(x, y)
  {
    hide Xor;
    XorHalves(2 * x, 2 * y);
    assert (2 * x) / 2 == x && (2 * y) / 2 == y;
  }

  lemma XorDigit(m: digit, x: nat, n: digit, y: nat)
    ensures Xor(m + 16 * x, n + 16 * y) == Xor(m, n) + 16 * Xor(x, y)
  {
    hide Xor;
    assert Pow2(4) == 16;
    XorDisjoint(m, x, 4);
    XorDisjoint(n, y, 4);
    XorExchange(m, 16 * x, n, 16 * y);
    XorShift(x, y);
    XorBound(m, n, 4);
    XorDisjoint(Xor(m, n), Xor(x, y), 4);
  }

  /** Exclusive or with the digits of the polynomial. */
  function With2(m: digit): digit {
    if m % 4 < 2 then m + 2 else m - 2
  }

  function With3(m: digit): digit {
    m + 3 - 2 * (m % 4)
  }

  function With8(m: digit): digit {
    if m < 8 then m + 8 else m - 8
  }

  function WithB(m: digit): digit {
    if m % 8 < 4 then 11 - m else 19 - m
  }

  function WithD(m: digit): digit {
    if m % 4 < 2 then 13 - m else 17 - m
  }

  function WithE(m: digit): digit {
    14 - m + 2 * (m % 2)
  }

  lemma DigitIs(m: digit, n: digit)
    ensures Xor(m, n) == Bit(m, n) + 2 * Bit(m / 2, n / 2) + 4 * Bit(m / 4, n / 4) + 8 * Bit(m / 8, n / 8)
  {
    hide Xor, Bit;
    XorHalves(m, n);
    XorHalves(m / 2, n / 2);
    assert m / 2 / 2 == m / 4 && m / 4 / 2 == m / 8 && m / 8 / 2 == 0;
    assert n / 2 / 2 == n / 4 && n / 4 / 2 == n / 8 && n / 8 / 2 == 0;
    XorHalves(m / 4, n / 4);
    XorHalves(m / 8, n / 8);
    XorSelf(0);
  }

  lemma Is2(m: digit)
    ensures Xor(m, 2) == With2(m)
  {
    hide Xor;
    DigitIs(m, 2);
  }

  lemma Is3(m: digit)
    ensures Xor(m, 3) == With3(m)
  {
    hide Xor;
    DigitIs(m, 3);
  }

  lemma Is8(m: digit)
    ensures Xor(m, 8) == With8(m)
  {
    hide Xor;
    DigitIs(m, 8);
  }

  lemma IsB(m: digit)
    ensures Xor(m, 0xB) == WithB(m)
  {
    hide Xor;
    DigitIs(m, 0xB);
  }

  lemma IsD(m: digit)
    ensures Xor(m, 0xD) == WithD(m)
  {
    hide Xor;
    DigitIs(m, 0xD);
  }

  lemma IsE(m: digit)
    ensures Xor(m, 0xE) == WithE(m)
  {
    hide Xor;
    DigitIs(m, 0xE);
  }

  /** The lowest digit of the polynomial is 0, so the lowest one stays. */
  lemma XorPolynomial(a: digit, b: digit, c: digit, d: digit, e: digit, f: digit, g: digit, h: digit)
    ensures Xor(Hex(a, b, c, d, e, f, g, h), POLYNOMIAL)
            == Hex(WithE(a), WithD(b), WithB(c), With8(d), With8(e), With3(f), With2(g), h)
  {
    hide Xor, With2, With3, With8, WithB, WithD, WithE;
    IsE(a);
    IsD(b);
    IsB(c);
    Is8(d);
    Is8(e);
    Is3(f);
    Is2(g);
    XorSelf(h);
    var x1 := b + 16 * a;
    var x2 := c + 16 * x1;
    var x3 := d + 16 * x2;
    var x4 := e + 16 * x3;
    var x5 := f + 16 * x4;
    var x6 := g + 16 * x5;
    XorDigit(b, a, 0xD, 0xE);
    XorDigit(c, x1, 0xB, 0xED);
    XorDigit(d, x2, 8, 0xEDB);
    XorDigit(e, x3, 8, 0xEDB8);
    XorDigit(f, x4, 3, 0xE_DB88);
    XorDigit(g, x5, 2, 0xED_B883);
    XorDigit(h, x6, 0, 0xEDB_8832);
  }

  // --- the residue ---

  lemma OnesFirst()
    ensures Rounds(0xFFFF_FFFF, 8) == 0x2DFD_1072
  {
    hide Xor;
    XorPolynomial(0x7, 0xF, 0xF, 0xF, 0xF, 0xF, 0xF, 0xF);
    XorPolynomial(0x4, 0x9, 0x2, 0x3, 0xB, 0xE, 0x6, 0xF);
    XorPolynomial(0x5, 0x2, 0x4, 0xD, 0x9, 0xE, 0xA, 0x7);
    XorPolynomial(0x5, 0xF, 0xF, 0xA, 0x8, 0xE, 0xC, 0x3);
    XorPolynomial(0x5, 0x9, 0x2, 0x1, 0x0, 0x6, 0xF, 0x1);
    XorPolynomial(0x5, 0xA, 0x4, 0xC, 0xC, 0x2, 0xE, 0x8);
    assert Round(0xFFFF_FFFF) == 0x9247_7CDF;
    assert Round(0x9247_7CDF) == 0xA49B_3D4F;
    assert Round(0xA49B_3D4F) == 0xBFF5_1D87;
    assert Round(0xBFF5_1D87) == 0xB242_0DE3;
    assert Round(0xB242_0DE3) == 0xB499_85D1;
    assert Round(0xB499_85D1) == 0xB7F4_41C8;
    assert Round(0xB7F4_41C8) == 0x5BFA_20E4;
    assert Round(0x5BFA_20E4) == 0x2DFD_1072;
  }

  lemma OnesSecond()
    ensures Rounds(0x2DFD_1072, 8) == 0xBE26_ED00
  {
    hide Xor;
    XorPolynomial(0x0, 0xB, 0x7, 0xF, 0x4, 0x4, 0x1, 0xC);
    XorPolynomial(0x1, 0xC, 0xD, 0x8, 0xF, 0x8, 0xE, 0x7);
    XorPolynomial(0x7, 0x8, 0xB, 0x0, 0x3, 0xD, 0xE, 0x3);
    XorPolynomial(0x4, 0xA, 0x8, 0x4, 0x5, 0xF, 0x6, 0x1);
    XorPolynomial(0x5, 0x3, 0x9, 0xE, 0x6, 0xE, 0x2, 0x0);
    assert Round(0x2DFD_1072) == 0x16FE_8839;
    assert Round(0x16FE_8839) == 0xE6C7_C73C;
    assert Round(0xE6C7_C73C) == 0x7363_E39E;
    assert Round(0x7363_E39E) == 0x39B1_F1CF;
    assert Round(0x39B1_F1CF) == 0xF160_7BC7;
    assert Round(0xF160_7BC7) == 0x9508_BEC3;
    assert Round(0x9508_BEC3) == 0xA73C_DC41;
    assert Round(0xA73C_DC41) == 0xBE26_ED00;
  }

  lemma OnesThird()
    ensures Rounds(0xBE26_ED00, 8) == 0x00BE_26ED
  {
    hide Xor;
    assert Round(0xBE26_ED00) == 0x5F13_7680;
    assert Round(0x5F13_7680) == 0x2F89_BB40;
    assert Round(0x2F89_BB40) == 0x17C4_DDA0;
    assert Round(0x17C4_DDA0) == 0x0BE2_6ED0;
    assert Round(0x0BE2_6ED0) == 0x05F1_3768;
    assert Round(0x05F1_3768) == 0x02F8_9BB4;
    assert Round(0x02F8_9BB4) == 0x017C_4DDA;
    assert Round(0x017C_4DDA) == 0x00BE_26ED;
  }

  lemma OnesLast()
    ensures Rounds(0x00BE_26ED, 8) == 0xDEBB_20E3
  {
    hide Xor;
    XorPolynomial(0x0, 0x0, 0x5, 0xF, 0x1, 0x3, 0x7, 0x6);
    XorPolynomial(0x3, 0xB, 0x7, 0x9, 0xE, 0x4, 0x1, 0x5);
    XorPolynomial(0x6, 0xB, 0x6, 0x0, 0xB, 0x3, 0x9, 0xA);
    XorPolynomial(0x2, 0x1, 0xB, 0x6, 0x0, 0xC, 0x2, 0xE);
    XorPolynomial(0x3, 0x3, 0x0, 0x3, 0xA, 0x3, 0xC, 0x3);
    assert Round(0x00BE_26ED) == 0xEDE7_9056;
    assert Round(0xEDE7_9056) == 0x76F3_C82B;
    assert Round(0x76F3_C82B) == 0xD6C1_6735;
    assert Round(0xD6C1_6735) == 0x86D8_30BA;
    assert Round(0x86D8_30BA) == 0x436C_185D;
    assert Round(0x436C_185D) == 0xCC0E_8F0E;
    assert Round(0xCC0E_8F0E) == 0x6607_4787;
    assert Round(0x6607_4787) == 0xDEBB_20E3;
  }

  lemma OnesRounded()
    ensures Rounds(0xFFFF_FFFF, 32) == 0xDEBB_20E3
  {
    hide Rounds;
    OnesFirst();
    OnesSecond();
    OnesThird();
    OnesLast();
    RoundsAdd(0xFFFF_FFFF, 8, 24);
    RoundsAdd(0x2DFD_1072, 8, 16);
    RoundsAdd(0xBE26_ED00, 8, 8);
  }

  /**
   The residue. Four bytes after any data give it if and only if they are the checksum of the data, least significant byte
   first, as EncodeEntry stores it.
   */
  lemma ResidueIff(data: Bytes, w: Bytes)
    requires |w| == 4
    ensures Checksum(data + w) == 0x2144_DF1C <==> w == PutLe32(Checksum(data))
  {
    hide Xor, Rounds, Fold, PutLe32, Le32;
    var s, x := Fold(Not(0), data), Le32(w);
    FoldAppend(Not(0), data, w);
    PutLe32RoundTrip(w);
    FoldWord(s, x);
    OnesRounded();
    Complement(s);
    if Rounds(Xor(s, x), 32) == 0xDEBB_20E3 {
      Powers();
      XorBound(s, x, 32);
      RoundsInjective(Xor(s, x), 0xFFFF_FFFF, 32);
      XorInjective(s, x, Not(s));
    }
    Le32RoundTrip(Not(s));
  }

  lemma Complement(s: word)
    ensures Xor(s, Not(s)) == 0xFFFF_FFFF
  {
    Powers();
    XorComplement(s, 32);
  }
}
