/** Counters: int64 values kept as decimal text (incrDecrBy in str.go). */
module Decimal {
  import opened Bytes
  import opened Varint

  const MINUS: byte := 45
  const PLUS: byte := 43
  const ZERO: byte := 48

  function Neg(x: int): int {
    -x
  }

  predicate IsDigit(b: byte) {
    ZERO <= b < ZERO + 10
  }

  /** The digits of a number, most significant first. */
  function Digits(n: nat): (r: Bytes)
    ensures |r| >= 1 && forall i :: 0 <= i < |r| ==> IsDigit(r[i])
  {
    if n < 10 then [ZERO + n] else Digits(n / 10) + [ZERO + n % 10]
  }

  /** strconv.FormatInt(x, 10) */
  function FormatInt(x: int): Bytes {
    if x < 0 then [MINUS] + Digits(Neg(x)) else Digits(x)
  }

  /** The value of a string of digits; None if there is any other character. */
  function DigitsValue(s: Bytes): Option<nat>
    decreases |s|
  {
    if |s| == 0 then Some(0)
    else
      var last := |s| - 1;
      var high := DigitsValue(s[..last]);
      if high.None? || !IsDigit(s[last]) then None else Some(10 * high.value + (s[last] - ZERO))
  }

  /** strconv.ParseInt(s, 10, 64): an optional sign and at least one digit, within int64. */
  function ParseInt(s: Bytes): (r: Option<int>)
    ensures r.Some? ==> MIN64 <= r.value <= MAX64
  {
    if |s| == 0 then None
    else
      var signed := s[0] == MINUS || s[0] == PLUS;
      var digits := if signed then s[1..] else s;
      var n := DigitsValue(digits);
      if |digits| == 0 || n.None? then None
      else
        var x := if s[0] == MINUS then Neg(n.value) else n.value;
        if MIN64 <= x <= MAX64 then Some(x) else None
  }

  /** Two's complement addition and negation on int64. */
  function Wrap64(x: int): (r: int64) {
    (x - MIN64) % U64 + MIN64
  }

  datatype Increment = NotInteger | Overflow | Counted(number: int64, text: Bytes)

  /** The overflow test of incrDecrBy, with its subtractions on int64. */
  predicate Rejected(v: int64, incr: int64) {
    || (incr > 0 && v > 0 && incr > Wrap64(MAX64 - v))
    || (incr < 0 && v < 0 && incr < Wrap64(MIN64 - v))
  }

  /** incrDecrBy on the text stored under the key; an absent or an empty value counts as "0". */
  function Incremented(text: Bytes, incr: int64): Increment {
    var parsed := ParseInt(if text == [] then [ZERO] else text);
    if parsed.None? then NotInteger
    else if Rejected(parsed.value, incr) then Overflow
    else
      var sum := Wrap64(parsed.value + incr);
      Counted(sum, FormatInt(sum))
  }

  lemma {:induction false} DigitsRoundTrip(n: nat)
    ensures DigitsValue(Digits(n)) == Some(n)
  {
    if n < 10 {
      assert DigitsValue(Digits(n)[..0]) == Some(0);
    } else {
      DigitsRoundTrip(n / 10);
      assert Digits(n)[..|Digits(n)| - 1] == Digits(n / 10);
    }
  }

  /** Every int64 survives the trip through its decimal text. */
  lemma TextRoundTrip(x: int64)
    ensures ParseInt(FormatInt(x)) == Some(x)
  {
    if x < 0 {
      DigitsRoundTrip(Neg(x));
      assert FormatInt(x)[1..] == Digits(Neg(x));
    } else {
      DigitsRoundTrip(x);
    }
  }

  /** The guard rejects exactly the steps that would leave int64, so an accepted sum never wraps. */
  lemma GuardExact(v: int64, incr: int64)
    ensures Rejected(v, incr) <==> !(MIN64 <= v + incr <= MAX64)
    ensures !Rejected(v, incr) ==> Wrap64(v + incr) == v + incr
  {
  }

  /** The value a counter text stands for. */
  predicate Holds(text: Bytes, v: int64) {
    text == FormatInt(v) || (v == 0 && text == [])
  }

  /** One step: either the sum is representable and is stored, or nothing is. */
  lemma IncrementExact(text: Bytes, v: int64, incr: int64)
    requires Holds(text, v)
    ensures Incremented(text, incr) == if MIN64 <= v + incr <= MAX64 then Counted(v + incr, FormatInt(v + incr)) else Overflow
  {
    TextRoundTrip(v);
    GuardExact(v, incr);
    assert FormatInt(0) == [ZERO];
  }

  // --- the text is decimal ASCII ---

  /** The text of a number ends in its last digit, the text of its tens before it; a minus sign is byte 45. */
  lemma DecimalText(q: nat, d: nat)
    requires d < 10
    ensures FormatInt(10 * q + d) == (if q == 0 then [] else FormatInt(q)) + [48 + d]
    ensures q > 0 || d > 0 ==> FormatInt(-(10 * q + d)) == [45] + FormatInt(10 * q + d)
  {
    var n := 10 * q + d;
    assert n / 10 == q && n % 10 == d;
    assert Digits(n) == if n < 10 then [ZERO + n] else Digits(n / 10) + [ZERO + n % 10];
  }

  /** The text without its sign. */
  function Unsigned(s: Bytes): Bytes {
    if s != [] && (s[0] == 43 || s[0] == 45) then s[1..] else s
  }

  predicate AllDecimal(s: Bytes) {
    forall i :: 0 <= i < |s| ==> 48 <= s[i] <= 57
  }

  function DecimalValue(s: Bytes): int {
    if s == [] then 0
    else
      var last: int := s[|s| - 1];
      10 * DecimalValue(s[..|s| - 1]) + last - 48
  }

  function SignedValue(s: Bytes): int {
    if s != [] && s[0] == 45 then -DecimalValue(Unsigned(s)) else DecimalValue(Unsigned(s))
  }

  lemma {:induction false} DigitsMean(s: Bytes)
    ensures DigitsValue(s).Some? <==> AllDecimal(s)
    ensures DigitsValue(s).Some? ==> DigitsValue(s).value == DecimalValue(s)
    decreases |s|
  {
    if s != [] {
      var most := s[..|s| - 1];
      DigitsMean(most);
      assert AllDecimal(s) <==> AllDecimal(most) && 48 <= s[|s| - 1] <= 57 by {
        assert forall i :: 0 <= i < |most| ==> most[i] == s[i];
      }
    }
  }

  /** A text is accepted if and only if it is an optional sign and at least one digit, with a value in int64. */
  lemma ParseIff(s: Bytes)
    ensures ParseInt(s).Some? <==> Unsigned(s) != [] && AllDecimal(Unsigned(s))
                                   && -0x8000_0000_0000_0000 <= SignedValue(s) <= 0x7fff_ffff_ffff_ffff
    ensures ParseInt(s).Some? ==> ParseInt(s).value == SignedValue(s)
  {
    hide DigitsValue, DecimalValue, AllDecimal;
    DigitsMean(Unsigned(s));
  }

  /** incrDecrBy on any text, decimal or not, whatever sign and leading zeros it has. */
  lemma IncrementedIff(text: Bytes, incr: int64)
    ensures var i, v := Incremented(text, incr), if text == [] then 0 else SignedValue(text);
            && (i.NotInteger? <==> text != [] && ParseInt(text).None?)
            && (!i.NotInteger? ==> (i.Overflow? <==> !(-0x8000_0000_0000_0000 <= v + incr <= 0x7fff_ffff_ffff_ffff)))
            && (i.Counted? ==> i.number == v + incr && i.text == FormatInt(v + incr))
  {
    hide ParseInt, FormatInt, SignedValue;
    if text == [] {
      assert SignedValue([ZERO]) == 0 by { ZeroText(); }
      ParseIff([ZERO]);
      ZeroText();
    } else {
      ParseIff(text);
    }
    var parsed := ParseInt(if text == [] then [ZERO] else text);
    if parsed.Some? {
      GuardExact(parsed.value, incr);
    }
  }

  lemma ZeroText()
    ensures SignedValue([48]) == 0 && ParseInt([48]) == Some(0)
  {
    assert [48][..0] == [];
    assert DecimalValue([48]) == 0;
    ParseIff([48]);
  }

  /** DecrBy passes -decr, computed on int64. */
  function DecrByArgument(decr: int64): int64 {
    Wrap64(Neg(decr))
  }

  /** DecrBy subtracts its argument for every int64 but the smallest, which it adds. */
  lemma DecrByExact(decr: int64)
    ensures DecrByArgument(decr) == Neg(decr) <==> decr != MIN64
    ensures DecrByArgument(MIN64) == MIN64
  {
  }
}
