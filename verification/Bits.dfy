/** Shifts and masks on 32-bit words, as arithmetic on their values. */
module Bits {
  function Value(c: bv32): nat {
    c as nat
  }

  function Half(c: bv32): bv32 {
    c >> 1
  }

  predicate Odd(c: bv32) {
    c & 1 == 1
  }

  function Double(c: bv32): bv32 {
    c << 1
  }

  function DoubleAndOne(c: bv32): bv32 {
    (c << 1) | 1
  }

  lemma DoubleValue(c: bv32)
    requires c < 0x8000_0000
    ensures Value(Double(c)) == 2 * Value(c)
  {
  }

  lemma DoubleAndOneValue(c: bv32)
    requires c < 0x8000_0000
    ensures Value(DoubleAndOne(c)) == 2 * Value(c) + 1
  {
  }

  lemma HalfDouble(c: bv32)
    ensures Half(c) < 0x8000_0000 && c == if Odd(c) then DoubleAndOne(Half(c)) else Double(Half(c))
  {
  }

  lemma HalfValue(c: bv32)
    ensures Value(c) == 2 * Value(Half(c)) + if Odd(c) then 1 else 0
  {
    HalfDouble(c);
    hide *;
    DoubleValue(Half(c));
    DoubleAndOneValue(Half(c));
  }

  function Four(c: bv32): bv32 { Half(Half(Half(Half(c)))) }

  function Bit(c: bv32): nat {
    if Odd(c) then 1 else 0
  }

  /** The values of the four and of the six lowest bits. */
  function LowFour(c: bv32): nat {
    Bit(c) + 2 * Bit(Half(c)) + 4 * Bit(Half(Half(c))) + 8 * Bit(Half(Half(Half(c))))
  }

  function LowSix(c: bv32): nat {
    LowFour(c) + 16 * Bit(Four(c)) + 32 * Bit(Half(Four(c)))
  }

  lemma FourBits(c: bv32)
    ensures Value(c) == 16 * Value(Four(c)) + LowFour(c) && LowFour(c) < 16
  {
    hide Value;
    hide Half;
    hide Odd;
    HalfValue(c);
    HalfValue(Half(c));
    HalfValue(Half(Half(c)));
    HalfValue(Half(Half(Half(c))));
  }

  lemma SixBits(c: bv32)
    ensures Value(c) == 64 * Value(Half(Half(Four(c)))) + LowSix(c) && LowSix(c) < 64
  {
    hide Value;
    hide Half;
    hide Odd;
    hide Four;
    FourBits(c);
    hide LowFour;
    HalfValue(Four(c));
    HalfValue(Half(Four(c)));
  }

  lemma ShiftIs(c: bv32)
    ensures Four(c) == c >> 4 && Half(Half(Four(c))) == c >> 6
  {
  }

  lemma ShiftSix(c: bv32)
    ensures Value(c >> 6) == Value(c) / 64
  {
    ShiftIs(c);
    hide *;
    SixBits(c);
  }

  /** A continuation byte as the code masks it. */
  function Masked(c: bv32): bv32 {
    ((c | 0x80) & 0xbf) & 0xff
  }

  lemma MaskedBits(c: bv32)
    ensures LowSix(Masked(c)) == LowSix(c) && Half(Half(Four(Masked(c)))) == 2
  {
    var x := Masked(c);
    assert Odd(x) == Odd(c) && Odd(Half(x)) == Odd(Half(c)) && Odd(Half(Half(x))) == Odd(Half(Half(c)));
    assert Odd(Half(Half(Half(x)))) == Odd(Half(Half(Half(c)))) && Odd(Four(x)) == Odd(Four(c));
    assert Odd(Half(Four(x))) == Odd(Half(Four(c)));
  }

  lemma Constants()
    ensures Value(0) == 0 && Value(2) == 2
  {
  }

  lemma MaskedValue(c: bv32)
    ensures Value(Masked(c)) == 0x80 + Value(c) % 64
  {
    hide *;
    MaskedBits(c);
    Constants();
    SixBits(Masked(c));
    SixBits(c);
  }

  lemma Continuation(c: bv32)
    ensures Value(((c | 0x80) & 0xbf) & 0xff) == 0x80 + Value(c) % 64
  {
    hide Value;
    MaskedValue(c);
  }

  lemma Lead(c: bv32)
    ensures c < 0x20 ==> Value((c | 0xc0) & 0xff) == 0xc0 + Value(c)
    ensures c < 0x10 ==> Value((c | 0xe0) & 0xff) == 0xe0 + Value(c)
    ensures c < 0x08 ==> Value((c | 0xf0) & 0xff) == 0xf0 + Value(c)
    ensures c < 0x80 ==> Value(c & 0x7f) == Value(c)
  {
  }

  lemma SurrogatePair(first: bv32, second: bv32)
    requires 0xd800 <= first <= 0xdbff && 0xdc00 <= second <= 0xdfff
    ensures Value(0x1_0000 + (((first & 0x3ff) << 10) | (second & 0x3ff)))
         == 0x1_0000 + (Value(first) - 0xd800) * 0x400 + (Value(second) - 0xdc00)
  {
  }

  lemma Compared(c: bv32)
    ensures c < 0x08 <==> Value(c) < 0x08
    ensures c < 0x10 <==> Value(c) < 0x10
    ensures c < 0x20 <==> Value(c) < 0x20
    ensures c < 0x80 <==> Value(c) < 0x80
    ensures c < 0x800 <==> Value(c) < 0x800
    ensures c < 0x1_0000 <==> Value(c) < 0x1_0000
    ensures c <= 0x10_ffff <==> Value(c) <= 0x10_ffff
    ensures c < 0xd800 <==> Value(c) < 0xd800
    ensures c < 0xdc00 <==> Value(c) < 0xdc00
    ensures c < 0xe000 <==> Value(c) < 0xe000
  {
  }

  function Nibble(n: nat): bv32
    requires n < 16
  {
    n as bv32
  }

  lemma NibbleValue(n: nat)
    requires n < 16
    ensures Value(Nibble(n)) == n && Nibble(n) < 16
  {
    assert n < 4 ==> n == 0 || n == 1 || n == 2 || n == 3;
    assert 4 <= n < 8 ==> n == 4 || n == 5 || n == 6 || n == 7;
    assert 8 <= n < 12 ==> n == 8 || n == 9 || n == 10 || n == 11;
    assert 12 <= n ==> n == 12 || n == 13 || n == 14 || n == 15;
  }

  /** A digit in the bits that a shift by four leaves free. */
  function Or(x: bv32, d: bv32): bv32 {
    (x << 4) | d
  }

  lemma MaskedSum(x: bv32, d: bv32)
    ensures (x << 4) + (d & 15) == (x << 4) | (d & 15)
    ensures d < 16 ==> d & 15 == d
  {
  }

  lemma JoinedIsOr(x: bv32, d: bv32)
    requires d < 16
    ensures (x << 4) + d == (x << 4) | d
  {
    hide *;
    MaskedSum(x, d);
  }

  lemma OrLow(x: bv32, d: bv32)
    ensures LowFour(Or(x, d)) == LowFour(d)
  {
    var y := Or(x, d);
    assert Odd(y) == Odd(d) && Odd(Half(y)) == Odd(Half(d));
    assert Odd(Half(Half(y))) == Odd(Half(Half(d))) && Odd(Half(Half(Half(y)))) == Odd(Half(Half(Half(d))));
  }

  lemma ShiftedBack(x: bv32, d: bv32)
    requires x < 0x1000_0000 && d < 16
    ensures ((x << 4) | d) >> 4 == x && d >> 4 == 0
  {
  }

  lemma OrHigh(x: bv32, d: bv32)
    requires x < 0x1000_0000 && d < 16
    ensures Four(Or(x, d)) == x && Four(d) == 0
  {
    hide Four;
    ShiftedBack(x, d);
    ShiftIs(Or(x, d));
    ShiftIs(d);
  }

  lemma OrValue(x: bv32, d: bv32)
    requires x < 0x1000_0000 && d < 16
    ensures Value(Or(x, d)) == 16 * Value(x) + Value(d)
  {
    hide *;
    OrLow(x, d);
    OrHigh(x, d);
    Constants();
    FourBits(Or(x, d));
    FourBits(d);
  }

  lemma JoinedValue(x: bv32, d: bv32)
    requires x < 0x1000_0000 && d < 16
    ensures Value((x << 4) + d) == 16 * Value(x) + Value(d)
  {
    hide Value;
    OrValue(x, d);
    JoinedIsOr(x, d);
  }

  lemma JoinedBound(x: bv32, d: bv32)
    requires d < 16
    ensures x < 1 ==> (x << 4) + d < 0x10
    ensures x < 0x10 ==> (x << 4) + d < 0x100
    ensures x < 0x100 ==> (x << 4) + d < 0x1000
    ensures x < 0x1000 ==> (x << 4) + d < 0x1_0000
  {
    hide *;
  }
}
