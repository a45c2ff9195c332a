/**
 The CRC-32 of `crc.c`: the table-driven loop with its lazily filled static table, proved equal
 to a bit-at-a-time division, and the two properties callers rely on: a running crc can be
 continued, and a burst of at most 32 damaged bits never goes unnoticed.
 */
module Crc {
  // The reflected polynomial 0xedb88320 of crc.c, as 32 bits.
  const POLY: bv32 := 0xedb88320

  predicate Odd(c: bv32) {
    c & 1 == 1
  }

  function Half(c: bv32): bv32 {
    c >> 1
  }

  // Exclusive or by name: the proofs below use its laws and never look at single bits.
  function Xor(a: bv32, b: bv32): bv32 {
    a ^ b
  }

  // ----- the reference: one message bit at a time -----

  /** Feeds one message bit into the 32-bit remainder. */
  function BitStep(c: bv32, bit: bool): bv32 {
    if Odd(c) != bit then Xor(Half(c), POLY) else Half(c)
  }

  /** Feeds a sequence of message bits. */
  function FeedBits(c: bv32, bits: seq<bool>): bv32
    decreases |bits|
  {
    if bits == [] then c else FeedBits(BitStep(c, bits[0]), bits[1..])
  }

  /** The `n` low bits of `x`, least significant first. */
  function LowBits(x: bv32, n: nat): (bits: seq<bool>)
    ensures |bits| == n
    decreases n
  {
    if n == 0 then [] else [Odd(x)] + LowBits(Half(x), n - 1)
  }

  function ByteBits(b: bv8): (bits: seq<bool>)
    ensures |bits| == 8
  {
    LowBits(b as bv32, 8)
  }

  /** The bits of a message in transmission order: bytes in order, each least significant bit first. */
  function Bits(m: seq<bv8>): (bits: seq<bool>)
    ensures |bits| == 8 * |m|
  {
    if m == [] then [] else ByteBits(m[0]) + Bits(m[1..])
  }

  /** The CRC-32 of `m` continued from `start`, with its pre- and post-conditioning. */
  function SerialCrc(start: bv32, m: seq<bv8>): bv32 {
    Xor(FeedBits(Xor(start, 0xffff_ffff), Bits(m)), 0xffff_ffff)
  }

  // ----- the byte-wise form: eight shifts at once -----

  function Shift(c: bv32): bv32 {
    if Odd(c) then Xor(Half(c), POLY) else Half(c)
  }

  function Shifts(c: bv32, n: nat): bv32
    decreases n
  {
    if n == 0 then c else Shifts(Shift(c), n - 1)
  }

  /** Entry `b` of the table. */
  function Entry(b: bv8): bv32 {
    Shifts(b as bv32, 8)
  }

  lemma XorLaws(a: bv32, b: bv32, p: bv32)
    ensures Xor(Xor(a, p), b) == Xor(Xor(a, b), p)
    ensures Xor(a, Xor(b, p)) == Xor(Xor(a, b), p)
    ensures Xor(Xor(a, p), Xor(b, p)) == Xor(a, b)
  {
  }

  lemma XorZero(a: bv32)
    ensures Xor(a, 0) == a == Xor(0, a)
    ensures Xor(a, a) == 0
  {
  }

  lemma HalfXor(a: bv32, b: bv32)
    ensures Half(Xor(a, b)) == Xor(Half(a), Half(b))
  {
  }

  lemma OddXor(a: bv32, b: bv32)
    ensures Odd(Xor(a, b)) == (Odd(a) != Odd(b))
  {
  }

  /** Feeding a bit is a shift in which the bit is first added to the remainder. */
  lemma Peel(c: bv32, x: bv32)
    ensures Shift(Xor(c, x)) == Xor(BitStep(c, Odd(x)), Half(x))
  {
    HalfXor(c, x);
    OddXor(c, x);
    XorLaws(Half(c), Half(x), POLY);
  }

  function Dropped(x: bv32, n: nat): bv32
    decreases n
  {
    if n == 0 then x else Dropped(Half(x), n - 1)
  }

  lemma {:induction false} PeelMany(c: bv32, x: bv32, n: nat)
    ensures Shifts(Xor(c, x), n) == Xor(FeedBits(c, LowBits(x, n)), Dropped(x, n))
    decreases n
  {
    if n > 0 {
      Peel(c, x);
      PeelMany(BitStep(c, Odd(x)), Half(x), n - 1);
      assert LowBits(x, n)[1..] == LowBits(Half(x), n - 1);
    }
  }

  lemma DroppedOnce(x: bv32, n: nat)
    requires n > 0
    ensures Dropped(x, n) == Dropped(Half(x), n - 1)
  {
  }

  function Half4(x: bv32): bv32 {
    Half(Half(Half(Half(x))))
  }

  lemma DroppedEight(x: bv32)
    ensures Dropped(x, 8) == Half4(Half4(x))
  {
    var y := Half4(x);
    DroppedOnce(x, 8);
    DroppedOnce(Half(x), 7);
    DroppedOnce(Half(Half(x)), 6);
    DroppedOnce(Half(Half(Half(x))), 5);
    DroppedOnce(y, 4);
    DroppedOnce(Half(y), 3);
    DroppedOnce(Half(Half(y)), 2);
    DroppedOnce(Half(Half(Half(y))), 1);
  }

  lemma HalfByte(b: bv8)
    ensures Half4(Half4(b as bv32)) == 0
  {
  }

  lemma ByteDropped(b: bv8)
    ensures Dropped(b as bv32, 8) == 0
  {
    DroppedEight(b as bv32);
    HalfByte(b);
  }

  lemma ByteFeed(c: bv32, b: bv8)
    ensures FeedBits(c, ByteBits(b)) == Shifts(Xor(c, b as bv32), 8)
  {
    PeelMany(c, b as bv32, 8);
    ByteDropped(b);
    XorZero(FeedBits(c, ByteBits(b)));
  }

  lemma ShiftLinear(a: bv32, b: bv32)
    ensures Shift(Xor(a, b)) == Xor(Shift(a), Shift(b))
  {
    HalfXor(a, b);
    OddXor(a, b);
    XorLaws(Half(a), Half(b), POLY);
  }

  lemma {:induction false} ShiftsLinear(a: bv32, b: bv32, n: nat)
    ensures Shifts(Xor(a, b), n) == Xor(Shifts(a, n), Shifts(b, n))
    decreases n
  {
    if n > 0 {
      ShiftLinear(a, b);
      ShiftsLinear(Shift(a), Shift(b), n - 1);
    }
  }

  /** `h` loses `n` zero bits, so shifting it never adds the polynomial. */
  predicate AllEven(h: bv32, n: nat)
    decreases n
  {
    n == 0 || (!Odd(h) && AllEven(Half(h), n - 1))
  }

  lemma {:induction false} EvenShifts(h: bv32, n: nat)
    requires AllEven(h, n)
    ensures Shifts(h, n) == Dropped(h, n)
    decreases n
  {
    if n > 0 {
      EvenShifts(Half(h), n - 1);
    }
  }

  function High(c: bv32): bv32 {
    c & 0xffff_ff00
  }

  function Shr8(c: bv32): bv32 {
    c >> 8
  }

  lemma FourEven(h: bv32, n: nat)
    requires !Odd(h) && !Odd(Half(h)) && !Odd(Half(Half(h))) && !Odd(Half(Half(Half(h))))
    requires AllEven(Half4(h), n)
    ensures AllEven(h, n + 4)
  {
    assert AllEven(Half(Half(h)), n + 2);
  }

  lemma LowerBits(c: bv32)
    ensures !Odd(High(c)) && !Odd(Half(High(c)))
    ensures !Odd(Half(Half(High(c)))) && !Odd(Half(Half(Half(High(c)))))
  {
  }

  lemma UpperBits(c: bv32)
    ensures !Odd(Half(Half(Half(Half(High(c))))))
    ensures !Odd(Half(Half(Half(Half(Half(High(c)))))))
    ensures !Odd(Half(Half(Half(Half(Half(Half(High(c))))))))
    ensures !Odd(Half(Half(Half(Half(Half(Half(Half(High(c)))))))))
    ensures Half(Half(Half(Half(Half(Half(Half(Half(High(c))))))))) == Shr8(c)
  {
  }

  lemma HighPart(c: bv32)
    ensures Shifts(High(c), 8) == Shr8(c)
  {
    var h := High(c);
    LowerBits(c);
    UpperBits(c);
    FourEven(Half4(h), 0);
    FourEven(h, 4);
    EvenShifts(h, 8);
    DroppedEight(h);
  }

  function LowByte(c: bv32): bv8 {
    (c & 0xff) as bv8
  }

  lemma SplitLowByte(c: bv32, b: bv8)
    ensures var x := Xor(c, b as bv32);
            x == Xor(LowByte(x) as bv32, High(x)) && Shr8(x) == Shr8(c)
  {
  }

  /** The table step of the fast loop is eight shifts. */
  lemma TableStep(c: bv32, b: bv8)
    ensures FeedBits(c, ByteBits(b)) == Xor(Entry(LowByte(Xor(c, b as bv32))), Shr8(c))
  {
    var x := Xor(c, b as bv32);
    ByteFeed(c, b);
    SplitLowByte(c, b);
    ShiftsLinear(LowByte(x) as bv32, High(x), 8);
    HighPart(x);
  }

  lemma {:induction false} FeedBitsConcat(c: bv32, a: seq<bool>, b: seq<bool>)
    ensures FeedBits(c, a + b) == FeedBits(FeedBits(c, a), b)
    decreases |a|
  {
    if a == [] {
      assert a + b == b;
    } else {
      assert (a + b)[1..] == a[1..] + b;
      FeedBitsConcat(BitStep(c, a[0]), a[1..], b);
    }
  }

  lemma {:induction false} BitsConcat(a: seq<bv8>, b: seq<bv8>)
    ensures Bits(a + b) == Bits(a) + Bits(b)
  {
    if a == [] {
      assert a + b == b;
    } else {
      assert (a + b)[1..] == a[1..] + b;
      BitsConcat(a[1..], b);
    }
  }

  // ----- the implementation -----

  lemma {:induction false} ShiftsOnce(c: bv32, n: nat)
    ensures Shifts(c, n + 1) == Shift(Shifts(c, n))
    decreases n
  {
    if n > 0 {
      ShiftsOnce(Shift(c), n - 1);
    }
  }

  /** The two branches of the inner loop of make_crc_table. */
  lemma ShiftIs(c: bv32)
    ensures c & 1 == 1 ==> Shift(c) == 0xedb8_8320 ^ (c >> 1)
    ensures c & 1 != 1 ==> Shift(c) == c >> 1
  {
  }

  lemma NotIs(c: bv32)
    ensures Xor(c, 0xffff_ffff) == c ^ 0xffff_ffff
  {
  }

  lemma IndexIs(c: bv32, b: bv8)
    ensures ((c ^ (b as bv32)) & 0xff) as bv8 == LowByte(Xor(c, b as bv32))
  {
  }

  lemma MixIs(t: bv32, c: bv32)
    ensures t ^ (c >> 8) == Xor(t, Shr8(c))
  {
  }

  lemma ByteIndex(b: bv8)
    ensures (b as int) as bv8 == b
  {
  }

  lemma FedNothing(c: bv32)
    ensures forall data: seq<bv8> :: c == FeedBits(c, Bits(data[..0]))
  {
  }

  lemma FedOneMore(c: bv32, data: seq<bv8>, n: nat)
    requires n < |data|
    ensures FeedBits(c, Bits(data[..n + 1])) == FeedBits(FeedBits(c, Bits(data[..n])), ByteBits(data[n]))
  {
    hide FeedBits;
    hide ByteBits;
    assert data[..n + 1] == data[..n] + [data[n]];
    assert Bits([data[n]]) == ByteBits(data[n]) + Bits([]);
    assert Bits([data[n]]) == ByteBits(data[n]);
    BitsConcat(data[..n], [data[n]]);
    FeedBitsConcat(c, Bits(data[..n]), ByteBits(data[n]));
  }

  ghost function TableEntry(i: nat): bv32
    requires i < 256
  {
    Entry(i as bv8)
  }

  lemma TableEntryAt(b: bv8)
    ensures TableEntry(b as int) == Entry(b)
  {
    hide Entry;
    ByteIndex(b);
  }

  /** The first `|t|` entries of the table are right. */
  ghost predicate Filled(t: seq<bv32>)
    requires |t| <= 256
  {
    forall i :: 0 <= i < |t| ==> t[i] == TableEntry(i)
  }

  /** The static state of `crc32`: a 256-entry table, filled on the first call. */
  class Crc32State {
    const table: array<bv32>
    var quickTableDone: bool

    ghost predicate Valid()
      reads this, table
    {
      && table.Length == 256
      && (quickTableDone ==> Filled(table[..]))
    }

    constructor ()
      ensures Valid() && fresh(this) && fresh(table) && !quickTableDone
    {
      table := new bv32[256];
      quickTableDone := false;
    }

    method MakeEntry(b: bv8) returns (c: bv32)
      ensures c == Entry(b)
    {
      hide Shift;
      c := b as bv32;
      var k := 0;
      while k < 8
        invariant 0 <= k <= 8
        invariant c == Shifts(b as bv32, k)
      {
        ShiftIs(c);
        ShiftsOnce(b as bv32, k);
        if c & 1 == 1 {
          c := 0xedb8_8320 ^ (c >> 1);
        } else {
          c := c >> 1;
        }
        k := k + 1;
      }
    }

    method MakeCrcTable()
      requires table.Length == 256
      modifies table
      ensures Filled(table[..])
    {
      hide Entry;
      var n := 0;
      while n < 256
        invariant 0 <= n <= 256
        invariant Filled(table[..n])
      {
        var c := MakeEntry(n as bv8);
        ghost var before := table[..n];
        table[n] := c;
        assert table[..n + 1] == before + [c];
        n := n + 1;
      }
      assert table[..] == table[..n];
    }

    method Crc32(crc: bv32, buf: array<bv8>, len: int) returns (r: bv32)
      requires Valid() && len <= buf.Length
      modifies this`quickTableDone, table
      ensures Valid() && quickTableDone
      ensures r == SerialCrc(crc, if len < 0 then [] else buf[..len])
    {
      hide FeedBits;
      hide ByteBits;
      hide Bits;
      hide Entry;
      hide Xor;
      hide LowByte;
      hide Shr8;
      var c := crc ^ 0xffff_ffff;
      if !quickTableDone {
        MakeCrcTable();
        quickTableDone := true;
      }
      ghost var c0 := c;
      ghost var data := if len < 0 then [] else buf[..len];
      NotIs(crc);
      FedNothing(c0);
      var n := 0;
      while n < len
        invariant 0 <= n <= |data|
        invariant Valid() && quickTableDone
        invariant c == FeedBits(c0, Bits(data[..n]))
      {
        var b := buf[n];
        var i := ((c ^ (b as bv32)) & 0xff) as bv8;
        IndexIs(c, b);
        TableEntryAt(i);
        MixIs(table[i as int], c);
        TableStep(c, b);
        FedOneMore(c0, data, n);
        c := table[i as int] ^ (c >> 8);
        n := n + 1;
      }
      assert data[..n] == data;
      NotIs(c);
      r := c ^ 0xffff_ffff;
    }
  }

  // ----- consequences -----

  /** The documented loop of crc.c: the crc of a concatenation is the crc continued. */
  lemma Continued(start: bv32, a: seq<bv8>, b: seq<bv8>)
    ensures SerialCrc(SerialCrc(start, a), b) == SerialCrc(start, a + b)
  {
    var x := FeedBits(Xor(start, 0xffff_ffff), Bits(a));
    assert Xor(Xor(x, 0xffff_ffff), 0xffff_ffff) == x;
    BitsConcat(a, b);
    FeedBitsConcat(Xor(start, 0xffff_ffff), Bits(a), Bits(b));
  }

  /** How the difference of two remainders moves when they are fed possibly different bits. */
  lemma DiffStep(c: bv32, b: bool, c': bv32, b': bool)
    ensures Xor(BitStep(c, b), BitStep(c', b'))
         == if (Odd(c) != b) != (Odd(c') != b') then Xor(Half(Xor(c, c')), POLY) else Half(Xor(c, c'))
  {
    HalfXor(c, c');
    XorLaws(Half(c), Half(c'), POLY);
  }

  /** `d` is still non-zero after `r` more halvings. */
  predicate Lasts(d: bv32, r: nat)
    decreases r
  {
    if r == 0 then d != 0 else Lasts(Half(d), r - 1)
  }

  lemma {:induction false} LastsShorter(d: bv32, r: nat, q: nat)
    requires Lasts(d, r) && q <= r
    ensures Lasts(d, q)
    decreases r
  {
    if q > 0 {
      LastsShorter(Half(d), r - 1, q - 1);
    } else if r > 0 {
      LastsShorter(Half(d), r - 1, 0);
    }
  }

  lemma LastsFour(d: bv32, r: nat)
    requires Lasts(Half4(d), r)
    ensures Lasts(d, r + 4)
  {
    assert Lasts(Half(Half(d)), r + 2);
  }

  lemma HalfMonotone(d: bv32, e: bv32)
    requires d >= e
    ensures Half(d) >= Half(e)
  {
  }

  lemma {:induction false} LastsLarger(d: bv32, e: bv32, r: nat)
    requires d >= e && Lasts(e, r)
    ensures Lasts(d, r)
    decreases r
  {
    if r > 0 {
      HalfMonotone(d, e);
      LastsLarger(Half(d), Half(e), r - 1);
    }
  }

  lemma HalvedPowers()
    ensures Half4(0x80) == 8 && Half4(0x800) == 0x80 && Half4(0x8000) == 0x800
    ensures Half4(0x8_0000) == 0x8000 && Half4(0x80_0000) == 0x8_0000
    ensures Half4(0x800_0000) == 0x80_0000 && Half4(0x8000_0000) == 0x800_0000
  {
  }

  lemma TopBitLasts(d: bv32)
    requires d >= 0x8000_0000
    ensures Lasts(d, 31)
  {
    assert Half(8) == 4 && Half(4) == 2 && Half(2) == 1;
    assert Lasts(2, 1);
    assert Lasts(8, 3);
    HalvedPowers();
    LastsFour(0x80, 3);
    LastsFour(0x800, 7);
    LastsFour(0x8000, 11);
    LastsFour(0x8_0000, 15);
    LastsFour(0x80_0000, 19);
    LastsFour(0x800_0000, 23);
    LastsFour(0x8000_0000, 27);
    LastsLarger(d, 0x8000_0000, 31);
  }

  lemma PolyTop(d: bv32)
    ensures Xor(Half(d), POLY) >= 0x8000_0000
  {
  }

  /** The polynomial has its top bit set, so a difference it was added to lasts 31 steps. */
  lemma PolyLasts(d: bv32, r: nat)
    requires r <= 31
    ensures Lasts(Xor(Half(d), POLY), r)
  {
    PolyTop(d);
    TopBitLasts(Xor(Half(d), POLY));
    LastsShorter(Xor(Half(d), POLY), 31, r);
  }

  lemma XorDiffers(a: bv32, b: bv32)
    requires Xor(a, b) != 0
    ensures a != b
  {
  }

  /** A difference that lasts `|bits|` steps survives them, whatever bits are fed. */
  lemma {:induction false} DiffLasts(c: bv32, w: seq<bool>, c': bv32, w': seq<bool>)
    requires |w| == |w'| <= 31 && Lasts(Xor(c, c'), |w|)
    ensures FeedBits(c, w) != FeedBits(c', w')
    decreases |w|
  {
    hide Xor;
    hide Half;
    hide Odd;
    hide BitStep;
    if w == [] {
      XorZero(c);
      XorDiffers(c, c');
    } else {
      var d := Xor(c, c');
      DiffStep(c, w[0], c', w'[0]);
      if (Odd(c) != w[0]) != (Odd(c') != w'[0]) {
        PolyLasts(d, |w| - 1);
      }
      DiffLasts(BitStep(c, w[0]), w[1..], BitStep(c', w'[0]), w'[1..]);
    }
  }

  /** From one remainder, two different words of at most 32 bits lead to different remainders. */
  lemma {:induction false} WindowInjective(c: bv32, w: seq<bool>, w': seq<bool>)
    requires |w| == |w'| <= 32 && w != w'
    ensures FeedBits(c, w) != FeedBits(c, w')
    decreases |w|
  {
    if w[0] == w'[0] {
      assert w == [w[0]] + w[1..] && w' == [w[0]] + w'[1..];
      WindowInjective(BitStep(c, w[0]), w[1..], w'[1..]);
    } else {
      DiffStep(c, w[0], c, w'[0]);
      XorZero(c);
      PolyLasts(0, |w| - 1);
      DiffLasts(BitStep(c, w[0]), w[1..], BitStep(c, w'[0]), w'[1..]);
    }
  }

  lemma StepInjective(c: bv32, c': bv32, b: bool)
    requires c != c'
    ensures BitStep(c, b) != BitStep(c', b)
  {
  }

  /** The same bits never make two different remainders equal. */
  lemma {:induction false} SuffixInjective(c: bv32, c': bv32, s: seq<bool>)
    requires c != c'
    ensures FeedBits(c, s) != FeedBits(c', s)
    decreases |s|
  {
    if s != [] {
      StepInjective(c, c', s[0]);
      SuffixInjective(BitStep(c, s[0]), BitStep(c', s[0]), s[1..]);
    }
  }

  lemma HalfOddInjective(x: bv32, y: bv32)
    requires Half(x) == Half(y) && Odd(x) == Odd(y)
    ensures x == y
  {
  }

  lemma {:induction false} LowBitsInjective(x: bv32, y: bv32, n: nat)
    requires LowBits(x, n) == LowBits(y, n) && Dropped(x, n) == Dropped(y, n)
    ensures x == y
    decreases n
  {
    if n > 0 {
      assert LowBits(x, n)[1..] == LowBits(Half(x), n - 1);
      assert LowBits(y, n)[1..] == LowBits(Half(y), n - 1);
      assert Odd(x) == LowBits(x, n)[0] && Odd(y) == LowBits(y, n)[0];
      LowBitsInjective(Half(x), Half(y), n - 1);
      HalfOddInjective(x, y);
    }
  }

  lemma ByteBitsInjective(b: bv8, b': bv8)
    requires ByteBits(b) == ByteBits(b')
    ensures b == b'
  {
    ByteDropped(b);
    ByteDropped(b');
    LowBitsInjective(b as bv32, b' as bv32, 8);
  }

  lemma {:induction false} BitsInjective(m: seq<bv8>, m': seq<bv8>)
    requires |m| == |m'| && Bits(m) == Bits(m')
    ensures m == m'
  {
    hide ByteBits;
    if m != [] {
      assert ByteBits(m[0]) == Bits(m)[..8] && Bits(m[1..]) == Bits(m)[8..];
      assert ByteBits(m'[0]) == Bits(m')[..8] && Bits(m'[1..]) == Bits(m')[8..];
      ByteBitsInjective(m[0], m'[0]);
      BitsInjective(m[1..], m'[1..]);
    }
  }

  /** The two messages have the same bits everywhere except in the 32 bits from position `i` on. */
  ghost predicate SameOutsideWindow(m: seq<bv8>, m': seq<bv8>, i: nat) {
    && |m| == |m'|
    && forall k :: 0 <= k < 8 * |m| && !(i <= k < i + 32) ==> Bits(m)[k] == Bits(m')[k]
  }

  lemma FeedThree(c: bv32, a: seq<bool>, lo: nat, hi: nat)
    requires lo <= hi <= |a|
    ensures FeedBits(c, a) == FeedBits(FeedBits(FeedBits(c, a[..lo]), a[lo..hi]), a[hi..])
  {
    hide FeedBits;
    assert a == a[..lo] + (a[lo..hi] + a[hi..]);
    FeedBitsConcat(c, a[..lo], a[lo..hi] + a[hi..]);
    FeedBitsConcat(FeedBits(c, a[..lo]), a[lo..hi], a[hi..]);
  }

  lemma XorInjective(x: bv32, y: bv32)
    requires x != y
    ensures Xor(x, 0xffff_ffff) != Xor(y, 0xffff_ffff)
  {
  }

  /** Every burst error of at most 32 consecutive bits, aligned or not, changes the CRC. */
  lemma BurstDetected(start: bv32, m: seq<bv8>, m': seq<bv8>, i: nat)
    requires SameOutsideWindow(m, m', i) && m != m'
    ensures SerialCrc(start, m) != SerialCrc(start, m')
  {
    hide FeedBits;
    hide Bits;
    hide Xor;
    var a, b := Bits(m), Bits(m');
    if a == b {
      BitsInjective(m, m');
    }
    var lo := if i < |a| then i else |a|;
    var hi := if i + 32 < |a| then i + 32 else |a|;
    var c := FeedBits(Xor(start, 0xffff_ffff), a[..lo]);
    assert a[..lo] == b[..lo];
    assert a[hi..] == b[hi..];
    FeedThree(Xor(start, 0xffff_ffff), a, lo, hi);
    FeedThree(Xor(start, 0xffff_ffff), b, lo, hi);
    WindowInjective(c, a[lo..hi], b[lo..hi]);
    SuffixInjective(FeedBits(c, a[lo..hi]), FeedBits(c, b[lo..hi]), a[hi..]);
    XorInjective(FeedBits(Xor(start, 0xffff_ffff), a), FeedBits(Xor(start, 0xffff_ffff), b));
  }

  lemma {:induction false} BitsAt(m: seq<bv8>, q: nat, r: nat)
    requires q < |m| && r < 8
    ensures Bits(m)[8 * q + r] == ByteBits(m[q])[r]
  {
    hide ByteBits;
    if q > 0 {
      BitsAt(m[1..], q - 1, r);
      assert Bits(m)[8 * q + r] == Bits(m[1..])[8 * (q - 1) + r];
    }
  }

  /** Equal-length messages that differ only within four consecutive bytes have different CRCs. */
  lemma FourBytesDetected(start: bv32, m: seq<bv8>, m': seq<bv8>, i: nat)
    requires |m| == |m'| && m != m'
    requires forall k :: 0 <= k < |m| && !(i <= k < i + 4) ==> m[k] == m'[k]
    ensures SerialCrc(start, m) != SerialCrc(start, m')
  {
    hide Bits;
    hide ByteBits;
    forall k | 0 <= k < 8 * |m| && !(8 * i <= k < 8 * i + 32)
      ensures Bits(m)[k] == Bits(m')[k]
    {
      var q, r := k / 8, k % 8;
      BitsAt(m, q, r);
      BitsAt(m', q, r);
    }
    BurstDetected(start, m, m', 8 * i);
  }

  // ----- the published check value -----

  lemma FeedByte(c: bv32, b: bv8, m: seq<bv8>)
    ensures FeedBits(c, Bits([b] + m)) == FeedBits(FeedBits(c, ByteBits(b)), Bits(m))
  {
    hide ByteBits;
    assert ([b] + m)[1..] == m;
    FeedBitsConcat(c, ByteBits(b), Bits(m));
  }

  lemma CheckSteps()
    ensures FeedBits(0xffff_ffff, ByteBits(0x31)) == 0x7c23_1048
    ensures FeedBits(0x7c23_1048, ByteBits(0x32)) == 0xb0ac_bb32
    ensures FeedBits(0xb0ac_bb32, ByteBits(0x33)) == 0x77b7_9c2d
  {
  }

  lemma MoreCheckSteps()
    ensures FeedBits(0x77b7_9c2d, ByteBits(0x34)) == 0x641c_1f5c
    ensures FeedBits(0x641c_1f5c, ByteBits(0x35)) == 0x340a_c5e3
    ensures FeedBits(0x340a_c5e3, ByteBits(0x36)) == 0xf68d_2c9e
  {
  }

  lemma LastCheckSteps()
    ensures FeedBits(0xf68d_2c9e, ByteBits(0x37)) == 0xaffc_9660
    ensures FeedBits(0xaffc_9660, ByteBits(0x38)) == 0x651f_2550
    ensures FeedBits(0x651f_2550, ByteBits(0x39)) == 0x340b_c6d9
  {
  }

  lemma NoBits(c: bv32)
    ensures Bits([]) == [] && FeedBits(c, []) == c
  {
  }

  /** The CRC-32 of the nine digits 1 to 9. */
  lemma CheckValue()
    ensures SerialCrc(0, [0x31, 0x32, 0x33, 0x34, 0x35, 0x36, 0x37, 0x38, 0x39]) == 0xcbf4_3926
  {
    CheckSteps();
    MoreCheckSteps();
    LastCheckSteps();
    hide ByteBits;
    hide FeedBits;
    FeedByte(0xffff_ffff, 0x31, [0x32, 0x33, 0x34, 0x35, 0x36, 0x37, 0x38, 0x39]);
    FeedByte(0x7c23_1048, 0x32, [0x33, 0x34, 0x35, 0x36, 0x37, 0x38, 0x39]);
    FeedByte(0xb0ac_bb32, 0x33, [0x34, 0x35, 0x36, 0x37, 0x38, 0x39]);
    FeedByte(0x77b7_9c2d, 0x34, [0x35, 0x36, 0x37, 0x38, 0x39]);
    FeedByte(0x641c_1f5c, 0x35, [0x36, 0x37, 0x38, 0x39]);
    FeedByte(0x340a_c5e3, 0x36, [0x37, 0x38, 0x39]);
    FeedByte(0xf68d_2c9e, 0x37, [0x38, 0x39]);
    FeedByte(0xaffc_9660, 0x38, [0x39]);
    FeedByte(0x651f_2550, 0x39, []);
    assert Bits([]) == [] && FeedBits(0x340b_c6d9, []) == 0x340b_c6d9 by {
      NoBits(0x340b_c6d9);
    }
  }
}
