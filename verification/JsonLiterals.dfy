/**
 String literals against the tables of section 7 of RFC 8259, written out: which bytes between the quotes
 are accepted, and what they mean. The parser also accepts some that the standard does not have.
 */
module JsonLiterals {
  import opened Bytes
  import opened JsonGrammar
  import opened JsonValue
  import Utf8

  // ----- the tables -----

  /** The letters behind a backslash, and the bytes they stand for. */
  const ESCAPES: map<byte, byte> :=
    map[0x22 := 0x22, 0x5c := 0x5c, 0x2f := 0x2f, 0x62 := 0x08, 0x66 := 0x0c, 0x6e := 0x0a, 0x72 := 0x0d, 0x74 := 0x09]

  // The digits 0 to f and 0 to F.
  const LOWER: bytes :=
    [0x30, 0x31, 0x32, 0x33, 0x34, 0x35, 0x36, 0x37, 0x38, 0x39, 0x61, 0x62, 0x63, 0x64, 0x65, 0x66]
  const UPPER: bytes :=
    [0x30, 0x31, 0x32, 0x33, 0x34, 0x35, 0x36, 0x37, 0x38, 0x39, 0x41, 0x42, 0x43, 0x44, 0x45, 0x46]

  /** `v` written as one hexadecimal digit, in either case. */
  predicate Digit(b: byte, v: nat) {
    v < 16 && (b == LOWER[v] || b == UPPER[v])
  }

  /** The hexadecimal digits are those of the tables. */
  lemma HexIs(b: byte)
    ensures IsHex(b) <==> b in LOWER || b in UPPER
    ensures IsHex(b) ==> Digit(b, HexValue(b))
  {
    if 0x30 <= b <= 0x39 {
      assert LOWER[b - 0x30] == b;
    } else if 0x41 <= b <= 0x46 {
      assert UPPER[b - 0x37] == b;
    } else if 0x61 <= b <= 0x66 {
      assert LOWER[b - 0x57] == b;
    }
  }

  /** And they have the values of their places there. */
  lemma HexDigits(b: byte, v: nat)
    ensures IsHex(b) && HexValue(b) == v <==> Digit(b, v)
  {
    HexIs(b);
  }

  // ----- the units of a literal -----

  /**
   What may stand between the quotes. `Garbled` is `\u` with four bytes that are not all digits, `Hanging` a
   backslash that comes last: both are accepted, though no standard literal has them.
   */
  datatype Unit =
    | Raw(b: byte)
    | Letter(letter: byte)
    | Code(digits: bytes, unit: nat)
    | Pair(high: bytes, first: nat, low: bytes, second: nat)
    | Garbled(four: bytes)
    | Hanging

  predicate Digits(digits: bytes, a: nat, b: nat, c: nat, d: nat) {
    |digits| == 4 && Digit(digits[0], a) && Digit(digits[1], b) && Digit(digits[2], c) && Digit(digits[3], d)
  }

  /** Four digits for a 16-bit unit. */
  ghost predicate Four(digits: bytes, unit: nat) {
    exists a: nat, b: nat, c: nat, d: nat :: Digits(digits, a, b, c, d) && unit == 4096 * a + 256 * b + 16 * c + d
  }

  ghost predicate Proper(u: Unit) {
    match u
    case Raw(b) => b != 0x5c
    case Letter(l) => l in ESCAPES
    case Code(ds, n) => Four(ds, n) && !(0xd800 <= n <= 0xdfff)
    case Pair(hs, m, ls, n) => Four(hs, m) && 0xd800 <= m <= 0xdbff && Four(ls, n) && 0xdc00 <= n <= 0xdfff
    case Garbled(x) => |x| == 4 && exists i :: 0 <= i < 4 && x[i] !in LOWER && x[i] !in UPPER
    case Hanging => true
  }

  function UnitText(u: Unit): bytes {
    match u
    case Raw(b) => [b]
    case Letter(l) => [0x5c, l]
    case Code(ds, _) => [0x5c, 0x75] + ds
    case Pair(hs, _, ls, _) => [0x5c, 0x75] + hs + [0x5c, 0x75] + ls
    case Garbled(x) => [0x5c, 0x75] + x
    case Hanging => [0x5c]
  }

  lemma FourBound(u: Unit)
    requires u.Code? && Proper(u)
    ensures u.unit < 0x1_0000
  {
  }

  /** The bytes a unit stands for. */
  ghost function UnitBytes(u: Unit): bytes
    requires Proper(u)
  {
    match u
    case Raw(b) => [b]
    case Letter(l) => [ESCAPES[l]]
    case Code(_, n) => FourBound(u); Utf8.Encode(n)
    case Pair(_, m, _, n) => Utf8.Encode(0x1_0000 + 0x400 * (m - 0xd800) + (n - 0xdc00))
    case Garbled(_) => [0]
    case Hanging => [0x22]
  }

  /** Only the last unit may be a hanging backslash. */
  ghost predicate AllProper(us: seq<Unit>) {
    forall i :: 0 <= i < |us| ==> Proper(us[i]) && (us[i].Hanging? ==> i == |us| - 1)
  }

  function TextOf(us: seq<Unit>): bytes {
    if us == [] then [] else UnitText(us[0]) + TextOf(us[1..])
  }

  ghost function BytesOf(us: seq<Unit>): bytes
    requires AllProper(us)
  {
    if us == [] then [] else UnitBytes(us[0]) + BytesOf(us[1..])
  }

  // ----- reading one unit -----

  lemma DigitsAre(ds: bytes, a: nat, b: nat, c: nat, d: nat)
    requires |ds| == 4
    ensures Digits(ds, a, b, c, d) <==>
              AllHex(ds) && HexValue(ds[0]) == a && HexValue(ds[1]) == b && HexValue(ds[2]) == c && HexValue(ds[3]) == d
  {
    HexDigits(ds[0], a);
    HexDigits(ds[1], b);
    HexDigits(ds[2], c);
    HexDigits(ds[3], d);
    hide Digit;
    hide HexValue;
    hide IsHex;
  }

  lemma DigitsValue(ds: bytes, a: nat, b: nat, c: nat, d: nat)
    requires |ds| == 4 && AllHex(ds)
    requires HexValue(ds[0]) == a && HexValue(ds[1]) == b && HexValue(ds[2]) == c && HexValue(ds[3]) == d
    ensures Hex4(ds) == 4096 * a + 256 * b + 16 * c + d
  {
    hide HexValue;
    hide IsHex;
  }

  lemma FourDigits(ds: bytes, a: nat, b: nat, c: nat, d: nat)
    requires Digits(ds, a, b, c, d)
    ensures |ds| == 4
  {
  }

  lemma FourIs(ds: bytes, n: nat)
    ensures Four(ds, n) <==> |ds| == 4 && AllHex(ds) && Hex4(ds) == n
  {
    hide Digits;
    hide Hex4;
    hide HexValue;
    hide IsHex;
    if |ds| == 4 && AllHex(ds) && Hex4(ds) == n {
      var a, b, c, d := HexValue(ds[0]), HexValue(ds[1]), HexValue(ds[2]), HexValue(ds[3]);
      DigitsAre(ds, a, b, c, d);
      DigitsValue(ds, a, b, c, d);
    }
    if Four(ds, n) {
      var a: nat, b: nat, c: nat, d: nat :| Digits(ds, a, b, c, d) && n == 4096 * a + 256 * b + 16 * c + d;
      FourDigits(ds, a, b, c, d);
      DigitsAre(ds, a, b, c, d);
      DigitsValue(ds, a, b, c, d);
    }
  }

  lemma LetterIs(l: byte)
    ensures SimpleEscape(l) == if l in ESCAPES then Some(ESCAPES[l]) else None
    ensures l in ESCAPES ==> l != 0x75
  {
  }

  /** A backslash and any other letter make the literal fail. */
  lemma OtherLetterFails(l: byte, rest: bytes)
    requires l !in ESCAPES && l != 0x75
    ensures Unescape([0x5c, l] + rest) == None
  {
    LetterIs(l);
    hide Utf16;
  }

  /** Each of the eight letters is read as the byte of the table. */
  lemma LetterReads(l: byte, rest: bytes)
    requires l in ESCAPES
    ensures Unescape([0x5c, l] + rest) == Prepend([ESCAPES[l]], Unescape(rest))
  {
    LetterIs(l);
    hide Utf16;
    assert From([0x5c, l] + rest, 2) == rest;
  }

  lemma CodeReads(t: bytes, rest: bytes, c: nat)
    requires |t| >= 2 && t[0] == 0x5c && t[1] == 0x75 && Utf16(t + rest) == Some((c, |t|))
    ensures Unescape(t + rest) == Prepend(Utf8.Encode(c), Unescape(rest))
  {
    hide Utf16;
    assert From(t + rest, |t|) == rest;
  }

  lemma FourReads(ds: bytes, n: nat, rest: bytes)
    requires Four(ds, n) && !(0xd800 <= n <= 0xdfff)
    ensures n < 0x1_0000 && Unescape([0x5c, 0x75] + ds + rest) == Prepend(Utf8.Encode(n), Unescape(rest))
  {
    FourIs(ds, n);
    hide Hex4;
    var t := [0x5c, 0x75] + ds;
    assert (t + rest)[2..6] == ds;
    CodeReads(t, rest, n);
  }

  lemma PairReads(hs: bytes, m: nat, ls: bytes, n: nat, rest: bytes)
    requires Four(hs, m) && 0xd800 <= m <= 0xdbff && Four(ls, n) && 0xdc00 <= n <= 0xdfff
    ensures Unescape([0x5c, 0x75] + hs + [0x5c, 0x75] + ls + rest)
         == Prepend(Utf8.Encode(0x1_0000 + 0x400 * (m - 0xd800) + (n - 0xdc00)), Unescape(rest))
  {
    FourIs(hs, m);
    FourIs(ls, n);
    hide Hex4;
    hide Four;
    hide AllHex;
    var t := [0x5c, 0x75] + hs + [0x5c, 0x75] + ls;
    var x := t + rest;
    assert x[2..6] == hs && x[8..12] == ls && x[6] == 0x5c && x[7] == 0x75;
    CodeReads(t, rest, 0x1_0000 + 0x400 * (m - 0xd800) + (n - 0xdc00));
  }

  lemma GarbledReads(x: bytes, rest: bytes)
    requires Proper(Garbled(x))
    ensures Unescape([0x5c, 0x75] + x + rest) == Prepend([0], Unescape(rest))
  {
    var i :| 0 <= i < 4 && x[i] !in LOWER && x[i] !in UPPER;
    HexIs(x[i]);
    var t := [0x5c, 0x75] + x;
    assert (t + rest)[2..6] == x && Hex4(x) == 0;
    hide Hex4;
    CodeReads(t, rest, 0);
  }

  lemma RawReads(b: byte, rest: bytes)
    requires b != 0x5c
    ensures Unescape([b] + rest) == Prepend([b], Unescape(rest))
  {
    assert ([b] + rest)[1..] == rest;
  }

  lemma HangingReads()
    ensures Unescape([0x5c]) == Some([0x22]) && Unescape([]) == Some([])
  {
    LetterIs(0x22);
    var quote: bytes := [0x22];
    assert From([0x5c], 2) == [] && quote + [] == quote;
  }

  lemma UnitReads(u: Unit, rest: bytes)
    requires Proper(u) && (u.Hanging? ==> rest == [])
    ensures Unescape(UnitText(u) + rest) == Prepend(UnitBytes(u), Unescape(rest))
  {
    hide Unescape;
    hide Four;
    match u
    case Raw(b) =>
      RawReads(b, rest);
    case Letter(l) =>
      LetterReads(l, rest);
    case Code(ds, n) =>
      FourReads(ds, n, rest);
    case Pair(hs, m, ls, n) =>
      PairReads(hs, m, ls, n, rest);
    case Garbled(x) =>
      GarbledReads(x, rest);
    case Hanging =>
      HangingReads();
      var one, quote: bytes := [0x5c], [0x22];
      assert one + rest == one && quote + [] == quote;
  }

  lemma NotHex(ds: bytes)
    requires |ds| == 4 && !AllHex(ds)
    ensures Proper(Garbled(ds))
  {
    var i :| 0 <= i < 4 && !IsHex(ds[i]);
    HexIs(ds[i]);
  }

  lemma CodeUnit(x: bytes) returns (u: Unit)
    requires |x| >= 2 && x[0] == 0x5c && x[1] == 0x75 && Utf16(x).Some?
    ensures Proper(u) && x == UnitText(u) + x[Utf16(x).value.1..] && !u.Hanging?
  {
    Utf16Parts(x);
    hide Utf16;
    hide Hex4;
    hide Four;
    hide AllHex;
    var ds := x[2..6];
    if Utf16(x).value.1 == 12 {
      var ls := x[8..12];
      FourIs(ds, Hex4(ds));
      FourIs(ls, Hex4(ls));
      u := Pair(ds, Hex4(ds), ls, Hex4(ls));
      CutTwelve(x);
    } else {
      CutSix(x);
      if AllHex(ds) {
        FourIs(ds, Hex4(ds));
        u := Code(ds, Hex4(ds));
      } else {
        u := Garbled(ds);
        NotHex(ds);
      }
    }
  }

  lemma FirstCode(x: bytes) returns (u: Unit, rest: bytes)
    requires |x| >= 2 && x[0] == 0x5c && x[1] == 0x75 && Unescape(x).Some?
    ensures Proper(u) && x == UnitText(u) + rest && !u.Hanging? && |rest| < |x|
    ensures Unescape(rest).Some?
  {
    var (c, n) := Utf16(x).value;
    rest := x[n..];
    assert From(x, n) == rest;
    u := CodeUnit(x);
  }

  /** The first unit of bytes that are accepted. */
  lemma FirstUnit(x: bytes) returns (u: Unit, rest: bytes)
    requires x != [] && Unescape(x).Some?
    ensures Proper(u) && x == UnitText(u) + rest && (u.Hanging? ==> rest == []) && |rest| < |x|
    ensures Unescape(rest).Some?
  {
    if x[0] != 0x5c {
      u, rest := Raw(x[0]), x[1..];
    } else if |x| == 1 {
      u, rest := Hanging, [];
    } else if x[1] != 0x75 {
      LetterIs(x[1]);
      u, rest := Letter(x[1]), x[2..];
      assert From(x, 2) == rest;
    } else {
      u, rest := FirstCode(x);
    }
  }

  lemma Utf16Parts(x: bytes)
    requires Utf16(x).Some?
    ensures var n := Utf16(x).value.1;
            && 6 <= n <= |x| && n in {6, 12}
            && (n == 6 ==> !(0xd800 <= Hex4(x[2..6]) <= 0xdfff))
            && (n == 12 ==> 0xd800 <= Hex4(x[2..6]) <= 0xdbff && x[6] == 0x5c && x[7] == 0x75
                            && 0xdc00 <= Hex4(x[8..12]) <= 0xdfff && AllHex(x[2..6]) && AllHex(x[8..12]))
  {
    hide HexValue;
  }

  lemma CutSix(x: bytes)
    requires |x| >= 6 && x[0] == 0x5c && x[1] == 0x75
    ensures x == [0x5c, 0x75] + x[2..6] + x[6..]
  {
  }

  lemma CutTwelve(x: bytes)
    requires |x| >= 12 && x[0] == 0x5c && x[1] == 0x75 && x[6] == 0x5c && x[7] == 0x75
    ensures x == [0x5c, 0x75] + x[2..6] + [0x5c, 0x75] + x[8..12] + x[12..]
  {
    CutSix(x);
    CutSix(x[6..]);
    assert x[6..][2..6] == x[8..12] && x[6..][6..] == x[12..];
    Right3([0x5c, 0x75], x[8..12], x[12..]);
    Right4([0x5c, 0x75] + x[2..6], [0x5c, 0x75], x[8..12], x[12..]);
  }

  // ----- reading all of them -----

  lemma AllProperTail(us: seq<Unit>)
    requires AllProper(us) && us != []
    ensures Proper(us[0]) && AllProper(us[1..]) && (us[0].Hanging? ==> us[1..] == [])
  {
  }

  /** Every sequence of units is accepted, and means what its units mean. */
  lemma {:induction false} UnitsRead(us: seq<Unit>)
    requires AllProper(us)
    ensures Unescape(TextOf(us)) == Some(BytesOf(us))
  {
    if us != [] {
      AllProperTail(us);
      hide Unescape;
      UnitsRead(us[1..]);
      UnitReads(us[0], TextOf(us[1..]));
    }
  }

  /** And whatever is accepted is such a sequence. */
  lemma {:induction false} UnitsOf(x: bytes) returns (us: seq<Unit>)
    requires Unescape(x).Some?
    ensures AllProper(us) && TextOf(us) == x && Unescape(x) == Some(BytesOf(us))
    decreases |x|
  {
    us := [];
    if x != [] {
      var u, rest := FirstUnit(x);
      hide Unescape;
      var more := UnitsOf(rest);
      us := [u] + more;
      assert us[1..] == more;
      UnitReads(u, rest);
    }
  }

  // ----- where a literal ends -----

  /** A quote closes the literal unless a backslash in front of it escapes it. */
  predicate Balanced(x: bytes)
    decreases |x|
  {
    || x == []
    || (x[0] == 0x5c && |x| >= 2 && Balanced(x[2..]))
    || (x[0] != 0x5c && x[0] != 0x22 && Balanced(x[1..]))
  }

  lemma {:induction false} ClosesAt(s: bytes, k: nat)
    ensures CloseAt(s) == Some(k) <==> k < |s| && s[k] == 0x22 && Balanced(s[..k])
    decreases |s|
  {
    if s != [] && s[0] != 0x22 {
      var step := if s[0] == 0x5c then 2 else 1;
      if step <= k <= |s| {
        ClosesAt(From(s, step), k - step);
        assert s[..k][step..] == s[step..][..k - step];
      }
    }
  }

  /** The units of the standard, none of them a bare quote, leave the closing quote where it is. */
  ghost predicate Standard(u: Unit) {
    Proper(u) && u != Raw(0x22) && !u.Garbled? && !u.Hanging?
  }

  lemma {:induction false} BalancedBoth(x: bytes, y: bytes)
    requires Balanced(x) && Balanced(y)
    ensures Balanced(x + y)
    decreases |x|
  {
    if x == [] {
      assert x + y == y;
    } else {
      var step := if x[0] == 0x5c then 2 else 1;
      assert (x + y)[step..] == x[step..] + y;
      BalancedBoth(x[step..], y);
    }
  }

  lemma DigitsBalanced(ds: bytes, n: nat)
    requires Four(ds, n)
    ensures Balanced([0x5c, 0x75] + ds)
  {
    FourIs(ds, n);
    var t := [0x5c, 0x75] + ds;
    assert t[2..] == ds && ds[1..][1..] == ds[2..] && ds[2..][1..] == ds[3..] && ds[3..][1..] == [];
    assert IsHex(ds[0]) && IsHex(ds[1]) && IsHex(ds[2]) && IsHex(ds[3]);
    assert Balanced(ds[3..]);
    assert Balanced(ds[2..]);
    assert Balanced(ds[1..]);
  }

  lemma StandardIsBalanced(u: Unit)
    requires Standard(u)
    ensures Balanced(UnitText(u))
  {
    match u
    case Raw(b) =>
      assert [b][1..] == [];
    case Letter(l) =>
      assert [0x5c, l][2..] == [];
    case Code(ds, n) =>
      DigitsBalanced(ds, n);
    case Pair(hs, m, ls, n) =>
      DigitsBalanced(hs, m);
      DigitsBalanced(ls, n);
      BalancedBoth([0x5c, 0x75] + hs, [0x5c, 0x75] + ls);
      Right3([0x5c, 0x75] + hs, [0x5c, 0x75], ls);
  }

  lemma {:induction false} StandardAreBalanced(us: seq<Unit>)
    requires forall i :: 0 <= i < |us| ==> Standard(us[i])
    ensures AllProper(us) && Balanced(TextOf(us))
  {
    if us != [] {
      StandardAreBalanced(us[1..]);
      StandardIsBalanced(us[0]);
      BalancedBoth(UnitText(us[0]), TextOf(us[1..]));
    }
  }

  // ----- literals -----

  /** What a C string keeps of some bytes. */
  function BeforeNul(x: bytes): (t: bytes)
    ensures NulFree(t) && t <= x && (|t| < |x| ==> x[|t|] == 0)
  {
    if x == [] || x[0] == 0 then [] else [x[0]] + BeforeNul(x[1..])
  }

  lemma {:induction false} CStringIs(x: bytes)
    ensures CString(x) == BeforeNul(x)
  {
    if x != [] && x[0] != 0 {
      CStringIs(x[1..]);
    }
  }

  lemma Between(x: bytes, rest: bytes)
    ensures var s := [0x22] + x + [0x22] + rest;
            && s[1..] == x + [0x22] + rest && s[1..][..|x|] == x && s[1..][|x|] == 0x22
            && s[1..1 + |x|] == x && s[|x| + 2..] == rest
  {
  }

  /** A literal between quotes, with what follows it. */
  lemma LiteralReads(us: seq<Unit>, rest: bytes)
    requires AllProper(us) && Balanced(TextOf(us))
    ensures ParseString([0x22] + TextOf(us) + [0x22] + rest) == Done(BeforeNul(BytesOf(us)), rest)
  {
    hide ParseString;
    hide Unescape;
    hide CloseAt;
    hide CString;
    hide Balanced;
    hide AllProper;
    hide TextOf;
    var x := TextOf(us);
    var s := [0x22] + x + [0x22] + rest;
    Between(x, rest);
    ClosesAt(s[1..], |x|);
    StringAt(s, |x|);
    UnitsRead(us);
    CStringIs(BytesOf(us));
  }

  /** Every literal of the standard is accepted with the meaning the standard gives it, up to a U+0000. */
  lemma StandardReads(us: seq<Unit>, rest: bytes)
    requires forall i :: 0 <= i < |us| ==> Standard(us[i])
    ensures AllProper(us)
         && ParseString([0x22] + TextOf(us) + [0x22] + rest) == Done(BeforeNul(BytesOf(us)), rest)
  {
    StandardAreBalanced(us);
    LiteralReads(us, rest);
  }

  lemma LiteralEnd(s: bytes) returns (k: nat)
    requires ParseString(s).Done?
    ensures k + 2 <= |s| && Balanced(s[1..1 + k]) && Unescape(s[1..1 + k]).Some?
    ensures s == [0x22] + s[1..1 + k] + [0x22] + ParseString(s).rest
    ensures ParseString(s).value == CString(Unescape(s[1..1 + k]).value)
  {
    hide Unescape;
    hide CloseAt;
    hide CString;
    hide Balanced;
    k := CloseAt(s[1..]).value;
    ClosesAt(s[1..], k);
    StringAt(s, k);
    hide ParseString;
    assert s[1..][..k] == s[1..1 + k] && s[1..][k] == s[k + 1];
    assert s == [s[0]] + s[1..1 + k] + [s[k + 1]] + s[k + 2..];
  }

  /** Whatever is accepted at the front of a text is such a literal. */
  lemma LiteralOf(s: bytes) returns (us: seq<Unit>)
    requires ParseString(s).Done?
    ensures AllProper(us) && Balanced(TextOf(us))
    ensures s == [0x22] + TextOf(us) + [0x22] + ParseString(s).rest && ParseString(s).value == BeforeNul(BytesOf(us))
  {
    var k := LiteralEnd(s);
    us := UnitsOf(s[1..1 + k]);
    CStringIs(BytesOf(us));
  }

  // ----- printed strings -----

  /** The bytes with an escape of one letter when printed, and the letters. */
  const SHORT: map<byte, byte> :=
    map[0x22 := 0x22, 0x5c := 0x5c, 0x08 := 0x62, 0x0c := 0x66, 0x0a := 0x6e, 0x0d := 0x72, 0x09 := 0x74]

  /** Those get their letter, other bytes below 32 are `\u00` and two small digits, the rest are as they are. */
  lemma PrintedByte(b: byte)
    ensures EscapeByte(b)
         == if b in SHORT then [0x5c, SHORT[b]]
            else if b < 0x20 then [0x5c, 0x75, 0x30, 0x30, LOWER[b / 16], LOWER[b % 16]]
            else [b]
    ensures b in SHORT ==> SHORT[b] in ESCAPES && ESCAPES[SHORT[b]] == b
  {
    if b < 0x20 {
      assert HexDigit(b / 16) == LOWER[b / 16] && HexDigit(b % 16) == LOWER[b % 16];
    }
  }

  /** A printed string is its printed bytes in order. */
  lemma {:induction false} PrintedString(s: bytes, i: nat)
    requires i < |s|
    ensures Escape(s) == Escape(s[..i]) + EscapeByte(s[i]) + Escape(s[i + 1..])
  {
    hide EscapeByte;
    if i == 0 {
      assert s[..0] == [] && [] + EscapeByte(s[0]) == EscapeByte(s[0]);
    } else {
      PrintedString(s[1..], i - 1);
      assert s[..i][1..] == s[1..][..i - 1] && s[1..][i..] == s[i + 1..];
      Right4(EscapeByte(s[0]), Escape(s[1..][..i - 1]), EscapeByte(s[i]), Escape(s[i + 1..]));
      Right3(Escape(s[1..][..i - 1]), EscapeByte(s[i]), Escape(s[i + 1..]));
    }
  }
}
