/**
 Numbers: the numerals strtod reads, by their parts, with their exact values. The parser takes those that begin
 with a minus sign or a digit and are at most 63 characters long.
 */
module JsonNumerals {
  import opened Bytes
  import opened JsonGrammar
  import opened JsonValue

  predicate Decimals(ds: bytes) {
    forall i :: 0 <= i < |ds| ==> 0x30 <= ds[i] <= 0x39
  }

  predicate Sign(s: bytes) {
    s == [] || s == [0x2b] || s == [0x2d]
  }

  /** Sign, digits, a point with more digits, and an exponent: the letter, its sign and its digits. */
  datatype Numeral =
    Numeral(sign: bytes, whole: bytes, point: bool, fraction: bytes, letter: bytes, esign: bytes, power: bytes)

  predicate Proper(n: Numeral) {
    && Sign(n.sign) && Decimals(n.whole) && Decimals(n.fraction) && |n.whole| + |n.fraction| > 0
    && (n.point || n.fraction == [])
    && if n.letter == [] then n.esign == n.power == []
       else (n.letter == [0x65] || n.letter == [0x45]) && Sign(n.esign) && Decimals(n.power) && n.power != []
  }

  function Tail(n: Numeral): bytes {
    n.letter + (n.esign + n.power)
  }

  function Point(n: Numeral): bytes {
    if n.point then [0x2e] else []
  }

  function Spelled(n: Numeral): bytes {
    n.sign + (n.whole + (Point(n) + (n.fraction + Tail(n))))
  }

  /** The number some digits stand for. */
  function Count(ds: bytes): nat
    requires Decimals(ds)
  {
    if ds == [] then 0 else 10 * Count(ds[..|ds| - 1]) + (ds[|ds| - 1] - 0x30)
  }

  function Tens(k: nat): (r: real)
    ensures r >= 1.0
  {
    if k == 0 then 1.0 else 10.0 * Tens(k - 1)
  }

  /** The power of ten behind the digits of the number. */
  function Shift(n: Numeral): int
    requires Proper(n)
  {
    var e: int := Count(n.power);
    (if n.esign == [0x2d] then -e else e) - |n.fraction|
  }

  /** `x` is the number without its sign. */
  predicate IsMagnitude(n: Numeral, x: real)
    requires Proper(n)
  {
    var m := Count(n.whole + n.fraction) as real;
    if Shift(n) >= 0 then x == m * Tens(Shift(n)) else x * Tens(-Shift(n)) == m
  }

  predicate IsValue(n: Numeral, v: real)
    requires Proper(n)
  {
    IsMagnitude(n, if n.sign == [0x2d] then -v else v)
  }

  // ----- spans -----

  lemma {:induction false} DigitsThen(ds: bytes, t: bytes)
    requires Decimals(ds) && (t == [] || !IsDigit(t[0]))
    ensures DigitSpan(ds + t) == |ds|
  {
    if ds == [] {
      assert ds + t == t;
    } else {
      DigitsThen(ds[1..], t);
      assert (ds + t)[1..] == ds[1..] + t;
    }
  }

  lemma {:induction false} CountIs(ds: bytes)
    requires Decimals(ds)
    ensures DigitsValue(ds) == Count(ds)
  {
    if ds != [] {
      CountIs(ds[..|ds| - 1]);
    }
  }

  lemma Regroup(x: real, y: real)
    ensures x * 10.0 * y == x * (10.0 * y) && x / 10.0 * (10.0 * y) == x * y
  {
  }

  lemma {:induction false} ScaleIs(x: real, e: int)
    ensures e >= 0 ==> Scale(x, e) == x * Tens(e)
    ensures e < 0 ==> Scale(x, e) * Tens(-e) == x
    decreases if e < 0 then -e else e
  {
    if e > 0 {
      ScaleIs(x * 10.0, e - 1);
      Regroup(x, Tens(e - 1));
    } else if e < 0 {
      ScaleIs(x / 10.0, e + 1);
      var r, y := Scale(x, e), Tens(-e - 1);
      assert r * y == x / 10.0 by {
        if e == -1 {
          assert y == 1.0 && r == x / 10.0;
        }
      }
      assert Tens(-e) == 10.0 * y;
      assert r * (10.0 * y) == 10.0 * (r * y);
    }
  }

  // ----- strtod -----

  /** The value strtod gives a numeral. */
  function ValueOf(n: Numeral): real
    requires Proper(n)
  {
    var m := Scale(Count(n.whole + n.fraction) as real, Shift(n));
    if n.sign == [0x2d] then -m else m
  }

  lemma ValueIs(n: Numeral)
    requires Proper(n)
    ensures IsValue(n, ValueOf(n))
  {
    hide Scale;
    hide Tens;
    hide Count;
    hide Shift;
    var m, e := Count(n.whole + n.fraction) as real, Shift(n);
    var x := Scale(m, e);
    ScaleIs(m, e);
    assert IsMagnitude(n, x);
    hide IsMagnitude;
    assert ValueOf(n) == (if n.sign == [0x2d] then -x else x);
  }

  lemma SignThen(sign: bytes, t: bytes)
    requires Sign(sign) && (t == [] || (t[0] != 0x2b && t[0] != 0x2d))
    ensures SignSpan(sign + t) == |sign| && (sign + t)[|sign|..] == t
    ensures |sign| == 1 && (sign + t)[0] == 0x2d <==> sign == [0x2d]
  {
  }

  lemma RunThen(ds: bytes, t: bytes)
    requires Decimals(ds) && (t == [] || !IsDigit(t[0]))
    ensures DigitSpan(ds + t) == |ds| && DigitRun(ds + t) == ds && (ds + t)[|ds|..] == t
  {
    DigitsThen(ds, t);
  }

  lemma OneThen(b: byte, t: bytes)
    ensures ([b] + t)[0] == b && ([b] + t)[1..] == t
  {
  }

  lemma Drop(s: bytes, p: nat, q: nat)
    requires p + q <= |s|
    ensures s[p..][q..] == s[p + q..] && s[p..][..q] == s[p..p + q]
  {
  }

  lemma ExponentCut(l: byte, esign: bytes, power: bytes)
    requires Sign(esign) && Decimals(power) && power != []
    ensures var (s, k) := ([l] + (esign + power), |esign|);
            && s[0] == l && SignSpan(s[1..]) == k && DigitSpan(s[1 + k..]) == |power|
            && s[1 + k..1 + k + |power|] == power && (k == 1 && s[1] == 0x2d <==> esign == [0x2d])
  {
    hide DigitSpan;
    hide SignSpan;
    var t, none: bytes := esign + power, [];
    var s, k := [l] + t, |esign|;
    OneThen(l, t);
    SignThen(esign, power);
    assert power + none == power;
    RunThen(power, none);
    Drop(s, 1, k);
    Drop(s, 1 + k, |power|);
    assert k == 1 ==> s[1] == t[0];
  }

  lemma ExponentFrom(s: bytes, g: nat, power: bytes)
    requires s != [] && (s[0] == 0x65 || s[0] == 0x45) && SignSpan(s[1..]) == g && Decimals(power)
    requires power != [] && DigitSpan(s[1 + g..]) == |power| && s[1 + g..1 + g + |power|] == power
    ensures var e: int := DigitsValue(power);
            Exponent(s) == (1 + g + |power|, if g == 1 && s[1] == 0x2d then -e else e)
  {
    hide DigitSpan;
    hide DigitsValue;
  }

  lemma ExponentReads(n: Numeral)
    requires Proper(n) && n.letter != []
    ensures Exponent(Tail(n)) == (|Tail(n)|, Shift(n) + |n.fraction|)
  {
    hide Exponent;
    hide Count;
    CountIs(n.power);
    var l := n.letter[0];
    assert n.letter == [l] && Tail(n) == [l] + (n.esign + n.power);
    ExponentCut(l, n.esign, n.power);
    ExponentFrom(Tail(n), |n.esign|, n.power);
  }

  /** Where the digits of the number end, and what is behind them. */
  lemma Cut(sign: bytes, whole: bytes, rest: bytes)
    requires Sign(sign) && Decimals(whole) && (rest == [] || !IsDigit(rest[0]))
    requires whole == [] ==> rest != [] && rest[0] == 0x2e
    ensures var (s, p) := (sign + (whole + rest), |sign| + |whole|);
            && SignSpan(s) == |sign| && DigitSpan(s[|sign|..]) == |whole| && DigitRun(s[|sign|..]) == whole
            && p <= |s| && s[p..] == rest && (p < |s| <==> rest != []) && (rest != [] ==> s[p] == rest[0])
            && (|sign| == 1 && s[0] == 0x2d <==> sign == [0x2d])
  {
    hide DigitSpan;
    hide DigitRun;
    hide SignSpan;
    var t := whole + rest;
    var s, p := sign + t, |sign| + |whole|;
    assert t != [] && (whole == [] ==> t[0] == rest[0]) && (whole != [] ==> t[0] == whole[0]);
    SignThen(sign, t);
    RunThen(whole, rest);
    assert s[p..] == t[|whole|..];
    assert rest != [] ==> s[p] == rest[0];
  }

  /** The digits behind a point: how many, where they end, and which. */
  function Behind(rest: bytes): (nat, nat, bytes) {
    if rest != [] && rest[0] == 0x2e then
      var b := DigitSpan(rest[1..]);
      (b, 1 + b, DigitRun(rest[1..]))
    else (0, 0, [])
  }

  lemma StrtodFrom(s: bytes, g: nat, a: nat, rest: bytes)
    requires SignSpan(s) == g && g + a <= |s| && DigitSpan(s[g..]) == a && s[g + a..] == rest
    ensures var (b, end, run) := Behind(rest);
            end <= |rest| && forall i :: 0 <= i < |DigitRun(s[g..]) + run| ==> IsDigit((DigitRun(s[g..]) + run)[i])
    ensures var (b, end, run) := Behind(rest);
            var (x, e) := Exponent(rest[end..]);
            var v := Scale(DigitsValue(DigitRun(s[g..]) + run) as real, e - b);
            (Strtod(s) == if a + b == 0 then (0, 0.0) else (g + a + end + x, if g == 1 && s[0] == 0x2d then -v else v))
  {
    hide DigitSpan;
    hide DigitRun;
    hide SignSpan;
    hide Exponent;
    hide Scale;
    hide DigitsValue;
    var p := g + a;
    assert p < |s| ==> s[p] == rest[0];
    if rest != [] && rest[0] == 0x2e {
      Drop(s, p, 1);
      Drop(s, p, 1 + DigitSpan(rest[1..]));
    } else {
      Drop(s, p, 0);
      assert DigitRun(s[g..]) + [] == DigitRun(s[g..]);
    }
  }

  /** strtod behind sign and digits. */
  lemma StrtodBehind(sign: bytes, whole: bytes, rest: bytes)
    requires Sign(sign) && Decimals(whole) && (rest == [] || !IsDigit(rest[0]))
    requires whole == [] ==> rest != [] && rest[0] == 0x2e
    ensures var (b, end, run) := Behind(rest);
            end <= |rest| && forall i :: 0 <= i < |whole + run| ==> IsDigit((whole + run)[i])
    ensures var (b, end, run) := Behind(rest);
            var (x, e) := Exponent(rest[end..]);
            var v := Scale(DigitsValue(whole + run) as real, e - b);
            (Strtod(sign + (whole + rest))
             == if |whole| + b == 0 then (0, 0.0)
                else (|sign| + |whole| + end + x, if sign == [0x2d] then -v else v))
  {
    hide DigitSpan;
    hide DigitRun;
    hide SignSpan;
    hide Exponent;
    hide Scale;
    hide DigitsValue;
    hide Behind;
    hide Strtod;
    Cut(sign, whole, rest);
    StrtodFrom(sign + (whole + rest), |sign|, |whole|, rest);
  }

  /** What is behind the digits of the number, where strtod looks for it. */
  lemma RestParts(n: Numeral)
    requires Proper(n)
    ensures var rest := Point(n) + (n.fraction + Tail(n));
            && (rest == [] || !IsDigit(rest[0]))
            && (rest != [] && rest[0] == 0x2e <==> n.point)
            && (n.point ==> DigitSpan(rest[1..]) == |n.fraction| && DigitRun(rest[1..]) == n.fraction)
            && rest[if n.point then 1 + |n.fraction| else 0..] == Tail(n)
            && Exponent(Tail(n)) == (|Tail(n)|, Shift(n) + |n.fraction|)
  {
    TailFirst(n);
    if n.letter == [] {
      NoExponent(n);
    } else {
      ExponentReads(n);
    }
    hide Tail;
    hide Exponent;
    var more, none: bytes := n.fraction + Tail(n), [];
    if n.point {
      OneThen(0x2e, more);
      RunThen(n.fraction, Tail(n));
      assert ([0x2e] + more)[1 + |n.fraction|..] == more[|n.fraction|..];
    } else {
      assert none + (none + Tail(n)) == Tail(n);
    }
  }

  /** strtod reads a numeral to its end. */
  lemma StrtodReads(n: Numeral)
    requires Proper(n)
    ensures Strtod(Spelled(n)) == (|Spelled(n)|, ValueOf(n))
  {
    hide Strtod;
    hide DigitRun;
    hide DigitSpan;
    hide DigitsValue;
    hide Exponent;
    hide Scale;
    hide Count;
    hide Tail;
    var rest := Point(n) + (n.fraction + Tail(n));
    RestParts(n);
    StrtodBehind(n.sign, n.whole, rest);
    CountIs(n.whole + n.fraction);
    assert n.whole + [] == n.whole;
  }

  lemma TailFirst(n: Numeral)
    requires Proper(n)
    ensures Tail(n) != [] ==> Tail(n)[0] == 0x65 || Tail(n)[0] == 0x45
  {
  }

  lemma NoExponent(n: Numeral)
    requires Proper(n) && n.letter == []
    ensures Tail(n) == [] && Exponent([]) == (0, 0) && Shift(n) == -|n.fraction|
  {
  }

  // ----- parse_number -----

  lemma {:induction false} AllCopied(x: bytes, rest: bytes, limit: nat)
    requires |x| <= limit && (forall i :: 0 <= i < |x| ==> IsNumberChar(x[i]))
    requires rest == [] || !IsNumberChar(rest[0])
    ensures NumberSpan(x + rest, limit) == |x|
    decreases limit
  {
    if x == [] {
      assert x + rest == rest;
    } else {
      assert (x + rest)[1..] == x[1..] + rest;
      AllCopied(x[1..], rest, limit - 1);
    }
  }

  predicate NumberChars(x: bytes) {
    forall i :: 0 <= i < |x| ==> IsNumberChar(x[i])
  }

  lemma NumberCharsBoth(x: bytes, y: bytes)
    requires NumberChars(x) && NumberChars(y)
    ensures NumberChars(x + y)
  {
  }

  lemma CharsOf(n: Numeral)
    requires Proper(n)
    ensures NumberChars(n.sign) && NumberChars(n.whole) && NumberChars(Point(n)) && NumberChars(n.fraction)
    ensures NumberChars(n.letter) && NumberChars(n.esign) && NumberChars(n.power)
  {
  }

  lemma SpelledChars(n: Numeral)
    requires Proper(n)
    ensures NumberChars(Spelled(n)) && Spelled(n) != []
  {
    hide NumberChars;
    CharsOf(n);
    NumberCharsBoth(n.esign, n.power);
    NumberCharsBoth(n.letter, n.esign + n.power);
    NumberCharsBoth(n.fraction, Tail(n));
    NumberCharsBoth(Point(n), n.fraction + Tail(n));
    NumberCharsBoth(n.whole, Point(n) + (n.fraction + Tail(n)));
    NumberCharsBoth(n.sign, n.whole + (Point(n) + (n.fraction + Tail(n))));
  }

  /** Every numeral of at most 63 characters is read to its end with its value, when no number character follows. */
  lemma NumeralReads(n: Numeral, rest: bytes)
    requires Proper(n) && |Spelled(n)| <= 63 && (rest == [] || !IsNumberChar(rest[0]))
    ensures IsValue(n, ValueOf(n)) && ParseNumber(Spelled(n) + rest) == Done(Number(ValueOf(n)), rest)
  {
    hide Spelled;
    hide Strtod;
    hide NumberSpan;
    ValueIs(n);
    SpelledChars(n);
    var s := Spelled(n);
    AllCopied(s, rest, 63);
    assert (s + rest)[..|s|] == s && (s + rest)[|s|..] == rest;
    StrtodReads(n);
  }

  // ----- the numeral that was read -----

  lemma {:induction false} RunIs(s: bytes)
    ensures Decimals(DigitRun(s)) && |DigitRun(s)| == DigitSpan(s) && s == DigitRun(s) + s[DigitSpan(s)..]
  {
  }

  lemma SignIs(s: bytes)
    ensures SignSpan(s) <= |s| && Sign(s[..SignSpan(s)])
    ensures SignSpan(s) == 1 && s[0] == 0x2d <==> s[..SignSpan(s)] == [0x2d]
  {
  }

  lemma ExponentShape(s: bytes)
    requires Exponent(s).0 > 0
    ensures s != [] && (s[0] == 0x65 || s[0] == 0x45)
    ensures var g := SignSpan(s[1..]);
            && 1 + g <= |s| && DigitSpan(s[1 + g..]) > 0 && Exponent(s).0 == 1 + g + DigitSpan(s[1 + g..])
            && DigitRun(s[1 + g..]) == s[1 + g..1 + g + DigitSpan(s[1 + g..])]
  {
  }

  function ExponentValue(esign: bytes, power: bytes): int
    requires Decimals(power)
  {
    var e: int := Count(power);
    if esign == [0x2d] then -e else e
  }

  lemma ExponentPower(s: bytes) returns (g: nat, power: bytes)
    requires Exponent(s).0 > 0
    ensures s != [] && (s[0] == 0x65 || s[0] == 0x45) && 1 + g + |power| <= |s| && Sign(s[1..][..g])
    ensures Decimals(power) && power != [] && power <= s[1 + g..]
    ensures Exponent(s) == (1 + g + |power|, ExponentValue(s[1..][..g], power))
  {
    ExponentShape(s);
    hide Exponent;
    hide DigitsValue;
    hide Count;
    g := SignSpan(s[1..]);
    SignIs(s[1..]);
    hide Sign;
    RunIs(s[1 + g..]);
    power := DigitRun(s[1 + g..]);
    ExponentFrom(s, g, power);
    CountIs(power);
  }

  lemma NoPower()
    ensures Sign([]) && ExponentValue([], []) == 0
  {
  }

  lemma ExponentNone(s: bytes)
    ensures Exponent(s).0 == 0 ==> Exponent(s).1 == 0
  {
  }

  lemma ThreeCut(s: bytes, g: nat, power: bytes)
    requires 1 + g + |power| <= |s| && power <= s[1 + g..]
    ensures [s[0]] + (s[1..][..g] + power) == s[..1 + g + |power|]
  {
    var k := |power|;
    Drop(s, 1, g);
    Drop(s, 1 + g, k);
    assert s[..1 + g + k] == [s[0]] + (s[1..1 + g] + s[1 + g..1 + g + k]);
  }

  /** The exponent at the front of some text, or none. */
  lemma ExponentOf(s: bytes) returns (letter: bytes, esign: bytes, power: bytes)
    ensures Proper(Numeral([], [0x30], false, [], letter, esign, power))
    ensures Exponent(s).0 <= |s| && letter + (esign + power) == s[..Exponent(s).0]
    ensures Exponent(s).1 == ExponentValue(esign, power)
  {
    hide Exponent;
    hide Sign;
    hide Count;
    ExponentNone(s);
    NoPower();
    letter, esign, power := [], [], [];
    if Exponent(s).0 > 0 {
      var g;
      g, power := ExponentPower(s);
      letter, esign := [s[0]], s[1..][..g];
      ThreeCut(s, g, power);
    }
  }

  lemma FrontOf(a: bytes, b: bytes, n: nat)
    requires n <= |b|
    ensures (a + b)[..|a| + n] == a + b[..n]
  {
  }

  lemma NumeralText(n: Numeral, rest: bytes)
    requires Tail(n) <= rest
    ensures var s := n.sign + (n.whole + (Point(n) + (n.fraction + rest)));
            |Spelled(n)| <= |s| && s[..|Spelled(n)|] == Spelled(n)
            && |Spelled(n)| == |n.sign| + (|n.whole| + (|Point(n)| + (|n.fraction| + |Tail(n)|)))
  {
    hide Tail;
    hide Point;
    var k := |Tail(n)|;
    var a := n.fraction + rest;
    var b := Point(n) + a;
    var c := n.whole + b;
    FrontOf(n.fraction, rest, k);
    FrontOf(Point(n), a, |n.fraction| + k);
    FrontOf(n.whole, b, |Point(n)| + (|n.fraction| + k));
    FrontOf(n.sign, c, |n.whole| + (|Point(n)| + (|n.fraction| + k)));
  }

  /** Sign, digits and what is behind them. */
  lemma FrontParts(s: bytes) returns (sign: bytes, whole: bytes, rest: bytes)
    ensures Sign(sign) && Decimals(whole) && s == sign + (whole + rest)
    ensures SignSpan(s) == |sign| && DigitSpan(s[|sign|..]) == |whole| && DigitRun(s[|sign|..]) == whole
    ensures s[|sign| + |whole|..] == rest && (|sign| == 1 && s[0] == 0x2d <==> sign == [0x2d])
  {
    var g := SignSpan(s);
    SignIs(s);
    hide SignSpan;
    RunIs(s[g..]);
    hide DigitSpan;
    sign, whole := s[..g], DigitRun(s[g..]);
    rest := s[g..][|whole|..];
    Drop(s, g, |whole|);
    assert s == s[..g] + s[g..];
  }

  lemma TailIs(n: Numeral)
    ensures Tail(n) == n.letter + (n.esign + n.power)
  {
  }

  lemma BehindIs(rest: bytes)
    ensures var (b, end, run) := Behind(rest);
            && end <= |rest| && Decimals(run) && |run| == b && end == (if end > 0 then 1 else 0) + b
            && rest == (if end > 0 then [0x2e] else []) + (run + rest[end..])
  {
    if rest != [] && rest[0] == 0x2e {
      RunIs(rest[1..]);
      assert rest == [0x2e] + rest[1..];
      Drop(rest, 1, DigitSpan(rest[1..]));
    } else {
      assert rest == [] + ([] + rest[0..]);
    }
  }

  /** What strtod read is a numeral. */
  lemma NumeralOf(s: bytes) returns (n: Numeral)
    requires Strtod(s).0 > 0
    ensures Proper(n) && Spelled(n) == s[..Strtod(s).0] && Strtod(s).1 == ValueOf(n)
  {
    hide Strtod;
    hide Exponent;
    hide Scale;
    hide DigitsValue;
    hide Count;
    hide SignSpan;
    hide DigitSpan;
    hide DigitRun;
    hide Behind;
    hide Spelled;
    hide Tail;
    hide Sign;
    var sign, whole, rest := FrontParts(s);
    StrtodFrom(s, |sign|, |whole|, rest);
    BehindIs(rest);
    var (b, end, run) := Behind(rest);
    var letter, esign, power := ExponentOf(rest[end..]);
    n := Numeral(sign, whole, end > 0, run, letter, esign, power);
    TailIs(n);
    CountIs(whole + run);
    NumeralText(n, rest[end..]);
  }

  /** A number that parse_number reads is a numeral of at most 63 characters, with its value. */
  lemma NumberOf(s: bytes) returns (n: Numeral)
    requires ParseNumber(s).Done?
    ensures Proper(n) && |Spelled(n)| <= 63 && s == Spelled(n) + ParseNumber(s).rest
    ensures ParseNumber(s).value == Number(ValueOf(n)) && IsValue(n, ValueOf(n))
  {
    hide Strtod;
    hide NumberSpan;
    hide IsValue;
    hide Spelled;
    hide Proper;
    hide ValueOf;
    var x := s[..NumberSpan(s, 63)];
    n := NumeralOf(x);
    ValueIs(n);
    var k := Strtod(x).0;
    assert x[..k] == s[..k] && s == s[..k] + s[k..];
  }

  // ----- printed numbers -----

  lemma {:induction false} DigitsAre(n: nat)
    ensures Decimals(Digits(n)) && Count(Digits(n)) == n && (n > 0 ==> Digits(n)[0] != 0x30)
    ensures n < 10 ==> |Digits(n)| == 1
  {
    var ds := Digits(n);
    if n >= 10 {
      DigitsAre(n / 10);
      assert ds[..|ds| - 1] == Digits(n / 10) && ds[0] == Digits(n / 10)[0];
    } else {
      assert ds[..0] == [];
    }
  }

  /** An integer is printed in decimal digits without leading zeros, behind a minus sign if it is negative. */
  lemma DecimalIs(i: int)
    ensures var s := Decimal(i);
            var ds := if i < 0 then s[1..] else s;
            && (i < 0 ==> s[0] == 0x2d) && Decimals(ds) && ds != [] && (|ds| > 1 ==> ds[0] != 0x30)
            && Count(ds) == if i < 0 then -i else i
  {
    DigitsAre(if i < 0 then -i else i);
    if i < 0 {
      assert Decimal(i)[1..] == Digits(-i);
    }
  }
}
