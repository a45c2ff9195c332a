/** String literals: what printing writes and parsing reads back, and what a \u escape means. */
module JsonStrings {
  import opened Bytes
  import opened JsonValue
  import opened JsonGrammar
  import Utf8

  // ----- code points -----

  /** Four hexadecimal digits, in either case, for a 16-bit unit. */
  predicate IsUnit(s: bytes, u: nat) {
    |s| == 6 && s[0] == BACKSLASH && s[1] == 0x75 && AllHex(s[2..6]) && Hex4(s[2..6]) == u
  }

  /** The escapes section 7 of RFC 8259 gives a code point: one unit, or a surrogate pair. */
  predicate IsEscapeOf(s: bytes, c: nat)
    requires Utf8.IsScalar(c)
  {
    if c < 0x1_0000 then IsUnit(s, c)
    else
      && |s| == 12
      && IsUnit(s[..6], 0xd800 + (c - 0x1_0000) / 0x400)
      && IsUnit(s[6..], 0xdc00 + (c - 0x1_0000) % 0x400)
  }

  /** Every escape of a code point is read as that code point. */
  lemma Utf16Reads(s: bytes, c: nat, rest: bytes)
    requires Utf8.IsScalar(c) && IsEscapeOf(s, c)
    ensures Utf16(s + rest) == Some((c, |s|))
  {
    var t := s + rest;
    if c < 0x1_0000 {
      assert t[2..6] == s[2..6];
    } else {
      assert t[2..6] == s[..6][2..6];
      assert t[8..12] == s[6..][2..6];
      var d := c - 0x1_0000;
      assert d == 0x400 * (d / 0x400) + d % 0x400;
    }
  }

  /** A \u escape puts the UTF-8 form of its code point into the string. */
  lemma EscapeMeaning(s: bytes, c: nat, rest: bytes)
    requires Utf8.IsScalar(c) && IsEscapeOf(s, c)
    ensures Utf8.IsCharacter(Utf8.Encode(c)) && Utf8.CodePoint(Utf8.Encode(c)) == c
    ensures Unescape(s + rest) == Prepend(Utf8.Encode(c), Unescape(rest))
  {
    Utf8.EncodeDecodes(c);
    Utf16Reads(s, c, rest);
    var t := s + rest;
    assert t[0] == BACKSLASH && t[1] == 0x75;
    assert From(t, |s|) == rest;
  }

  /** The text goes on with an escape for a low surrogate. */
  predicate LowUnitNext(s: bytes) {
    |s| >= 6 && s[0] == BACKSLASH && s[1] == 0x75 && IsLowSurrogate(Hex4(s[2..6]))
  }

  /** A surrogate that is not half of a pair is rejected. */
  lemma LoneSurrogate(s: bytes, u: nat, rest: bytes)
    requires IsUnit(s, u) && 0xd800 <= u <= 0xdfff
    requires IsHighSurrogate(u) ==> !LowUnitNext(rest)
    ensures Unescape(s + rest) == None
  {
    var t := s + rest;
    assert t[2..6] == s[2..6];
    if |t| >= 12 {
      assert t[8..12] == rest[2..6];
    }
  }

  /** Malformed digits are not rejected: the six bytes are read as U+0000. */
  lemma MalformedIsNul(s: bytes)
    requires |s| >= 6 && s[0] == BACKSLASH && s[1] == 0x75 && !AllHex(s[2..6])
    ensures Unescape(s) == Prepend([0], Unescape(s[6..]))
  {
  }

  // ----- printing and reading back -----

  lemma HexDigitReads(n: nat)
    requires n < 16
    ensures IsHex(HexDigit(n)) && HexValue(HexDigit(n)) == n
  {
  }

  lemma ControlReads(b: byte, rest: bytes)
    requires 0 < b < 32
    ensures Unescape([BACKSLASH, 0x75, ZERO, ZERO, HexDigit(b / 16), HexDigit(b % 16)] + rest)
            == Prepend([b], Unescape(rest))
  {
    var t := [BACKSLASH, 0x75, ZERO, ZERO, HexDigit(b / 16), HexDigit(b % 16)] + rest;
    HexDigitReads(b / 16);
    HexDigitReads(b % 16);
    assert t[2..6] == [ZERO, ZERO, HexDigit(b / 16), HexDigit(b % 16)];
    hide HexDigit;
    hide HexValue;
    assert Utf16(t) == Some((b, 6)) && Utf8.Encode(b) == [b];
    hide Utf16;
    assert From(t, 6) == rest;
  }

  lemma LetterReads(b: byte, letter: byte, rest: bytes)
    requires letter != 0x75 && SimpleEscape(letter) == Some(b)
    ensures Unescape([BACKSLASH, letter] + rest) == Prepend([b], Unescape(rest))
  {
    hide SimpleEscape;
    hide Utf16;
    assert From([BACKSLASH, letter] + rest, 2) == rest;
  }

  lemma ByteReads(b: byte, rest: bytes)
    requires b != BACKSLASH
    ensures Unescape([b] + rest) == Prepend([b], Unescape(rest))
  {
    hide Utf16;
    assert ([b] + rest)[1..] == rest;
  }

  lemma EscapeByteReads(b: byte, rest: bytes)
    requires b != 0
    ensures Unescape(EscapeByte(b) + rest) == Prepend([b], Unescape(rest))
  {
    hide Unescape;
    hide HexDigit;
    var e := EscapeByte(b);
    if b > 31 && b != QUOTE && b != BACKSLASH {
      ByteReads(b, rest);
    } else if |e| == 2 {
      assert e == [BACKSLASH, e[1]];
      LetterReads(b, e[1], rest);
    } else {
      ControlReads(b, rest);
    }
  }

  lemma {:induction false} EscapeReads(s: bytes)
    requires NulFree(s)
    ensures Unescape(Escape(s)) == Some(s)
  {
    if s != [] {
      EscapeReads(s[1..]);
      EscapeByteReads(s[0], Escape(s[1..]));
      assert s == [s[0]] + s[1..];
    }
  }

  lemma CloseOne(b: byte, rest: bytes)
    requires b != QUOTE && b != BACKSLASH
    ensures CloseAt([b] + rest) == Later(1, CloseAt(rest))
  {
    assert From([b] + rest, 1) == rest;
  }

  lemma CloseTwo(b: byte, rest: bytes)
    ensures CloseAt([BACKSLASH, b] + rest) == Later(2, CloseAt(rest))
  {
    assert From([BACKSLASH, b] + rest, 2) == rest;
  }

  lemma CloseSix(h: byte, l: byte, rest: bytes)
    requires h != QUOTE && h != BACKSLASH && l != QUOTE && l != BACKSLASH
    ensures CloseAt([BACKSLASH, 0x75, ZERO, ZERO, h, l] + rest) == Later(6, CloseAt(rest))
  {
    hide CloseAt;
    var r1 := [l] + rest;
    var r2 := [h] + r1;
    var r3 := [ZERO] + r2;
    CloseOne(l, rest);
    CloseOne(h, r1);
    CloseOne(ZERO, r2);
    CloseOne(ZERO, r3);
    CloseTwo(0x75, [ZERO] + r3);
    assert [BACKSLASH, 0x75, ZERO, ZERO, h, l] + rest == [BACKSLASH, 0x75] + ([ZERO] + r3);
  }

  /** The first pass steps over a printed byte as a whole. */
  lemma EscapeByteCloses(b: byte, rest: bytes)
    ensures CloseAt(EscapeByte(b) + rest) == Later(|EscapeByte(b)|, CloseAt(rest))
  {
    var e := EscapeByte(b);
    hide CloseAt;
    if |e| == 6 {
      CloseSix(HexDigit(b / 16), HexDigit(b % 16), rest);
    } else if |e| == 2 {
      CloseTwo(e[1], rest);
    } else {
      CloseOne(b, rest);
    }
  }

  lemma EscapeOne(s: bytes)
    requires s != []
    ensures Escape(s) == EscapeByte(s[0]) + Escape(s[1..])
  {
  }

  lemma ClosesNow(t: bytes)
    requires t != [] && t[0] == QUOTE
    ensures CloseAt(Escape([]) + t) == Some(0) && Escape([]) == []
  {
    assert Escape([]) + t == t;
  }

  lemma {:induction false} EscapeClosesBefore(s: bytes, t: bytes)
    requires t != [] && t[0] == QUOTE
    ensures CloseAt(Escape(s) + t) == Some(|Escape(s)|)
  {
    hide CloseAt;
    hide EscapeByte;
    hide Escape;
    if s == [] {
      ClosesNow(t);
    } else {
      var e, more := EscapeByte(s[0]), Escape(s[1..]);
      EscapeOne(s);
      EscapeClosesBefore(s[1..], t);
      EscapeByteCloses(s[0], more + t);
      Right3(e, more, t);
    }
  }

  lemma EscapeCloses(s: bytes, rest: bytes)
    ensures CloseAt(Escape(s) + [QUOTE] + rest) == Some(|Escape(s)|)
  {
    hide CloseAt;
    hide Escape;
    Right3(Escape(s), [QUOTE], rest);
    EscapeClosesBefore(s, [QUOTE] + rest);
  }

  /** A printed string is read back as itself. */
  lemma QuotedReads(s: bytes, rest: bytes)
    requires NulFree(s)
    ensures ParseString(Quoted(s) + rest) == Done(s, rest)
  {
    hide Escape;
    hide CloseAt;
    hide Unescape;
    hide CString;
    var t := Quoted(s) + rest;
    var k := |Escape(s)|;
    assert t[1..] == Escape(s) + [QUOTE] + rest;
    EscapeCloses(s, rest);
    StringAt(t, k);
    hide ParseString;
    assert t[1..1 + k] == Escape(s);
    EscapeReads(s);
    assert t[k + 2..] == rest;
  }
}
