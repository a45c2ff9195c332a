/** UTF-8 by its own definition (section 3 and section 4 of RFC 3629), and an encoder that meets it. */
module Utf8 {
  import opened Bytes

  predicate IsTail(b: byte) {
    0x80 <= b <= 0xbf
  }

  /** The grammar of one character: UTF8-1, UTF8-2, UTF8-3 and UTF8-4. */
  predicate IsCharacter(s: bytes) {
    || (|s| == 1 && s[0] <= 0x7f)
    || (|s| == 2 && 0xc2 <= s[0] <= 0xdf && IsTail(s[1]))
    || (|s| == 3 && IsTail(s[2])
        && ((s[0] == 0xe0 && 0xa0 <= s[1] <= 0xbf)
            || (0xe1 <= s[0] <= 0xec && IsTail(s[1]))
            || (s[0] == 0xed && 0x80 <= s[1] <= 0x9f)
            || (0xee <= s[0] <= 0xef && IsTail(s[1]))))
    || (|s| == 4 && IsTail(s[2]) && IsTail(s[3])
        && ((s[0] == 0xf0 && 0x90 <= s[1] <= 0xbf)
            || (0xf1 <= s[0] <= 0xf3 && IsTail(s[1]))
            || (s[0] == 0xf4 && 0x80 <= s[1] <= 0x8f)))
  }

  function Two(a: int, b: int): int {
    (a - 0xc0) * 0x40 + (b - 0x80)
  }

  function Three(a: int, b: int, c: int): int {
    (a - 0xe0) * 0x1000 + (b - 0x80) * 0x40 + (c - 0x80)
  }

  function Four(a: int, b: int, c: int, d: int): int {
    (a - 0xf0) * 0x4_0000 + (b - 0x80) * 0x1000 + (c - 0x80) * 0x40 + (d - 0x80)
  }

  /** The code point a character stands for. */
  function CodePoint(s: bytes): int
    requires IsCharacter(s)
  {
    if |s| == 1 then s[0]
    else if |s| == 2 then Two(s[0], s[1])
    else if |s| == 3 then Three(s[0], s[1], s[2])
    else Four(s[0], s[1], s[2], s[3])
  }

  lemma Ranges(s: bytes)
    requires IsCharacter(s)
    ensures |s| == 1 ==> 0 <= CodePoint(s) < 0x80
    ensures |s| == 2 ==> 0x80 <= CodePoint(s) < 0x800
    ensures |s| == 3 ==> 0x800 <= CodePoint(s) < 0x1_0000
    ensures |s| == 4 ==> 0x1_0000 <= CodePoint(s) <= 0x10_ffff
  {
  }

  /** A code point has one UTF-8 form only. */
  lemma Unique(s: bytes, t: bytes)
    requires IsCharacter(s) && IsCharacter(t) && CodePoint(s) == CodePoint(t)
    ensures s == t
  {
    Ranges(s);
    Ranges(t);
    assert 1 <= |s| <= 4;
    if |s| == 2 {
      assert s[0] == t[0];
    } else if |s| == 3 {
      assert s[0] == t[0];
      assert s[1] == t[1];
    } else if |s| == 4 {
      assert s[0] == t[0];
      assert s[1] == t[1];
      assert s[2] == t[2];
    }
  }

  /** Scalar values: no surrogates. */
  predicate IsScalar(c: int) {
    0 <= c <= 0x10ffff && !(0xd800 <= c <= 0xdfff)
  }

  /** The bytes written for a code point. */
  function Encode(c: nat): (s: bytes)
    requires c <= 0x10ffff
    ensures |s| == if c < 0x80 then 1 else if c < 0x800 then 2 else if c < 0x1_0000 then 3 else 4
  {
    if c < 0x80 then [c]
    else if c < 0x800 then [0xc0 + c / 64, 0x80 + c % 64]
    else if c < 0x1_0000 then [0xe0 + c / 64 / 64, 0x80 + c / 64 % 64, 0x80 + c % 64]
    else [0xf0 + c / 64 / 64 / 64, 0x80 + c / 64 / 64 % 64, 0x80 + c / 64 % 64, 0x80 + c % 64]
  }

  lemma EncodeDecodes(c: nat)
    requires IsScalar(c)
    ensures IsCharacter(Encode(c)) && CodePoint(Encode(c)) == c
  {
    var q := c / 64;
    assert c == 64 * q + c % 64;
    assert q == 64 * (q / 64) + q % 64;
    if c >= 0x1_0000 {
      var r := q / 64;
      assert r == 64 * (r / 64) + r % 64;
    }
  }

  /** The bytes written for a scalar value are its UTF-8 form, the only one there is. */
  lemma EncodeIsUtf8(c: nat)
    requires IsScalar(c)
    ensures IsCharacter(Encode(c)) && CodePoint(Encode(c)) == c
    ensures forall s :: IsCharacter(s) && CodePoint(s) == c ==> s == Encode(c)
  {
    EncodeDecodes(c);
    forall s | IsCharacter(s) && CodePoint(s) == c
      ensures s == Encode(c)
    {
      Unique(s, Encode(c));
    }
  }

  /** The characters of the examples in section 7 of RFC 3629, and A. */
  lemma Examples()
    ensures Encode(0x41) == [0x41] && Encode(0x391) == [0xce, 0x91] && Encode(0x2262) == [0xe2, 0x89, 0xa2]
    ensures Encode(0xd55c) == [0xed, 0x95, 0x9c] && Encode(0x8a9e) == [0xe8, 0xaa, 0x9e]
    ensures Encode(0x233b4) == [0xf0, 0xa3, 0x8e, 0xb4]
  {
  }
}
