/** Bytes and small shared types. */
module Bytes {
  type byte = x: int | 0 <= x < 256

  type bytes = seq<byte>

  datatype Option<+T> = None | Some(value: T)

  // The range of int.
  const INT_MAX := 0x7fff_ffff
  const INT_MIN := -0x8000_0000

  /** A C string. */
  predicate NulFree(s: bytes) {
    forall i :: 0 <= i < |s| ==> s[i] != 0
  }

  predicate IsDigit(b: byte) {
    0x30 <= b <= 0x39
  }

  predicate IsHex(b: byte) {
    IsDigit(b) || 0x41 <= b <= 0x46 || 0x61 <= b <= 0x66
  }

  function HexValue(b: byte): (v: nat)
    requires IsHex(b)
    ensures v < 16
  {
    if IsDigit(b) then b - 0x30 else if b <= 0x46 then 10 + (b - 0x41) else 10 + (b - 0x61)
  }

  predicate AllHex(s: bytes) {
    forall i :: 0 <= i < |s| ==> IsHex(s[i])
  }

  // Concatenation read from the right.
  lemma Right3<T>(a: seq<T>, b: seq<T>, c: seq<T>)
    ensures a + b + c == a + (b + c)
  {
  }

  lemma Right4<T>(a: seq<T>, b: seq<T>, c: seq<T>, d: seq<T>)
    ensures a + b + c + d == a + (b + (c + d))
  {
  }

  lemma Right5<T>(a: seq<T>, b: seq<T>, c: seq<T>, d: seq<T>, e: seq<T>)
    ensures a + b + c + d + e == a + (b + (c + (d + e)))
  {
    Right4(a, b, c, d);
    Right3(c, d, e);
    Right3(b, c + d, e);
    Right3(a, b + (c + d), e);
  }
}
