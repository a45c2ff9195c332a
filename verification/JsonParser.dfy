/** The parser of `cJSON.c`: an offset moved over a NUL-terminated buffer, building linked nodes. */
module JsonParser {
  import opened Bytes
  import opened JsonValue
  import opened JsonGrammar
  import Bits
  import Utf8
  import opened JsonTree
  import opened JsonBuild

  // ----- escapes and the space they give back -----

  function Count(m: seq<bool>): nat {
    if m == [] then 0 else Count(m[..|m| - 1]) + if m[|m| - 1] then 1 else 0
  }

  /** Two neighbouring bytes do not both begin an escape, and an escape begins with a backslash. */
  ghost predicate Spaced(raw: bytes, m: seq<bool>) {
    && |m| == |raw|
    && (forall i :: 0 <= i < |raw| && m[i] ==> raw[i] == BACKSLASH)
    && (forall i :: 0 <= i && i + 1 < |raw| ==> !(m[i] && m[i + 1]))
  }

  lemma SpacedMore(raw: bytes, m: seq<bool>, more: bytes, escape: bool)
    requires Spaced(raw, m) && (m != [] ==> !m[|m| - 1])
    requires |more| == if escape then 2 else 1
    requires escape ==> more[0] == BACKSLASH
    ensures var m' := m + if escape then [true, false] else [false];
            Spaced(raw + more, m') && !m'[|m'| - 1] && Count(m') == Count(m) + if escape then 1 else 0
  {
    if escape {
      assert (m + [true, false])[..|m| + 1] == m + [true];
      assert (m + [true])[..|m|] == m;
    } else {
      assert (m + [false])[..|m|] == m;
    }
  }

  /** How many escapes begin before position `p`. */
  function Before(m: seq<bool>, p: nat): nat {
    Count(m[..if p < |m| then p else |m|])
  }

  lemma BeforeNext(m: seq<bool>, p: nat)
    requires p < |m|
    ensures Before(m, p + 1) == Before(m, p) + if m[p] then 1 else 0
  {
    assert m[..p + 1][..p] == m[..p];
  }

  lemma BeforeTwo(raw: bytes, m: seq<bool>, p: nat)
    requires Spaced(raw, m)
    ensures Before(m, p + 2) <= Before(m, p) + 1
  {
    if p < |m| {
      BeforeNext(m, p);
      if p + 1 < |m| {
        BeforeNext(m, p + 1);
      }
    }
  }

  /** Of `2 * k` bytes at most `k` begin an escape. */
  lemma {:induction false} BeforeMany(raw: bytes, m: seq<bool>, p: nat, k: nat)
    requires Spaced(raw, m)
    ensures Before(m, p + 2 * k) <= Before(m, p) + k
    decreases k
  {
    if k > 0 {
      BeforeMany(raw, m, p, k - 1);
      BeforeTwo(raw, m, p + 2 * (k - 1));
    }
  }

  /** Of the bytes from `p` to the end, not more than there are begin an escape. */
  lemma {:induction false} BeforeEnd(m: seq<bool>, p: nat)
    requires p <= |m|
    ensures Before(m, |m|) <= Before(m, p) + (|m| - p)
    decreases |m| - p
  {
    if p < |m| {
      BeforeNext(m, p);
      BeforeEnd(m, p + 1);
    }
  }

  // ----- hexadecimal digits and UTF-8 -----

  /** The value of the first `i` digits. */
  function HexPrefix(s: bytes, i: nat): (v: nat)
    requires i <= |s| && AllHex(s)
  {
    if i == 0 then 0 else 16 * HexPrefix(s, i - 1) + HexValue(s[i - 1])
  }

  lemma HexPrefixFour(s: bytes)
    requires |s| == 4 && AllHex(s)
    ensures HexPrefix(s, 4) == Hex4(s)
  {
    assert HexPrefix(s, 2) == 16 * HexPrefix(s, 1) + HexValue(s[1]);
  }

  lemma NotHex(s: bytes, i: nat)
    requires |s| == 4 && i < 4 && !IsHex(s[i])
    ensures Hex4(s) == 0
  {
  }

  function Shifted(c: nat, k: nat): nat {
    if k == 0 then c else Shifted(c, k - 1) / 64
  }

  /** The continuation byte for the six bits at `k`. */
  function Tail(c: nat, k: nat): (b: nat)
    ensures b < 0xc0
  {
    0x80 + Shifted(c, k) % 64
  }

  /** One round of the loop over continuation bytes. */
  lemma TailByte(codepoint: bv32, c: nat, k: nat)
    requires Bits.Value(codepoint) == Shifted(c, k)
    ensures Bits.Value(((codepoint | 0x80) & 0xbf) & 0xff) == Tail(c, k)
    ensures Bits.Value(codepoint >> 6) == Shifted(c, k + 1)
  {
    hide Bits.Value;
    Bits.Continuation(codepoint);
    Bits.ShiftSix(codepoint);
  }

  lemma ShiftedNot(c: nat)
    ensures Shifted(c, 0) == c
  {
  }

  lemma EncodeAt(c: nat)
    requires c <= 0x10ffff
    ensures var s := Utf8.Encode(c);
            var n := |s|;
            && s[0] == (if n == 1 then 0 else if n == 2 then 0xc0 else if n == 3 then 0xe0 else 0xf0)
              + Shifted(c, n - 1)
            && Shifted(c, n - 1) < (if n == 1 then 0x80 else if n == 2 then 0x20 else if n == 3 then 0x10 else 0x08)
            && forall j :: 1 <= j < n ==> s[j] == Tail(c, n - 1 - j)
  {
    assert Shifted(c, 1) == c / 64;
    assert Shifted(c, 2) == c / 64 / 64;
    assert Shifted(c, 3) == Shifted(c, 2) / 64;
  }

  /** The first byte of a character of `n` bytes, as the code computes it. */
  lemma LeadByte(c: bv32, n: nat)
    requires 1 <= n <= 4
    requires Bits.Value(c) < if n == 1 then 0x80 else if n == 2 then 0x20 else if n == 3 then 0x10 else 0x08
    ensures n == 1 ==> Bits.Value(c & 0x7f) == Bits.Value(c)
    ensures n == 2 ==> Bits.Value((c | 0xc0) & 0xff) == 0xc0 + Bits.Value(c)
    ensures n == 3 ==> Bits.Value((c | 0xe0) & 0xff) == 0xe0 + Bits.Value(c)
    ensures n == 4 ==> Bits.Value((c | 0xf0) & 0xff) == 0xf0 + Bits.Value(c)
  {
    hide Bits.Value;
    Bits.Compared(c);
    Bits.Lead(c);
  }

  lemma SubSlice(s: bytes, a: nat, b: nat, i: nat, j: nat)
    requires a <= b <= |s| && i <= j <= b - a
    ensures s[a..b][i..j] == s[a + i..a + j]
  {
    var t := s[a..b];
    assert forall k :: 0 <= k < |t| ==> t[k] == s[a + k];
    assert t[i..j] == s[a + i..a + j];
  }

  lemma FromSlice(s: bytes, a: nat, b: nat, n: nat)
    requires a <= b <= |s|
    ensures From(s[a..b], n) == if a + n <= b then s[a + n..b] else []
  {
    if a + n <= b {
      SubSlice(s, a, b, n, b - a);
      assert s[a..b][n..] == s[a..b][n..b - a];
    }
  }

  lemma SpanOfSlice(b: bytes, p: nat, e: nat, n: nat)
    requires p <= e < |b| && p + n <= e + 1 && n <= 63 && !IsNumberChar(b[e])
    requires forall k :: p <= k < p + n ==> IsNumberChar(b[k])
    requires n < 63 && p + n <= e ==> !IsNumberChar(b[p + n])
    ensures p + n <= e && n == NumberSpan(b[p..e], 63) && b[p..p + n] == b[p..e][..n]
  {
    hide IsNumberChar;
    var s := b[p..e];
    assert forall i :: 0 <= i < |s| ==> s[i] == b[p + i];
    SpanUnique(s, 63, n);
  }

  class ParseBuffer {
    const content: bytes
    const length: nat
    var offset: nat
    var depth: nat

    /** The buffer holds a C string with its terminator, which the offset never passes. */
    predicate Valid()
      reads this`offset
    {
      && 0 < length == |content|
      && content[length - 1] == 0
      && NulFree(content[..length - 1])
      && offset < length
    }

    constructor (text: bytes)
      requires NulFree(text)
      ensures Valid() && Remaining() == text && depth == 0 && content == text + [0] && offset == 0
    {
      content := text + [0];
      length := |text| + 1;
      offset, depth := 0, 0;
    }

    /** The text from position `e` on, without the terminator. */
    function TextFrom(e: nat): (s: bytes)
      requires e < length == |content|
      ensures |s| == length - 1 - e
      ensures s != [] ==> s[0] == content[e]
    {
      content[e..length - 1]
    }

    /** The text still to be read. */
    function Remaining(): bytes
      reads this`offset
      requires Valid()
    {
      TextFrom(offset)
    }

    lemma TextStep(e: nat, n: nat)
      requires e + n < length == |content|
      ensures TextFrom(e)[n..] == TextFrom(e + n)
    {
    }

    /** buffer_skip_whitespace: past the terminator it would step back onto it. */
    method SkipWhitespace()
      requires Valid()
      modifies this`offset
      ensures Valid() && Remaining() == SkipWs(old(Remaining()))
      ensures offset >= old(offset)
    {
      ghost var want := SkipWs(Remaining());
      while offset < length && content[offset] <= 32
        invariant old(offset) <= offset <= length
        invariant offset < length ==> SkipWs(TextFrom(offset)) == want
        invariant offset == length ==> want == []
        decreases length - offset
      {
        if offset < length - 1 {
          TextStep(offset, 1);
        }
        offset := offset + 1;
      }
      if offset == length {
        offset := offset - 1;
      }
    }

    /** parse_hex4. */
    method ParseHex4(at: nat) returns (h: bv32)
      requires at + 4 <= |content|
      ensures Bits.Value(h) == Hex4(content[at..at + 4])
    {
      hide Bits.Value;
      hide Bits.Nibble;
      hide Hex4;
      Bits.Constants();
      ghost var s := content[at..at + 4];
      h := 0;
      ghost var x := h;
      var i := 0;
      while i < 4
        invariant 0 <= i <= 4 && h == if i < 4 then x << 4 else x
        invariant if i == 0 then x == 0
                  else x < if i == 1 then 0x10 else if i == 2 then 0x100 else if i == 3 then 0x1000 else 0x1_0000
        invariant forall j :: 0 <= j < i ==> IsHex(s[j])
        invariant AllHex(s) ==> Bits.Value(x) == HexPrefix(s, i)
      {
        var b := content[at + i];
        assert b == s[i];
        var n: nat;
        if 0x30 <= b <= 0x39 {
          n := b - 0x30;
        } else if 0x41 <= b <= 0x46 {
          n := 10 + b - 0x41;
        } else if 0x61 <= b <= 0x66 {
          n := 10 + b - 0x61;
        } else {
          NotHex(s, i);
          return 0;
        }
        Bits.NibbleValue(n);
        Bits.JoinedValue(x, Bits.Nibble(n));
        Bits.JoinedBound(x, Bits.Nibble(n));
        h := h + Bits.Nibble(n);
        x := h;
        if i < 3 {
          h := h << 4;
        }
        i := i + 1;
      }
      HexPrefixFour(s);
    }

    /** utf16_literal_to_utf8: reads one escape or a pair, writes one UTF-8 character. */
    method Utf16ToUtf8(input: nat, inputEnd: nat, output: array<byte>, out: nat)
      returns (sequenceLength: nat, out': nat)
      requires input <= inputEnd <= |content|
      requires Utf16(content[input..inputEnd]).Some? ==>
                 out + |Utf8.Encode(Utf16(content[input..inputEnd]).value.0)| <= output.Length
      modifies output
      ensures match Utf16(content[input..inputEnd])
              case None => sequenceLength == 0 && out' == out && unchanged(output)
              case Some((c, n)) =>
                && sequenceLength == n
                && out' == out + |Utf8.Encode(c)|
                && output[..out] == old(output[..out])
                && output[out..out'] == Utf8.Encode(c)
    {
      hide Hex4;
      hide Utf8.Encode;
      hide Bits.Value;
      ghost var s := content[input..inputEnd];
      out' := out;
      if inputEnd - input < 6 {
        return 0, out;
      }
      SubSlice(content, input, inputEnd, 2, 6);
      var first := ParseHex4(input + 2);
      Bits.Compared(first);
      if 0xdc00 <= first <= 0xdfff {
        return 0, out;
      }
      var codepoint: bv32;
      if 0xd800 <= first <= 0xdbff {
        sequenceLength := 12;
        var secondSequence := input + 6;
        if inputEnd - secondSequence < 6 {
          return 0, out;
        }
        if content[secondSequence] != BACKSLASH || content[secondSequence + 1] != 0x75 {
          return 0, out;
        }
        SubSlice(content, input, inputEnd, 8, 12);
        var second := ParseHex4(secondSequence + 2);
        Bits.Compared(second);
        if second < 0xdc00 || second > 0xdfff {
          return 0, out;
        }
        codepoint := 0x1_0000 + (((first & 0x3ff) << 10) | (second & 0x3ff));
        Bits.SurrogatePair(first, second);
      } else {
        sequenceLength := 6;
        codepoint := first;
      }
      out' := WriteUtf8(codepoint, output, out);
    }

    /** The encoding part of utf16_literal_to_utf8: the last byte is written first. */
    method WriteUtf8(c: bv32, output: array<byte>, out: nat) returns (out': nat)
      requires Bits.Value(c) <= 0x10ffff && out + |Utf8.Encode(Bits.Value(c))| <= output.Length
      modifies output
      ensures out' == out + |Utf8.Encode(Bits.Value(c))|
      ensures output[..out] == old(output[..out]) && output[out..out'] == Utf8.Encode(Bits.Value(c))
    {
      hide Bits.Value;
      hide Shifted;
      hide Tail;
      var codepoint := c;
      var utf8Length, firstByteMark: bv32;
      Bits.Compared(c);
      if codepoint < 0x80 {
        utf8Length, firstByteMark := 1, 0;
      } else if codepoint < 0x800 {
        utf8Length, firstByteMark := 2, 0xc0;
      } else if codepoint < 0x1_0000 {
        utf8Length, firstByteMark := 3, 0xe0;
      } else {
        utf8Length, firstByteMark := 4, 0xf0;
      }
      ghost var v := Bits.Value(c);
      ghost var e := Utf8.Encode(v);
      EncodeAt(v);
      ShiftedNot(v);
      hide Utf8.Encode;
      var position := utf8Length - 1;
      while position > 0
        invariant 0 <= position < utf8Length
        invariant Bits.Value(codepoint) == Shifted(v, utf8Length - 1 - position)
        invariant forall j :: position < j < utf8Length ==> output[out + j] == e[j]
        invariant output[..out] == old(output[..out])
      {
        TailByte(codepoint, v, utf8Length - 1 - position);
        output[out + position] := Bits.Value(((codepoint | 0x80) & 0xbf) & 0xff);
        codepoint := codepoint >> 6;
        position := position - 1;
      }
      LeadByte(codepoint, utf8Length);
      output[out] := Bits.Value(if utf8Length > 1 then (codepoint | firstByteMark) & 0xff else codepoint & 0x7f);
      out' := out + utf8Length;
      assert forall j :: 0 <= j < utf8Length ==> output[out + j] == e[j];
    }

    /** What the first pass knows at position `e`: the escapes so far, `skipped` of them. */
    ghost predicate Passed(start: nat, e: nat, m: seq<bool>, skipped: nat) {
      && start <= e <= |content|
      && Spaced(content[start..e], m) && Count(m) == skipped
      && (m != [] ==> !m[|m| - 1])
    }

    lemma PassedMore(start: nat, e: nat, m: seq<bool>, skipped: nat)
      requires Passed(start, e, m, skipped) && e < |content|
      requires content[e] == BACKSLASH ==> e + 1 < |content|
      ensures content[e] == BACKSLASH ==> Passed(start, e + 2, m + [true, false], skipped + 1)
      ensures content[e] != BACKSLASH ==> Passed(start, e + 1, m + [false], skipped)
    {
      var n := if content[e] == BACKSLASH then 2 else 1;
      SpacedMore(content[start..e], m, content[e..e + n], content[e] == BACKSLASH);
      assert content[start..e] + content[e..e + n] == content[start..e + n];
    }

    lemma CloseHere(e: nat)
      requires Valid() && e < length && content[e] == QUOTE
      ensures e < length - 1 && CloseAt(TextFrom(e)) == Some(0)
    {
    }

    lemma PassedNothing(start: nat)
      requires start <= |content|
      ensures Passed(start, start, [], 0)
    {
    }

    lemma CloseStep(e: nat)
      requires 0 < length == |content| && e < length && content[e] != QUOTE
      ensures content[e] == BACKSLASH ==>
                CloseAt(TextFrom(e)) == if e + 2 < length then Later(2, CloseAt(TextFrom(e + 2))) else None
      ensures content[e] != BACKSLASH ==>
                CloseAt(TextFrom(e)) == if e + 1 < length then Later(1, CloseAt(TextFrom(e + 1))) else None
    {
      FromSlice(content, e, length - 1, 1);
      FromSlice(content, e, length - 1, 2);
    }

    /** The first pass of parse_string: the closing quote, the escapes before it, and where they begin. */
    method FindClose(start: nat) returns (ok: bool, inputEnd: nat, skipped: nat, ghost m: seq<bool>)
      requires Valid() && start <= length - 1
      ensures ok == CloseAt(TextFrom(start)).Some?
      ensures ok ==> inputEnd == start + CloseAt(TextFrom(start)).value < length - 1 && content[inputEnd] == QUOTE
      ensures ok ==> Passed(start, inputEnd, m, skipped)
    {
      hide Passed;
      hide TextFrom;
      hide CloseAt;
      PassedNothing(start);
      ghost var want := CloseAt(TextFrom(start));
      inputEnd, skipped, m, ok := start, 0, [], false;
      while inputEnd < length && content[inputEnd] != QUOTE
        invariant start <= inputEnd <= length
        invariant inputEnd < length ==> want == Later(inputEnd - start, CloseAt(TextFrom(inputEnd)))
        invariant Passed(start, inputEnd, m, skipped)
        invariant inputEnd == length ==> want == None
        decreases length - inputEnd
      {
        CloseStep(inputEnd);
        if content[inputEnd] == BACKSLASH {
          if inputEnd + 1 >= length {
            return;
          }
          PassedMore(start, inputEnd, m, skipped);
          m := m + [true, false];
          skipped := skipped + 1;
          inputEnd := inputEnd + 1;
        } else {
          PassedMore(start, inputEnd, m, skipped);
          m := m + [false];
        }
        inputEnd := inputEnd + 1;
      }
      if inputEnd < length {
        CloseHere(inputEnd);
      }
      ok := inputEnd < length;
    }

    /** The bytes of the literal from `p` on. */
    function Raw(p: nat, inputEnd: nat): (r: bytes)
      requires inputEnd <= |content|
      ensures |r| == if p <= inputEnd then inputEnd - p else 0
    {
      if p <= inputEnd then content[p..inputEnd] else []
    }

    /** One step of the second pass, on the specification. */
    lemma UnescapeStep(p: nat, e: nat)
      requires p < e < |content| && content[e] == QUOTE
      ensures content[p] != BACKSLASH ==> Unescape(Raw(p, e)) == Prepend([content[p]], Unescape(Raw(p + 1, e)))
      ensures content[p] == BACKSLASH && content[p + 1] == 0x75 ==>
                match Utf16(Raw(p, e))
                case None => Unescape(Raw(p, e)) == None
                case Some((c, n)) => Unescape(Raw(p, e)) == Prepend(Utf8.Encode(c), Unescape(Raw(p + n, e)))
      ensures content[p] == BACKSLASH && content[p + 1] != 0x75 ==>
                match SimpleEscape(content[p + 1])
                case None => Unescape(Raw(p, e)) == None
                case Some(x) => Unescape(Raw(p, e)) == Prepend([x], Unescape(Raw(p + 2, e)))
    {
      var s := content[p..e];
      assert s[0] == content[p];
      assert |s| >= 2 ==> s[1] == content[p + 1];
      assert s[1..] == content[p + 1..e];
      FromSlice(content, p, e, 2);
      if content[p] == BACKSLASH && content[p + 1] == 0x75 && Utf16(s).Some? {
        FromSlice(content, p, e, Utf16(s).value.1);
      }
    }

    /** No more bytes are written up to position `p` than the first pass has left room for. */
    ghost predicate Fits(m: seq<bool>, start: nat, p: nat, out: nat) {
      start <= p && out + Before(m, p - start) <= p - start
    }

    /** How the room moves with one step: one byte for one, one for two, three for six, four for twelve. */
    lemma FitsMore(m: seq<bool>, start: nat, inputEnd: nat, p: nat, out: nat, n: nat, k: nat)
      requires start <= p < inputEnd <= |content| && Spaced(content[start..inputEnd], m) && Fits(m, start, p, out)
      requires (n == 1 && k == 1 && content[p] != BACKSLASH) || (n == 2 && k == 1) || (n == 6 && k <= 3)
               || (n == 12 && k <= 4)
      ensures Fits(m, start, p + n, out + k)
    {
      var raw := content[start..inputEnd];
      var q := p - start;
      if n == 1 {
        assert raw[q] == content[p];
        BeforeNext(m, q);
      } else {
        BeforeMany(raw, m, q, n / 2);
      }
    }

    /** While the literal lasts there is room for what a step writes, and at its end for the terminator. */
    lemma Room(m: seq<bool>, start: nat, inputEnd: nat, p: nat, out: nat)
      requires start <= inputEnd && |m| == inputEnd - start && p <= inputEnd + 1 && Fits(m, start, p, out)
      ensures out + Count(m) <= inputEnd - start + 1
      ensures p <= inputEnd ==> out + Count(m) <= inputEnd - start
    {
      assert m[..|m|] == m;
      if p <= inputEnd {
        BeforeEnd(m, p - start);
      }
    }

    lemma PrependMore(x: bytes, y: bytes, o: Option<bytes>)
      ensures Prepend(x, Prepend(y, o)) == Prepend(x + y, o)
    {
      if o.Some? {
        assert x + (y + o.value) == (x + y) + o.value;
      }
    }

    /**
     The second pass of parse_string. Every write stays inside an output of exactly the size the first
     pass computed, also when malformed digits make the two passes see different escapes.
     */
    method SecondPass(start: nat, inputEnd: nat, output: array<byte>, ghost m: seq<bool>, skipped: nat)
      returns (ok: bool, out: nat, p: nat)
      requires Valid() && Passed(start, inputEnd, m, skipped)
      requires inputEnd < length && content[inputEnd] == QUOTE
      requires output.Length == inputEnd - start + 2 - skipped
      modifies output
      ensures ok == Unescape(Raw(start, inputEnd)).Some?
      ensures ok ==> out < output.Length && output[..out] == Unescape(Raw(start, inputEnd)).value && output[out] == 0
      ensures start <= p <= inputEnd + 1
    {
      hide Unescape;
      hide Utf16;
      hide Before;
      hide Raw;
      hide Utf8.Encode;
      ghost var want := Unescape(Raw(start, inputEnd));
      p, out, ok := start, 0, false;
      FitsNothing(m, start);
      assert output[..0] == [];
      PrependNothing(want);
      while p < inputEnd
        invariant start <= p <= inputEnd + 1
        invariant Valid()
        invariant Fits(m, start, p, out) && out <= output.Length
        invariant want == Prepend(output[..out], Unescape(Raw(p, inputEnd)))
        invariant !ok
        decreases inputEnd + 1 - p
      {
        hide Fits;
        hide Prepend;
        UnescapeStep(p, inputEnd);
        ghost var soFar := output[..out];
        if content[p] != BACKSLASH {
          FitsMore(m, start, inputEnd, p, out, 1, 1);
          Room(m, start, inputEnd, p + 1, out + 1);
          output[out] := content[p];
          PrependMore(soFar, [content[p]], Unescape(Raw(p + 1, inputEnd)));
          assert output[..out + 1] == soFar + [content[p]];
          out := out + 1;
          p := p + 1;
        } else {
          var p', out';
          ok, p', out' := EscapeStep(p, start, inputEnd, output, out, m, skipped);
          if !ok {
            return;
          }
          ok := false;
          p, out := p', out';
        }
      }
      Room(m, start, inputEnd, p, out);
      EmptyRaw(p, inputEnd, output[..out]);
      output[out] := 0;
      ok := true;
    }

    lemma FitsNothing(m: seq<bool>, start: nat)
      ensures Fits(m, start, start, 0)
    {
      assert m[..0] == [];
    }

    lemma PrependNothing(o: Option<bytes>)
      ensures Prepend([], o) == o
    {
      if o.Some? {
        assert [] + o.value == o.value;
      }
    }

    lemma EmptyRaw(p: nat, e: nat, x: bytes)
      requires e <= p && e <= |content|
      ensures Prepend(x, Unescape(Raw(p, e))) == Some(x)
    {
      assert x + [] == x;
      assert Raw(p, e) == [];
    }

    /** One escape of the second pass. */
    method EscapeStep(p: nat, start: nat, inputEnd: nat, output: array<byte>, out: nat, ghost m: seq<bool>,
                      skipped: nat)
      returns (ok: bool, p': nat, out': nat)
      requires Valid() && Passed(start, inputEnd, m, skipped)
      requires start <= p < inputEnd < length && content[inputEnd] == QUOTE && content[p] == BACKSLASH
      requires output.Length == inputEnd - start + 2 - skipped
      requires Fits(m, start, p, out) && out <= output.Length
      modifies output
      ensures !ok ==> Unescape(Raw(p, inputEnd)) == None
      ensures ok ==> p < p' <= inputEnd + 1 && Fits(m, start, p', out') && out' <= output.Length
      ensures ok ==>
                Prepend(old(output[..out]), Unescape(Raw(p, inputEnd)))
                  == Prepend(output[..out'], Unescape(Raw(p', inputEnd)))
    {
      hide Unescape;
      hide Fits;
      hide Prepend;
      hide Raw;
      if content[p + 1] == 0x75 {
        ok, p', out' := UnicodeStep(p, start, inputEnd, output, out, m, skipped);
      } else {
        ok, p', out' := LetterStep(p, start, inputEnd, output, out, m, skipped);
      }
    }

    /** Where a `\u` escape leads, and that there is room for the character it stands for. */
    lemma UnicodeFacts(p: nat, start: nat, inputEnd: nat, soFar: bytes, out: nat, m: seq<bool>, skipped: nat)
      requires start <= p < inputEnd < |content| && content[inputEnd] == QUOTE
      requires content[p] == BACKSLASH && content[p + 1] == 0x75
      requires Passed(start, inputEnd, m, skipped) && Fits(m, start, p, out)
      ensures match Utf16(content[p..inputEnd])
              case None => Unescape(Raw(p, inputEnd)) == None
              case Some((c, n)) =>
                && 0 < n <= inputEnd - p
                && Fits(m, start, p + n, out + |Utf8.Encode(c)|)
                && out + |Utf8.Encode(c)| + skipped <= inputEnd - start
                && Prepend(soFar, Unescape(Raw(p, inputEnd)))
                  == Prepend(soFar + Utf8.Encode(c), Unescape(Raw(p + n, inputEnd)))
    {
      hide Utf16;
      hide Utf8.Encode;
      hide Unescape;
      hide Prepend;
      hide Fits;
      UnescapeStep(p, inputEnd);
      assert Raw(p, inputEnd) == content[p..inputEnd];
      hide Raw;
      var code := Utf16(content[p..inputEnd]);
      if code.Some? {
        var (c, n) := code.value;
        var k := |Utf8.Encode(c)|;
        assert (n == 6 && k <= 3) || (n == 12 && k <= 4);
        FitsMore(m, start, inputEnd, p, out, n, k);
        Room(m, start, inputEnd, p + n, out + k);
        PrependMore(soFar, Utf8.Encode(c), Unescape(Raw(p + n, inputEnd)));
      }
    }

    method UnicodeStep(p: nat, start: nat, inputEnd: nat, output: array<byte>, out: nat, ghost m: seq<bool>,
                       skipped: nat)
      returns (ok: bool, p': nat, out': nat)
      requires Valid() && Passed(start, inputEnd, m, skipped)
      requires start <= p < inputEnd < length && content[inputEnd] == QUOTE
      requires content[p] == BACKSLASH && content[p + 1] == 0x75
      requires output.Length == inputEnd - start + 2 - skipped
      requires Fits(m, start, p, out) && out <= output.Length
      modifies output
      ensures !ok ==> Unescape(Raw(p, inputEnd)) == None
      ensures ok ==> p < p' <= inputEnd + 1 && Fits(m, start, p', out') && out' <= output.Length
      ensures ok ==>
                Prepend(old(output[..out]), Unescape(Raw(p, inputEnd)))
                  == Prepend(output[..out'], Unescape(Raw(p', inputEnd)))
    {
      hide Unescape;
      hide Utf16;
      hide Passed;
      hide NulFree;
      UnicodeFacts(p, start, inputEnd, output[..out], out, m, skipped);
      hide Utf8.Encode;
      hide Fits;
      hide Prepend;
      ghost var soFar := output[..out];
      ok, p', out' := false, p, out;
      hide Raw;
      var sequenceLength;
      sequenceLength, out' := Utf16ToUtf8(p, inputEnd, output, out);
      if sequenceLength == 0 {
        return;
      }
      assert output[..out'] == soFar + output[out..out'];
      p' := p + sequenceLength;
      ok := true;
    }

    /** The byte for a one-letter escape. */
    method Letter(b: byte) returns (ok: bool, x: byte)
      ensures match SimpleEscape(b) case None => !ok case Some(y) => ok && x == y
    {
      ok := true;
      if b == 0x62 {
        x := BELL_B;
      } else if b == 0x66 {
        x := FORMFEED;
      } else if b == 0x6e {
        x := NEWLINE;
      } else if b == 0x72 {
        x := RETURN;
      } else if b == 0x74 {
        x := TAB;
      } else if b == QUOTE || b == BACKSLASH || b == SLASH {
        x := b;
      } else {
        return false, 0;
      }
    }

    /** The same for a one-letter escape. */
    lemma LetterFacts(p: nat, start: nat, inputEnd: nat, soFar: bytes, out: nat, m: seq<bool>, skipped: nat)
      requires start <= p < inputEnd < |content| && content[inputEnd] == QUOTE
      requires content[p] == BACKSLASH && content[p + 1] != 0x75
      requires Passed(start, inputEnd, m, skipped) && Fits(m, start, p, out)
      ensures match SimpleEscape(content[p + 1])
              case None => Unescape(Raw(p, inputEnd)) == None
              case Some(x) =>
                && Fits(m, start, p + 2, out + 1)
                && out + 1 + skipped <= inputEnd - start + 1
                && Prepend(soFar, Unescape(Raw(p, inputEnd))) == Prepend(soFar + [x], Unescape(Raw(p + 2, inputEnd)))
    {
      hide Unescape;
      hide Prepend;
      hide Fits;
      hide SimpleEscape;
      UnescapeStep(p, inputEnd);
      hide Raw;
      if SimpleEscape(content[p + 1]).Some? {
        FitsMore(m, start, inputEnd, p, out, 2, 1);
        Room(m, start, inputEnd, p + 2, out + 1);
        PrependMore(soFar, [SimpleEscape(content[p + 1]).value], Unescape(Raw(p + 2, inputEnd)));
      }
    }

    method LetterStep(p: nat, start: nat, inputEnd: nat, output: array<byte>, out: nat, ghost m: seq<bool>,
                      skipped: nat)
      returns (ok: bool, p': nat, out': nat)
      requires Valid() && Passed(start, inputEnd, m, skipped)
      requires start <= p < inputEnd < length && content[inputEnd] == QUOTE
      requires content[p] == BACKSLASH && content[p + 1] != 0x75
      requires output.Length == inputEnd - start + 2 - skipped
      requires Fits(m, start, p, out) && out <= output.Length
      modifies output
      ensures !ok ==> Unescape(Raw(p, inputEnd)) == None
      ensures ok ==> p < p' <= inputEnd + 1 && Fits(m, start, p', out') && out' <= output.Length
      ensures ok ==>
                Prepend(old(output[..out]), Unescape(Raw(p, inputEnd)))
                  == Prepend(output[..out'], Unescape(Raw(p', inputEnd)))
    {
      hide Unescape;
      hide SimpleEscape;
      hide Raw;
      hide Prepend;
      hide Fits;
      hide Passed;
      hide NulFree;
      ghost var soFar := output[..out];
      p', out' := p, out;
      LetterFacts(p, start, inputEnd, soFar, out, m, skipped);
      var x;
      ok, x := Letter(content[p + 1]);
      if !ok {
        return;
      }
      output[out] := x;
      assert output[..out + 1] == soFar + [x];
      out' := out + 1;
      p' := p + 2;
    }

    /** parse_string. When it fails the offset is where it stopped, possibly past the terminator. */
    method ParseString(item: Item) returns (ok: bool)
      requires Valid()
      modifies this`offset, item`kind, item`valuestring, item`val
      ensures match JsonGrammar.ParseString(old(Remaining()))
              case Fail => !ok
              case Done(t, rest) =>
                && ok && Valid() && Remaining() == rest
                && item.kind == KString && item.valuestring == Some(t) && item.val == String(t) && NulFree(t)
      ensures old(offset) < offset <= length
    {
      hide Unescape;
      hide CloseAt;
      hide TextFrom;
      hide Passed;
      hide Raw;
      hide NulFree;
      hide JsonGrammar.ParseString;
      if content[offset] != QUOTE {
        StringNot(offset);
        offset := offset + 1;
        return false;
      }
      QuoteInside(offset);
      var start := offset + 1;
      var inputEnd, skipped;
      ghost var m;
      ok, inputEnd, skipped, m := FindClose(start);
      StringIs(offset);
      if !ok {
        offset := start;
        return;
      }
      RoomForAll(start, inputEnd, m, skipped);
      var allocationLength := inputEnd - offset - skipped;
      var output := new byte[allocationLength + 1];
      var out, p;
      ok, out, p := SecondPass(start, inputEnd, output, m, skipped);
      if !ok {
        offset := p;
        return;
      }
      var text := CString(output[..out]);
      hide CString;
      item.kind := KString;
      item.valuestring := Some(text);
      item.val := String(text);
      offset := inputEnd + 1;
    }

    lemma StringNot(p: nat)
      requires Valid() && p < length && content[p] != QUOTE
      ensures JsonGrammar.ParseString(TextFrom(p)) == Fail
    {
    }

    lemma QuoteInside(p: nat)
      requires Valid() && p < length && content[p] == QUOTE
      ensures p < length - 1
    {
    }

    lemma RoomForAll(start: nat, inputEnd: nat, m: seq<bool>, skipped: nat)
      requires Passed(start, inputEnd, m, skipped)
      ensures skipped <= inputEnd - start
    {
      assert m[..|m|] == m;
      assert m[..0] == [];
      BeforeEnd(m, 0);
    }

    /** The grammar of a string at position `p`, in terms of the two passes. */
    lemma StringIs(p: nat)
      requires Valid() && p < length - 1 && content[p] == QUOTE
      ensures match CloseAt(TextFrom(p + 1))
              case None => JsonGrammar.ParseString(TextFrom(p)) == Fail
              case Some(k) =>
                && p + 2 + k < length
                && match Unescape(Raw(p + 1, p + 1 + k))
                   case None => JsonGrammar.ParseString(TextFrom(p)) == Fail
                   case Some(t) => JsonGrammar.ParseString(TextFrom(p)) == Done(CString(t), TextFrom(p + 2 + k))
    {
      hide Unescape;
      hide CloseAt;
      hide TextFrom;
      hide Raw;
      hide NulFree;
      TextStep(p, 1);
      var s := TextFrom(p);
      assert s[0] == QUOTE && s[1..] == TextFrom(p + 1);
      if CloseAt(TextFrom(p + 1)).Some? {
        var k := CloseAt(TextFrom(p + 1)).value;
        TextStep(p, k + 2);
        RawIs(p, p + 1, p + 1 + k);
        StringAt(s, k);
      }
    }

    lemma RawIs(p: nat, a: nat, b: nat)
      requires p <= a <= b < length == |content| && p < length
      ensures TextFrom(p)[a - p..b - p] == Raw(a, b)
    {
      SubSlice(content, p, length - 1, a - p, b - p);
    }

    /** The local copy of the number that parse_number makes. */
    method CopyNumber() returns (numberCString: array<byte>, i: nat)
      requires Valid()
      ensures fresh(numberCString) && numberCString.Length == 64
      ensures i == NumberSpan(Remaining(), 63) && numberCString[..i] == Remaining()[..i]
    {
      hide NumberSpan;
      hide IsNumberChar;
      numberCString := new byte[64];
      i := 0;
      while i < 63 && offset + i < length && IsNumberChar(content[offset + i])
        invariant 0 <= i <= 63 && offset + i <= length
        invariant numberCString[..i] == content[offset..offset + i]
        invariant forall k :: offset <= k < offset + i ==> IsNumberChar(content[k])
      {
        numberCString[i] := content[offset + i];
        assert numberCString[..i + 1] == numberCString[..i] + [content[offset + i]];
        i := i + 1;
      }
      SpanIs(offset, i);
    }

    /** parse_number, with strtod as its function. */
    method ParseNumber(item: Item) returns (ok: bool)
      requires Valid()
      modifies this`offset, item`kind, item`valueint, item`valuedouble, item`val
      ensures match JsonGrammar.ParseNumber(old(Remaining()))
              case Fail => !ok
              case Done(v, rest) =>
                && ok && Valid() && Remaining() == rest && offset > old(offset)
                && item.kind == KNumber && item.val == v == Number(item.valuedouble)
                && item.valueint == Saturate(item.valuedouble)
      ensures !ok ==> offset == old(offset)
    {
      hide Strtod;
      hide NumberSpan;
      hide Saturate;
      var numberCString, i := CopyNumber();
      var (afterEnd, number) := Strtod(numberCString[..i]);
      if afterEnd == 0 {
        return false;
      }
      item.valuedouble := number;
      item.valueint := Saturate(number);
      item.kind := KNumber;
      item.val := Number(number);
      TextStep(offset, afterEnd);
      offset := offset + afterEnd;
      ok := true;
    }

    /** The bytes copied are the run of number characters at the front of the text. */
    lemma SpanIs(p: nat, n: nat)
      requires Valid() && p + n <= length && p < length && n <= 63
      requires forall k :: p <= k < p + n ==> IsNumberChar(content[k])
      requires n < 63 && p + n < length ==> !IsNumberChar(content[p + n])
      ensures n <= length - 1 - p && n == NumberSpan(TextFrom(p), 63)
      ensures content[p..p + n] == TextFrom(p)[..n]
    {
      assert !IsNumberChar(content[length - 1]);
      hide IsNumberChar;
      hide NumberSpan;
      hide NulFree;
      SpanOfSlice(content, p, length - 1, n);
    }

    // ----- values -----

    /** can_read and strncmp: a literal is read where the text begins with it. */
    lemma LiteralAt(p: nat, lit: bytes)
      requires Valid() && p < length && NulFree(lit)
      ensures p + |lit| <= length && content[p..p + |lit|] == lit <==> StartsWith(TextFrom(p), lit)
      ensures StartsWith(TextFrom(p), lit) ==> p + |lit| < length && TextFrom(p)[|lit|..] == TextFrom(p + |lit|)
    {
      if StartsWith(TextFrom(p), lit) {
        SubSlice(content, p, length - 1, 0, |lit|);
        assert TextFrom(p)[..|lit|] == TextFrom(p)[0..|lit|];
        TextStep(p, |lit|);
      }
      if p + |lit| <= length && content[p..p + |lit|] == lit {
        assert lit != [] ==> content[p..p + |lit|][|lit| - 1] == content[p + |lit| - 1];
        SubSlice(content, p, length - 1, 0, |lit|);
        assert TextFrom(p)[..|lit|] == TextFrom(p)[0..|lit|];
      }
    }

    method Reads(lit: bytes) returns (r: bool)
      requires Valid() && NulFree(lit)
      ensures r == StartsWith(Remaining(), lit)
      ensures r ==> offset + |lit| < length && Remaining()[|lit|..] == TextFrom(offset + |lit|)
    {
      LiteralAt(offset, lit);
      r := offset + |lit| <= length && content[offset..offset + |lit|] == lit;
    }

    method Literal(item: Item, kind: Kind, ghost v: Json, n: nat)
      requires (kind == KNull && v == Null) || (kind == KFalse && v == False) || (kind == KTrue && v == True)
      requires item.kids == [] && item.child == null
      modifies this`offset, item`kind, item`valueint, item`val
      ensures offset == old(offset) + n && item.val == v && Forest({item})
    {
      item.kind := kind;
      if kind == KTrue {
        item.valueint := 1;
      }
      item.val := v;
      offset := offset + n;
    }

    /** parse_value. The nodes made for the children of `item` form a forest with it. */
    method ParseValue(item: Item) returns (ok: bool, ghost made: set<Item>)
      requires Valid() && item.kids == [] && item.child == null
      modifies this`offset, this`depth, item`kind, item`valueint, item`valuedouble, item`valuestring
      modifies item`child, item`kids, item`val
      ensures match JsonGrammar.ParseValue(old(Remaining()), old(depth))
              case Fail => !ok
              case Done(v, rest) => ok && Valid() && Remaining() == rest && depth == old(depth) && item.val == v
      ensures ok ==> fresh(made) && item !in made && Forest(made + {item})
      ensures ok ==> old(offset) < offset
      decreases length - offset, 1
    {
      hide JsonGrammar.ParseString;
      hide JsonGrammar.ParseNumber;
      hide JsonGrammar.ParseArray;
      hide JsonGrammar.ParseObject;
      hide StartsWith;
      hide TextFrom;
      hide Saturate;
      hide Forest;
      made := {};
      assert made + {item} == {item};
      var r := Reads(NULL_TEXT);
      if r {
        Literal(item, KNull, Null, 4);
        return true, {};
      }
      r := Reads(FALSE_TEXT);
      if r {
        Literal(item, KFalse, False, 5);
        return true, {};
      }
      r := Reads(TRUE_TEXT);
      if r {
        Literal(item, KTrue, True, 4);
        return true, {};
      }
      var b := content[offset];
      if b == QUOTE {
        ok := ParseString(item);
        if ok {
          SingleForest(item);
        }
      } else if b == MINUS || IsDigit(b) {
        ok := ParseNumber(item);
        if ok {
          SingleForest(item);
        }
      } else if b == LBRACKET {
        ok, made := ParseArray(item);
      } else if b == LBRACE {
        ok, made := ParseObject(item);
      } else {
        ok := false;
      }
    }

    lemma ArrayIs(p: nat, d: nat)
      requires Valid() && p < length && content[p] == LBRACKET
      ensures p + 1 < length
      ensures JsonGrammar.ParseArray(TextFrom(p), d)
           == if d >= NESTING_LIMIT then Fail else AsArray(ArrayRest(SkipWs(TextFrom(p + 1)), d + 1))
    {
      hide ParseElems;
      hide SkipWs;
      TextStep(p, 1);
    }

    method FinishArray(item: Item, head: Item?, current: Item?,
                       ghost nodes: seq<Item>, ghost vals: seq<Json>, ghost made: set<Item>)
      requires Building(head, current, nodes, made) && item !in made && JsonBuild.Elements(nodes, vals) && depth > 0
      modifies this`offset, this`depth, nodes`prev, nodes`owner, item`kind, item`child, item`kids, item`val
      ensures item.val == Array(vals) && Forest(made + {item})
      ensures offset == old(offset) + 1 && depth == old(depth) - 1
    {
      hide Building;
      hide Forest;
      depth := depth - 1;
      CloseArray(item, head, current, nodes, vals, made);
      offset := offset + 1;
    }

    /** parse_array. */
    method ParseArray(item: Item) returns (ok: bool, ghost made: set<Item>)
      requires Valid() && item.kids == [] && item.child == null && content[offset] == LBRACKET
      modifies this`offset, this`depth, item`kind, item`child, item`kids, item`val
      ensures match JsonGrammar.ParseArray(old(Remaining()), old(depth))
              case Fail => !ok
              case Done(v, rest) => ok && Valid() && Remaining() == rest && depth == old(depth) && item.val == v
      ensures ok ==> fresh(made) && item !in made && Forest(made + {item})
      ensures ok ==> old(offset) < offset
      decreases length - offset, 0
    {
      hide SkipWs;
      hide Forest;
      hide Building;
      hide ArrayRest;
      hide JsonGrammar.ParseArray;
      hide TextFrom;
      hide NulFree;
      ArrayIs(offset, depth);
      made := {};
      if depth >= NESTING_LIMIT {
        return false, {};
      }
      depth := depth + 1;
      offset := offset + 1;
      SkipWhitespace();
      var head, current: Item?;
      ghost var nodes, vals;
      ok, head, current, nodes, vals, made := ElementsOrNone();
      if !ok {
        return;
      }
      TextStep(offset, 1);
      FinishArray(item, head, current, nodes, vals, made);
    }

    /** What is between the brackets. */
    method ElementsOrNone()
      returns (ok: bool, head: Item?, current: Item?, ghost nodes: seq<Item>, ghost vals: seq<Json>,
               ghost made: set<Item>)
      requires Valid() && offset > 0
      modifies this`offset, this`depth
      ensures match ArrayRest(old(Remaining()), old(depth))
              case Fail => !ok
              case Done(vs, rest) =>
                && ok && Valid() && offset + 1 < length && TextFrom(offset + 1) == rest && depth == old(depth)
                && vals == vs
      ensures ok ==> Building(head, current, nodes, made) && JsonBuild.Elements(nodes, vals)
      ensures ok ==> fresh(made) && fresh(nodes)
      ensures ok ==> old(offset) <= offset
      decreases length - offset, 5
    {
      hide JsonGrammar.ParseElems;
      hide Building;
      hide NulFree;
      if content[offset] == RBRACKET {
        ok, head, current, nodes, vals, made := true, null, null, [], [], {};
        NothingBuilt();
        TextStep(offset, 1);
        return;
      }
      offset := offset - 1;
      ok, head, current, nodes, vals, made := Elements();
    }

    /** After an element comes a comma or the closing bracket. */
    lemma AfterElementAt(e: nat, d: nat)
      requires Valid() && e < length
      ensures content[e] == COMMA ==> e + 1 < length && AfterElement(TextFrom(e), d) == ParseElems(TextFrom(e + 1), d)
      ensures content[e] == RBRACKET ==> e + 1 < length && AfterElement(TextFrom(e), d) == Done([], TextFrom(e + 1))
      ensures content[e] != COMMA && content[e] != RBRACKET ==> AfterElement(TextFrom(e), d) == Fail
    {
      hide ParseElems;
      if e + 1 < length {
        TextStep(e, 1);
      }
    }

    /** The loop of parse_array, from the byte before the first element to the closing bracket. */
    method Elements()
      returns (ok: bool, head: Item?, current: Item?, ghost nodes: seq<Item>, ghost vals: seq<Json>,
               ghost made: set<Item>)
      requires Valid() && offset + 1 < length
      modifies this`offset, this`depth
      ensures match ParseElems(old(TextFrom(offset + 1)), old(depth))
              case Fail => !ok
              case Done(vs, rest) =>
                && ok && Valid() && offset + 1 < length && TextFrom(offset + 1) == rest && depth == old(depth)
                && vals == vs
      ensures ok ==> Building(head, current, nodes, made) && JsonBuild.Elements(nodes, vals)
      ensures ok ==> fresh(made) && fresh(nodes)
      ensures ok ==> old(offset) < offset
      decreases length - offset - 1, 4
    {
      hide JsonGrammar.ParseElems;
      hide JsonGrammar.ParseValue;
      hide SkipWs;
      hide TextFrom;
      hide AfterElement;
      hide Building;
      ok, head, current, nodes, vals, made := false, null, null, [], [], {};
      NothingBuilt();
      AfterNothing(ParseElems(TextFrom(offset + 1), depth));
      ghost var d, want := depth, ParseElems(TextFrom(offset + 1), depth);
      var more := true;
      while more
        invariant Valid() && depth == d && old(offset) <= offset
        invariant more ==> offset + 1 < length && want == After(vals, ParseElems(TextFrom(offset + 1), d))
        invariant !more ==> old(offset) < offset && want == After(vals, AfterElement(Remaining(), d))
        invariant !more ==> content[offset] != COMMA
        invariant Building(head, current, nodes, made) && JsonBuild.Elements(nodes, vals)
        invariant fresh(made) && fresh(nodes) && !ok
        decreases length - offset, more
      {
        ElementIs(TextFrom(offset + 1), d);
        ghost var sub;
        ok, head, current, sub := Element(head, current, nodes, made);
        if !ok {
          return;
        }
        ok := false;
        nodes, made := nodes + [current], made + sub;
        AfterMore(vals, current.val, AfterElement(Remaining(), d));
        vals := vals + [current.val];
        more := content[offset] == COMMA;
        AfterElementAt(offset, d);
      }
      AfterElementAt(offset, d);
      ok := content[offset] == RBRACKET;
    }

    /** One round of the loop of parse_array: a new node, its value, and the space after it. */
    method Element(head: Item?, current: Item?, ghost nodes: seq<Item>, ghost made: set<Item>)
      returns (ok: bool, head': Item?, item: Item, ghost sub: set<Item>)
      requires Valid() && offset + 1 < length && Building(head, current, nodes, made)
      modifies this`offset, this`depth, nodes`next
      ensures match JsonGrammar.ParseValue(SkipWs(old(TextFrom(offset + 1))), old(depth))
              case Fail => !ok
              case Done(v, rest) => ok && Valid() && Remaining() == SkipWs(rest) && depth == old(depth) && item.val == v
      ensures ok ==> Building(head', item, nodes + [item], made + sub) && fresh(item) && fresh(sub)
      ensures ok ==> old(offset) < offset
      decreases length - offset - 1, 3
    {
      hide JsonGrammar.ParseValue;
      hide SkipWs;
      hide TextFrom;
      hide Building;
      hide Pending;
      head', item := Append(head, current, nodes, made);
      ok, sub := Value(head', item, nodes, made);
    }

    /** The value of a new node, with the byte in front of it and the space after it. */
    method Value(head: Item?, item: Item, ghost nodes: seq<Item>, ghost made: set<Item>)
      returns (ok: bool, ghost sub: set<Item>)
      requires Valid() && offset + 1 < length && item.kids == [] && item.child == null
      requires Pending(head, item, nodes, made) && item !in made && item !in nodes
      modifies this`offset, this`depth, item`kind, item`valueint, item`valuedouble, item`valuestring
      modifies item`child, item`kids, item`val
      ensures match JsonGrammar.ParseValue(SkipWs(old(TextFrom(offset + 1))), old(depth))
              case Fail => !ok
              case Done(v, rest) => ok && Valid() && Remaining() == SkipWs(rest) && depth == old(depth) && item.val == v
      ensures ok ==> Building(head, item, nodes + [item], made + sub) && fresh(sub - {item})
      ensures ok ==> old(offset) < offset
      decreases length - offset - 1, 2
    {
      hide JsonGrammar.ParseValue;
      hide SkipWs;
      hide TextFrom;
      hide Building;
      hide Pending;
      hide Forest;
      offset := offset + 1;
      SkipWhitespace();
      ghost var below;
      ok, below := ParseValue(item);
      sub := below + {item};
      if !ok {
        return;
      }
      SkipWhitespace();
      Finished(head, item, nodes, made, below);
    }

    lemma ObjectIs(p: nat, d: nat)
      requires Valid() && p < length && content[p] == LBRACE
      ensures p + 1 < length
      ensures JsonGrammar.ParseObject(TextFrom(p), d)
           == if d >= NESTING_LIMIT then Fail else AsObject(ObjectRest(SkipWs(TextFrom(p + 1)), d + 1))
    {
      hide ParseMembers;
      hide SkipWs;
      TextStep(p, 1);
    }

    method FinishObject(item: Item, head: Item?, current: Item?,
                       ghost nodes: seq<Item>, ghost vals: seq<Member>, ghost made: set<Item>)
      requires Building(head, current, nodes, made) && item !in made && JsonBuild.Members(nodes, vals) && depth > 0
      modifies this`offset, this`depth, nodes`prev, nodes`owner, item`kind, item`child, item`kids, item`val
      ensures item.val == Object(vals) && Forest(made + {item})
      ensures offset == old(offset) + 1 && depth == old(depth) - 1
    {
      hide Building;
      hide Forest;
      depth := depth - 1;
      CloseObject(item, head, current, nodes, vals, made);
      offset := offset + 1;
    }

    /** parse_object. */
    method ParseObject(item: Item) returns (ok: bool, ghost made: set<Item>)
      requires Valid() && item.kids == [] && item.child == null && content[offset] == LBRACE
      modifies this`offset, this`depth, item`kind, item`child, item`kids, item`val
      ensures match JsonGrammar.ParseObject(old(Remaining()), old(depth))
              case Fail => !ok
              case Done(v, rest) => ok && Valid() && Remaining() == rest && depth == old(depth) && item.val == v
      ensures ok ==> fresh(made) && item !in made && Forest(made + {item})
      ensures ok ==> old(offset) < offset
      decreases length - offset, 0
    {
      hide SkipWs;
      hide Forest;
      hide Building;
      hide ObjectRest;
      hide JsonGrammar.ParseObject;
      hide TextFrom;
      hide NulFree;
      ObjectIs(offset, depth);
      made := {};
      if depth >= NESTING_LIMIT {
        return false, {};
      }
      depth := depth + 1;
      offset := offset + 1;
      SkipWhitespace();
      var head, current: Item?;
      ghost var nodes, vals;
      ok, head, current, nodes, vals, made := MembersOrNone();
      if !ok {
        return;
      }
      TextStep(offset, 1);
      FinishObject(item, head, current, nodes, vals, made);
    }

    /** What is between the brackets. */
    method MembersOrNone()
      returns (ok: bool, head: Item?, current: Item?, ghost nodes: seq<Item>, ghost vals: seq<Member>,
               ghost made: set<Item>)
      requires Valid() && offset > 0
      modifies this`offset, this`depth
      ensures match ObjectRest(old(Remaining()), old(depth))
              case Fail => !ok
              case Done(vs, rest) =>
                && ok && Valid() && offset + 1 < length && TextFrom(offset + 1) == rest && depth == old(depth)
                && vals == vs
      ensures ok ==> Building(head, current, nodes, made) && JsonBuild.Members(nodes, vals)
      ensures ok ==> fresh(made) && fresh(nodes)
      ensures ok ==> old(offset) <= offset
      decreases length - offset, 5
    {
      hide JsonGrammar.ParseMembers;
      hide Building;
      hide NulFree;
      if content[offset] == RBRACE {
        ok, head, current, nodes, vals, made := true, null, null, [], [], {};
        NothingBuilt();
        TextStep(offset, 1);
        return;
      }
      offset := offset - 1;
      ok, head, current, nodes, vals, made := Members();
    }

    /** After a member comes a comma or the closing brace. */
    lemma AfterMemberAt(e: nat, d: nat)
      requires Valid() && e < length
      ensures content[e] == COMMA ==> e + 1 < length && AfterMember(TextFrom(e), d) == ParseMembers(TextFrom(e + 1), d)
      ensures content[e] == RBRACE ==> e + 1 < length && AfterMember(TextFrom(e), d) == Done([], TextFrom(e + 1))
      ensures content[e] != COMMA && content[e] != RBRACE ==> AfterMember(TextFrom(e), d) == Fail
    {
      hide ParseMembers;
      if e + 1 < length {
        TextStep(e, 1);
      }
    }

    /** The loop of parse_object. */
    method Members()
      returns (ok: bool, head: Item?, current: Item?, ghost nodes: seq<Item>, ghost vals: seq<Member>,
               ghost made: set<Item>)
      requires Valid() && offset + 1 < length
      modifies this`offset, this`depth
      ensures match ParseMembers(old(TextFrom(offset + 1)), old(depth))
              case Fail => !ok
              case Done(vs, rest) =>
                && ok && Valid() && offset + 1 < length && TextFrom(offset + 1) == rest && depth == old(depth)
                && vals == vs
      ensures ok ==> Building(head, current, nodes, made) && JsonBuild.Members(nodes, vals)
      ensures ok ==> fresh(made) && fresh(nodes)
      ensures ok ==> old(offset) < offset
      decreases length - offset - 1, 4
    {
      hide JsonGrammar.ParseMembers;
      hide JsonGrammar.ParseMember;
      hide SkipWs;
      hide TextFrom;
      hide AfterMember;
      hide Building;
      ok, head, current, nodes, vals, made := false, null, null, [], [], {};
      NothingBuilt();
      AfterNothing(ParseMembers(TextFrom(offset + 1), depth));
      ghost var d, want := depth, ParseMembers(TextFrom(offset + 1), depth);
      var more := true;
      while more
        invariant Valid() && depth == d && old(offset) <= offset
        invariant more ==> offset + 1 < length && want == After(vals, ParseMembers(TextFrom(offset + 1), d))
        invariant !more ==> old(offset) < offset && want == After(vals, AfterMember(Remaining(), d))
        invariant !more ==> content[offset] != COMMA
        invariant Building(head, current, nodes, made) && JsonBuild.Members(nodes, vals)
        invariant fresh(made) && fresh(nodes) && !ok
        decreases length - offset, more
      {
        MemberIs(TextFrom(offset + 1), d);
        ghost var sub, v;
        ok, head, current, sub, v := Member(head, current, nodes, made);
        if !ok {
          return;
        }
        ok := false;
        nodes, made := nodes + [current], made + sub;
        AfterMore(vals, v, AfterMember(Remaining(), d));
        vals := vals + [v];
        more := content[offset] == COMMA;
        AfterMemberAt(offset, d);
      }
      AfterMemberAt(offset, d);
      ok := content[offset] == RBRACE;
    }

    /** The key and the colon. The name is parsed into the string value, and moved. */
    method Key(item: Item) returns (ok: bool)
      requires Valid() && offset + 1 < length
      modifies this`offset, item`kind, item`valuestring, item`val, item`key
      ensures match JsonGrammar.ParseString(SkipWs(old(TextFrom(offset + 1))))
              case Fail => !ok
              case Done(k, r) =>
                var u := SkipWs(r);
                if u == [] || u[0] != COLON then !ok
                else
                  && ok && Valid() && offset + 1 < length && TextFrom(offset + 1) == u[1..]
                  && item.key == Some(k) && NulFree(k)
      ensures ok ==> old(offset) < offset
    {
      hide JsonGrammar.ParseString;
      hide SkipWs;
      hide TextFrom;
      offset := offset + 1;
      SkipWhitespace();
      ok := ParseString(item);
      if !ok {
        return;
      }
      SkipWhitespace();
      item.key := item.valuestring;
      item.valuestring := None;
      if content[offset] != COLON {
        ok := false;
        return;
      }
      ColonAt(offset);
    }

    /** One round of the loop of parse_object: a new node, its key, and its value. */
    method Member(head: Item?, current: Item?, ghost nodes: seq<Item>, ghost made: set<Item>)
      returns (ok: bool, head': Item?, item: Item, ghost sub: set<Item>, ghost v: Member)
      requires Valid() && offset + 1 < length && Building(head, current, nodes, made)
      modifies this`offset, this`depth, nodes`next
      ensures match JsonGrammar.ParseMember(old(TextFrom(offset + 1)), old(depth))
              case Fail => !ok
              case Done(w, rest) => ok && Valid() && Remaining() == SkipWs(rest) && depth == old(depth) && w == v
      ensures ok ==> item.val == v.value && item.key == Some(v.key) && NulFree(v.key)
      ensures ok ==> Building(head', item, nodes + [item], made + sub) && fresh(item) && fresh(sub)
      ensures ok ==> old(offset) < offset
      decreases length - offset - 1, 3
    {
      hide JsonGrammar.ParseValue;
      hide JsonGrammar.ParseString;
      hide SkipWs;
      hide TextFrom;
      hide Building;
      hide Pending;
      hide Forest;
      hide NulFree;
      MemberText(TextFrom(offset + 1), depth);
      hide JsonGrammar.ParseMember;
      sub, v := {}, JsonValue.Member([], Null);
      head', item := Append(head, current, nodes, made);
      ok := Key(item);
      if !ok {
        return;
      }
      ok, sub := Value(head', item, nodes, made);
      v := JsonValue.Member(item.key.value, item.val);
    }

    lemma ColonAt(p: nat)
      requires Valid() && p < length && content[p] == COLON
      ensures p + 1 < length && TextFrom(p)[1..] == TextFrom(p + 1)
    {
      TextStep(p, 1);
    }

    /** skip_utf8_bom. */
    method SkipUtf8Bom()
      requires Valid() && offset == 0
      modifies this`offset
      ensures Valid() && Remaining() == SkipBom(old(Remaining()))
    {
      ghost var s := Remaining();
      if 4 < length && content[0..3] == [0xef, 0xbb, 0xbf] {
        assert s[..3] == content[0..3];
        TextStep(0, 3);
        offset := offset + 3;
      } else if |s| >= 4 {
        assert s[..3] == content[0..3];
      }
    }

    /** The steps of cJSON_ParseWithLengthOpts on its buffer. */
    method ParseRoot(item: Item, requireNullTerminated: bool) returns (ok: bool, ghost made: set<Item>)
      requires Valid() && offset == 0 && depth == 0 && item.kids == [] && item.child == null
      modifies this`offset, this`depth, item`kind, item`valueint, item`valuedouble, item`valuestring
      modifies item`child, item`kids, item`val
      ensures match ParseText(old(Remaining()), requireNullTerminated)
              case Fail => !ok
              case Done(v, rest) => ok && Valid() && item.val == v && Remaining() == rest
      ensures ok ==> fresh(made) && item !in made && Forest(made + {item})
    {
      hide JsonGrammar.ParseValue;
      hide SkipWs;
      hide SkipBom;
      hide TextFrom;
      hide Forest;
      hide NulFree;
      SkipUtf8Bom();
      SkipWhitespace();
      ok, made := ParseValue(item);
      if ok && requireNullTerminated {
        SkipWhitespace();
        ok := content[offset] == 0;
        AtEnd(offset);
      }
    }

    lemma AtEnd(p: nat)
      requires Valid() && p < length
      ensures content[p] == 0 <==> TextFrom(p) == []
    {
      assert p < length - 1 ==> content[..length - 1][p] == content[p];
    }
  }

  /**
   cJSON_ParseWithOpts on a C string. It succeeds on the texts of the grammar, with the value the grammar
   gives, as a well-formed tree of new nodes; `parseEnd` is where reading ended.
   */
  method ParseWithOpts(text: bytes, requireNullTerminated: bool)
    returns (item: Item?, parseEnd: nat, ghost made: set<Item>)
    requires NulFree(text)
    ensures match ParseText(text, requireNullTerminated)
            case Fail => item == null
            case Done(v, rest) =>
              item != null && fresh(item) && item.val == v && parseEnd <= |text| && text[parseEnd..] == rest
    ensures item != null ==> fresh(made) && item !in made && Forest(made + {item})
    ensures item != null ==> item.owner == null && item.next == null
  {
    hide ParseText;
    hide Forest;
    hide NulFree;
    var buffer := new ParseBuffer(text);
    var root := new Item();
    var ok;
    ok, made := buffer.ParseRoot(root, requireNullTerminated);
    if !ok {
      return null, 0, made;
    }
    item, parseEnd := root, buffer.offset;
    assert text[parseEnd..] == buffer.Remaining();
  }
}
