/** The printer of `cJSON.c`: a buffer that grows as text is written to it. */
module JsonPrinter {
  import opened Bytes
  import opened JsonValue
  import opened JsonTree
  import opened JsonRoundTrip

  /** One printed member. */
  function MemberText(m: Member, last: bool, fmt: bool, d: nat): bytes {
    KeyText(m.key, fmt, d) + Text(m.value, fmt, d) + MemberEnd(last, fmt)
  }

  lemma MembersEmpty(ms: seq<Member>, fmt: bool, d: nat)
    requires ms == []
    ensures MembersText(ms, fmt, d) == []
  {
  }

  lemma ElemsEmpty(es: seq<Json>, fmt: bool, d: nat)
    requires es == []
    ensures ElemsText(es, fmt, d) == []
  {
  }

  lemma {:induction false} PlainElemAt(es: seq<Json>, i: nat)
    requires PlainElems(es) && i < |es|
    ensures Plain(es[i])
  {
    if i > 0 {
      PlainElemAt(es[1..], i - 1);
    }
  }

  lemma {:induction false} PlainMemberAt(ms: seq<Member>, i: nat)
    requires PlainMembers(ms) && i < |ms|
    ensures NulFree(ms[i].key) && Plain(ms[i].value)
  {
    if i > 0 {
      PlainMemberAt(ms[1..], i - 1);
    }
  }

  lemma EscapeEmpty(s: bytes)
    requires s == []
    ensures Escape(s) == []
  {
  }

  /** A string that needs no escapes is printed as it is. */
  lemma {:induction false} EscapeNone(s: bytes)
    ensures |Escape(s)| >= |s|
    ensures |Escape(s)| == |s| ==> Escape(s) == s
  {
    if s != [] {
      EscapeNone(s[1..]);
    }
  }

  /** An int fits the 26 bytes print_number has for it. */
  lemma DecimalShort(i: int)
    requires INT_MIN <= i <= INT_MAX
    ensures |Decimal(i)| <= 11
  {
    assert Pow10(5) == 100_000;
    assert Pow10(10) == 10_000_000_000;
    DigitsShort(if i < 0 then -i else i, 10);
  }

  lemma {:induction false} EscapeSplit(s: bytes, i: nat)
    requires i < |s|
    ensures Escape(s[i..]) == EscapeByte(s[i]) + Escape(s[i + 1..])
  {
    assert s[i..][1..] == s[i + 1..];
  }

  /** The bytes an escape adds. */
  function Extra(b: byte): nat {
    |EscapeByte(b)| - 1
  }

  lemma {:induction false} ElemsSplit(es: seq<Json>, i: nat, fmt: bool, d: nat)
    requires i < |es|
    ensures ElemsText(es[i..], fmt, d)
         == Text(es[i], fmt, d) + (if i + 1 < |es| then Separator(fmt) else []) + ElemsText(es[i + 1..], fmt, d)
  {
    hide Text;
    assert es[i..][1..] == es[i + 1..];
  }

  lemma {:induction false} MembersSplit(ms: seq<Member>, i: nat, fmt: bool, d: nat)
    requires i < |ms|
    ensures MembersText(ms[i..], fmt, d)
         == MemberText(ms[i], i + 1 == |ms|, fmt, d) + MembersText(ms[i + 1..], fmt, d)
  {
    hide Text;
    hide KeyText;
    hide MemberEnd;
    assert ms[i..][1..] == ms[i + 1..];
  }

  class PrintBuffer {
    var buffer: array<byte>
    var length: nat
    var offset: nat
    var depth: nat
    const noalloc: bool
    const format: bool

    predicate Valid()
      reads this`buffer, this`length, this`offset
    {
      && length <= buffer.Length && length <= INT_MAX
      && (offset < length || offset == length == 0)
    }

    /** The size the buffer cannot grow beyond. */
    function Cap(): nat
      reads this`length
    {
      if noalloc then length else INT_MAX
    }

    /** What has been printed. */
    function Printed(): (s: bytes)
      requires Valid()
      reads this`buffer, this`length, this`offset, buffer
      ensures |s| == offset
    {
      buffer[..offset]
    }

    constructor (buffer: array<byte>, length: nat, noalloc: bool, format: bool)
      requires length <= buffer.Length && length <= INT_MAX
      ensures Valid() && this.buffer == buffer && this.length == length && offset == 0 && depth == 0
      ensures this.noalloc == noalloc && this.format == format
    {
      this.buffer, this.length, this.offset, this.depth := buffer, length, 0, 0;
      this.noalloc, this.format := noalloc, format;
    }

    /** The new size of the buffer, when it may grow. */
    method NewSize(needed: nat) returns (ok: bool, newsize: nat)
      ensures ok == (needed <= INT_MAX)
      ensures ok ==> needed <= newsize <= INT_MAX
    {
      ok, newsize := true, needed * 2;
      if needed > INT_MAX / 2 {
        newsize := INT_MAX;
        ok := needed <= INT_MAX;
      }
    }

    /**
     The buffer is the same one or a new one. When it must not grow it stays the same, of the same size, and
     nothing is written behind that size.
     */
    twostate predicate Stays()
      reads this`buffer, this`length, buffer
    {
      && (buffer == old(buffer) || fresh(buffer))
      && (noalloc ==>
            && buffer == old(buffer) && length == old(length)
            && forall i :: length <= i < buffer.Length ==> buffer[i] == old(buffer[i]))
    }

    /** ensure: space for `needed` bytes and one more. */
    method Ensure(needed: nat) returns (ok: bool)
      requires Valid()
      modifies this`buffer, this`length
      ensures ok == (offset + needed + 1 <= old(Cap()))
      ensures ok ==> Valid() && offset + needed < length && Cap() == old(Cap()) && Printed() == old(Printed())
      ensures Stays()
    {
      if length > 0 && offset >= length {
        return false;
      }
      if needed > INT_MAX {
        return false;
      }
      var total := needed + offset + 1;
      if total <= length {
        return true;
      }
      if noalloc {
        return false;
      }
      var newsize;
      ok, newsize := NewSize(total);
      if !ok {
        return;
      }
      var newbuffer := new byte[newsize];
      forall i | 0 <= i < length {
        newbuffer[i] := buffer[i];
      }
      length := newsize;
      buffer := newbuffer;
    }

    /** After `prefix` the buffer holds `t` and a terminator. */
    predicate Wrote(prefix: bytes, t: bytes)
      reads this`buffer, this`length, this`offset, buffer
    {
      && Valid() && |prefix| + |t| < length
      && buffer[..|prefix| + |t|] == prefix + t
      && buffer[|prefix| + |t|] == 0
    }

    /** update_offset: strlen from the offset on. */
    method UpdateOffset(ghost prefix: bytes, ghost t: bytes)
      requires Wrote(prefix, t) && NulFree(t) && |prefix| <= offset <= |prefix| + |t|
      modifies this`offset
      ensures Valid() && Printed() == prefix + t
    {
      ghost var end := |prefix| + |t|;
      assert forall k :: |prefix| <= k < end ==> buffer[k] == buffer[..end][k] == t[k - |prefix|] != 0;
      var n := 0;
      while buffer[offset + n] != 0
        invariant offset + n <= end
        decreases length - n
      {
        n := n + 1;
      }
      offset := offset + n;
    }

    /** strcpy to the offset. */
    method StrCpy(lit: bytes)
      requires Valid() && offset + |lit| < length
      modifies buffer
      ensures Wrote(old(Printed()), lit)
      ensures Stays()
    {
      ghost var prefix := Printed();
      forall i | 0 <= i < |lit| {
        buffer[offset + i] := lit[i];
      }
      buffer[offset + |lit|] := 0;
      assert buffer[..offset + |lit|] == prefix + lit;
    }

    /** Bytes written at the offset, which moves behind them. */
    method Put(b: byte)
      requires Valid() && offset + 1 < length
      modifies buffer, this`offset
      ensures Valid() && Printed() == old(Printed()) + [b] && offset == old(offset) + 1
      ensures Stays()
    {
      buffer[offset] := b;
      offset := offset + 1;
      assert buffer[..offset] == old(buffer[..offset]) + [b];
    }

    method Terminate()
      requires Valid() && offset < length
      modifies buffer
      ensures Wrote(old(Printed()), []) && Printed() == old(Printed())
      ensures Stays()
    {
      buffer[offset] := 0;
    }

    // ----- scalars -----

    /** One of the literals. */
    method PrintLiteral(lit: bytes) returns (ok: bool)
      requires Valid()
      modifies this`buffer, this`length, buffer
      ensures ok == (offset + |lit| + 2 <= old(Cap()))
      ensures ok ==> Wrote(old(Printed()), lit) && Cap() == old(Cap())
      ensures Stays()
    {
      ok := Ensure(|lit| + 1);
      if ok {
        StrCpy(lit);
      }
    }

    /** print_number for a number that "%d" writes. */
    method PrintNumber(item: Item) returns (ok: bool)
      requires Valid()
      requires IsInt(item.valuedouble) && item.valueint == Saturate(item.valuedouble)
      modifies this`buffer, this`length, this`offset, buffer
      ensures ok == (old(offset) + |Decimal(item.valuedouble.Floor)| + 2 <= old(Cap()))
      ensures ok ==> Wrote(old(Printed()), Decimal(item.valuedouble.Floor)) && Cap() == old(Cap())
      ensures ok ==> offset == old(offset) + |Decimal(item.valuedouble.Floor)|
      ensures Stays()
    {
      hide Decimal;
      var numberBuffer := Decimal(item.valueint);
      DecimalShort(item.valueint);
      if |numberBuffer| > 25 {
        return false;
      }
      ok := Ensure(|numberBuffer| + 1);
      if !ok {
        return;
      }
      StrCpy(numberBuffer);
      offset := offset + |numberBuffer|;
    }

    /** What the first pass of print_string_ptr adds for one byte. */
    method EscapeCost(b: byte) returns (n: nat)
      ensures n == Extra(b)
    {
      if b == QUOTE || b == BACKSLASH || b == BELL_B || b == FORMFEED || b == NEWLINE || b == RETURN || b == TAB {
        n := 1;
      } else if b < 32 {
        n := 5;
      } else {
        n := 0;
      }
    }

    /** An escape of two bytes. */
    method WriteShort(letter: byte, out: nat) returns (out': nat)
      requires Valid() && out + 2 < length
      modifies buffer
      ensures out' == out + 2 && buffer[..out'] == old(buffer[..out]) + [BACKSLASH, letter]
      ensures Stays()
    {
      buffer[out] := BACKSLASH;
      buffer[out + 1] := letter;
      out' := out + 2;
    }

    /** An escape of six bytes, and the terminator sprintf leaves. */
    method WriteHex(b: byte, out: nat) returns (out': nat)
      requires Valid() && out + 6 < length
      modifies buffer
      ensures out' == out + 6
      ensures buffer[..out'] == old(buffer[..out]) + [BACKSLASH, 0x75, ZERO, ZERO, HexDigit(b / 16), HexDigit(b % 16)]
      ensures Stays()
    {
      hide HexDigit;
      buffer[out] := BACKSLASH;
      buffer[out + 1], buffer[out + 2], buffer[out + 3] := 0x75, ZERO, ZERO;
      buffer[out + 4], buffer[out + 5], buffer[out + 6] := HexDigit(b / 16), HexDigit(b % 16), 0;
      out' := out + 6;
    }

    /** One byte of the second pass. */
    method WriteEscape(b: byte, out: nat) returns (out': nat)
      requires Valid() && out + |EscapeByte(b)| < length
      modifies buffer
      ensures out' == out + |EscapeByte(b)| && buffer[..out'] == old(buffer[..out]) + EscapeByte(b)
      ensures Stays()
    {
      if b > 31 && b != QUOTE && b != BACKSLASH {
        buffer[out] := b;
        out' := out + 1;
      } else if b == BACKSLASH {
        out' := WriteShort(BACKSLASH, out);
      } else if b == QUOTE {
        out' := WriteShort(QUOTE, out);
      } else if b == BELL_B {
        out' := WriteShort(0x62, out);
      } else if b == FORMFEED {
        out' := WriteShort(0x66, out);
      } else if b == NEWLINE {
        out' := WriteShort(0x6e, out);
      } else if b == RETURN {
        out' := WriteShort(0x72, out);
      } else if b == TAB {
        out' := WriteShort(0x74, out);
      } else {
        out' := WriteHex(b, out);
      }
    }

    /** print_string_ptr on a C string. */
    method PrintStringPtr(input: bytes) returns (ok: bool)
      requires Valid() && NulFree(input)
      modifies this`buffer, this`length, buffer
      ensures ok == (offset + |Quoted(input)| + 2 <= old(Cap()))
      ensures ok ==> Wrote(old(Printed()), Quoted(input)) && Cap() == old(Cap())
      ensures Stays()
    {
      hide Escape;
      var escapeCharacters := CountEscapes(input);
      var outputLength := |input| + escapeCharacters;
      ok := Ensure(outputLength + 3);
      if !ok {
        return;
      }
      if escapeCharacters == 0 {
        EscapeNone(input);
        CopyString(input);
      } else {
        EscapeString(input);
      }
    }

    /** The first pass. */
    method CountEscapes(input: bytes) returns (escapeCharacters: nat)
      ensures |input| + escapeCharacters == |Escape(input)|
    {
      escapeCharacters := 0;
      var i := 0;
      assert input[0..] == input;
      while i < |input|
        invariant i <= |input|
        invariant i + escapeCharacters + |Escape(input[i..])| == |Escape(input)|
      {
        EscapeSplit(input, i);
        var n := EscapeCost(input[i]);
        escapeCharacters := escapeCharacters + n;
        i := i + 1;
      }
    }

    /** The string without escapes, copied. */
    method CopyString(input: bytes)
      requires Valid() && offset + |input| + 2 < length
      modifies buffer
      ensures Wrote(old(Printed()), [QUOTE] + input + [QUOTE])
      ensures Stays()
    {
      ghost var prefix := Printed();
      buffer[offset] := QUOTE;
      forall i | 0 <= i < |input| {
        buffer[offset + 1 + i] := input[i];
      }
      buffer[offset + |input| + 1] := QUOTE;
      buffer[offset + |input| + 2] := 0;
      assert buffer[..offset + |input| + 2] == prefix + ([QUOTE] + input + [QUOTE]);
    }

    /** The second pass. */
    method EscapeString(input: bytes)
      requires Valid() && offset + |Escape(input)| + 2 < length
      modifies buffer
      ensures Wrote(old(Printed()), Quoted(input))
      ensures Stays()
    {
      hide Escape;
      hide EscapeByte;
      ghost var prefix := Printed();
      ghost var whole := prefix + [QUOTE] + Escape(input);
      assert |whole| == offset + 1 + |Escape(input)|;
      buffer[offset] := QUOTE;
      var out: nat := offset + 1;
      var i := 0;
      assert input[0..] == input;
      assert buffer[..out] == prefix + [QUOTE];
      while i < |input|
        invariant i <= |input| && Valid() && out <= |whole|
        invariant buffer[..out] + Escape(input[i..]) == whole
        invariant Stays()
      {
        EscapeSplit(input, i);
        ghost var done := buffer[..out];
        out := WriteEscape(input[i], out);
        Right3(done, EscapeByte(input[i]), Escape(input[i + 1..]));
        i := i + 1;
      }
      EscapeEmpty(input[i..]);
      assert buffer[..out] == whole;
      buffer[out] := QUOTE;
      buffer[out + 1] := 0;
      assert buffer[..out + 1] == whole + [QUOTE];
      Right3(prefix, [QUOTE], Escape(input));
      Right3(prefix, [QUOTE] + Escape(input), [QUOTE]);
    }

    // ----- trees -----

    /** print_value on a node of a forest. */
    method PrintValue(item: Item, ghost s: set<Item>) returns (ok: bool)
      requires Valid() && Forest(s) && item in s && Plain(item.val)
      modifies this`buffer, this`length, this`offset, this`depth, buffer
      ensures ok == (old(offset) + |Text(item.val, format, old(depth))| + 2 <= old(Cap()))
      ensures ok ==> Wrote(old(Printed()), Text(item.val, format, old(depth)))
      ensures ok ==> old(offset) <= offset <= old(offset) + |Text(item.val, format, old(depth))|
      ensures ok ==> depth == old(depth) && Cap() == old(Cap())
      ensures Stays()
      decreases item.val, 2
    {
      NodeHolds(item, s);
      match item.kind
      case KNull =>
        ok := PrintLiteral(NULL_TEXT);
      case KFalse =>
        ok := PrintLiteral(FALSE_TEXT);
      case KTrue =>
        ok := PrintLiteral(TRUE_TEXT);
      case KNumber =>
        ok := PrintNumber(item);
      case KString =>
        ok := PrintStringPtr(item.valuestring.value);
      case KArray =>
        IsArrayNode(item, s);
        ok := PrintArray(item, s);
      case KObject =>
        IsObjectNode(item, s);
        ok := PrintObject(item, s);
      case KInvalid =>
        assert false;
    }

    /** A node for an array, with its children. */
    ghost predicate ArrayNode(item: Item, s: set<Item>)
      reads s, item
    {
      && item in s && item.kind == KArray && item.val.Array? && |item.val.elems| == |item.kids|
      && item.child == (if item.kids == [] then null else item.kids[0])
      && forall i :: 0 <= i < |item.kids| ==>
           && item.kids[i] in s && item.kids[i].val == item.val.elems[i] && Plain(item.val.elems[i])
           && item.kids[i].next == if i + 1 < |item.kids| then item.kids[i + 1] else null
    }

    lemma IsArrayNode(item: Item, s: set<Item>)
      requires Forest(s) && item in s && item.kind == KArray && Plain(item.val)
      ensures ArrayNode(item, s)
    {
      NodeHolds(item, s);
      hide Forest;
      var es := item.val.elems;
      forall i | 0 <= i < |es|
        ensures Plain(es[i])
      {
        PlainElemAt(es, i);
      }
    }

    ghost predicate ObjectNode(item: Item, s: set<Item>)
      reads s, item
    {
      && item in s && item.kind == KObject && item.val.Object? && |item.val.members| == |item.kids|
      && item.child == (if item.kids == [] then null else item.kids[0])
      && forall i :: 0 <= i < |item.kids| ==>
           && item.kids[i] in s && item.kids[i].val == item.val.members[i].value && Plain(item.val.members[i].value)
           && item.kids[i].key == Some(item.val.members[i].key) && NulFree(item.val.members[i].key)
           && item.kids[i].next == if i + 1 < |item.kids| then item.kids[i + 1] else null
    }

    lemma IsObjectNode(item: Item, s: set<Item>)
      requires Forest(s) && item in s && item.kind == KObject && Plain(item.val)
      ensures ObjectNode(item, s)
    {
      NodeHolds(item, s);
      hide Forest;
      var ms := item.val.members;
      forall i | 0 <= i < |ms|
        ensures NulFree(ms[i].key) && Plain(ms[i].value)
      {
        PlainMemberAt(ms, i);
      }
    }

    lemma ArrayText(es: seq<Json>, fmt: bool, d: nat)
      ensures Text(Array(es), fmt, d) == [LBRACKET] + ElemsText(es, fmt, d + 1) + [RBRACKET]
    {
      hide ElemsText;
    }

    method PrintArray(item: Item, ghost s: set<Item>) returns (ok: bool)
      requires Valid() && Forest(s) && ArrayNode(item, s)
      modifies this`buffer, this`length, this`offset, this`depth, buffer
      ensures ok == (old(offset) + |Text(item.val, format, old(depth))| + 2 <= old(Cap()))
      ensures ok ==> Wrote(old(Printed()), Text(item.val, format, old(depth)))
      ensures ok ==> old(offset) <= offset <= old(offset) + |Text(item.val, format, old(depth))|
      ensures ok ==> depth == old(depth) && Cap() == old(Cap())
      ensures Stays()
      decreases item.val, 1
    {
      hide Valid;
      hide Cap;
      hide Printed;
      hide Wrote;
      hide Text;
      hide ElemsText;
      hide Forest;
      ArrayText(item.val.elems, format, depth);
      ghost var prefix, body := Printed(), ElemsText(item.val.elems, format, depth + 1);
      ok := OpenArray();
      if !ok {
        return;
      }
      ok := PrintElems(item, s);
      if !ok {
        return;
      }
      ok := EndArray();
      if ok {
        WroteAll(prefix, [LBRACKET], body, [RBRACKET]);
      }
    }

    method OpenArray() returns (ok: bool)
      requires Valid()
      modifies this`buffer, this`length, this`offset, this`depth, buffer
      ensures if ok then Valid() && Printed() == old(Printed()) + [LBRACKET] && depth == old(depth) + 1
              else old(offset) + 2 > old(Cap())
      ensures ok ==> Cap() == old(Cap())
      ensures Stays()
    {
      ok := Ensure(1);
      if ok {
        Put(LBRACKET);
        depth := depth + 1;
      }
    }

    method EndArray() returns (ok: bool)
      requires Valid() && depth > 0
      modifies this`buffer, this`length, this`depth, buffer
      ensures ok == (offset + 3 <= old(Cap()))
      ensures ok ==> Wrote(old(Printed()), [RBRACKET]) && depth == old(depth) - 1 && Cap() == old(Cap())
      ensures Stays()
    {
      ok := Ensure(2);
      if ok {
        StrCpy([RBRACKET]);
        depth := depth - 1;
      }
    }

    lemma WroteAll(prefix: bytes, a: bytes, b: bytes, c: bytes)
      requires Wrote(prefix + a + b, c)
      ensures Wrote(prefix, a + b + c)
    {
      Right4(prefix, a, b, c);
      Right3(a, b, c);
    }

    /** The loop of print_array. */
    method PrintElems(item: Item, ghost s: set<Item>) returns (ok: bool)
      requires Valid() && Forest(s) && ArrayNode(item, s)
      modifies this`buffer, this`length, this`offset, this`depth, buffer
      ensures ok ==> Valid() && Printed() == old(Printed()) + ElemsText(item.val.elems, format, old(depth))
      ensures ok ==> depth == old(depth) && Cap() == old(Cap())
      ensures !ok ==> old(offset) + |ElemsText(item.val.elems, format, old(depth))| + 2 > old(Cap())
      ensures Stays()
      decreases item.val, 0
    {
      hide Valid;
      hide Cap;
      hide Printed;
      hide Wrote;
      hide ElemsText;
      hide Text;
      hide Plain;
      hide NulFree;
      hide Forest;
      hide Separator;
      ghost var es, d, whole := item.val.elems, depth, Printed() + ElemsText(item.val.elems, format, depth);
      var current := item.child;
      ghost var i := 0;
      assert es[0..] == es;
      while current != null
        invariant 0 <= i <= |es| == |item.kids| && current == (if i < |es| then item.kids[i] else null)
        invariant ArrayNode(item, s)
        invariant Valid() && depth == d && Cap() == old(Cap())
        invariant Printed() + ElemsText(es[i..], format, d) == whole
        invariant Stays()
        decreases |es| - i
      {
        assert current == item.kids[i] && current.next == if i + 1 < |item.kids| then item.kids[i + 1] else null;
        ElemsSplit(es, i, format, d);
        ghost var done, rest := Printed(), ElemsText(es[i + 1..], format, d);
        ok := PrintElement(current, s);
        if !ok {
          return;
        }
        Right3(done, Text(es[i], format, d) + (if i + 1 < |es| then Separator(format) else []), rest);
        current := current.next;
        i := i + 1;
      }
      ElemsEmpty(es[i..], format, d);
      ok := true;
    }

    /** What stands between two elements. */
    method Separate() returns (ok: bool)
      requires Valid()
      modifies this`buffer, this`length, this`offset, buffer
      ensures if ok then Valid() && Printed() == old(Printed()) + Separator(format) && Cap() == old(Cap())
              else old(offset) + |Separator(format)| + 2 > old(Cap())
      ensures Stays()
    {
      hide Valid;
      hide Cap;
      hide Printed;
      hide Wrote;
      var size := if format then 2 else 1;
      ok := Ensure(size + 1);
      if !ok {
        return;
      }
      Put(COMMA);
      if format {
        Put(SPACE);
      }
      Terminate();
    }

    /** One element and the separator behind it. */
    method PrintElement(current: Item, ghost s: set<Item>) returns (ok: bool)
      requires Valid() && Forest(s) && current in s && Plain(current.val)
      modifies this`buffer, this`length, this`offset, this`depth, buffer
      ensures var t := Text(current.val, format, old(depth)) + (if current.next != null then Separator(format) else []);
              if ok then Valid() && Printed() == old(Printed()) + t && depth == old(depth) && Cap() == old(Cap())
              else old(offset) + |t| + 2 > old(Cap())
      ensures Stays()
      decreases current.val, 3
    {
      hide Valid;
      hide Cap;
      hide Printed;
      hide Wrote;
      hide Text;
      hide Forest;
      ghost var prefix, t := Printed(), Text(current.val, format, depth);
      TextNulFree(current.val, format, depth);
      ok := PrintValue(current, s);
      if !ok {
        return;
      }
      UpdateOffset(prefix, t);
      if current.next != null {
        ok := Separate();
        Right3(prefix, t, Separator(format));
      }
    }

    /** Tabs from position `at` on. */
    method WriteTabs(at: nat, n: nat)
      requires Valid() && at + n < length
      modifies buffer
      ensures buffer[..at + n] == old(buffer[..at]) + Tabs(n)
      ensures Stays()
    {
      var i := 0;
      while i < n
        invariant 0 <= i <= n
        invariant buffer[..at + i] == old(buffer[..at]) + seq(i, _ => TAB)
        invariant Stays()
      {
        buffer[at + i] := TAB;
        assert buffer[..at + i + 1] == buffer[..at + i] + [TAB];
        i := i + 1;
      }
    }

    method PrintObject(item: Item, ghost s: set<Item>) returns (ok: bool)
      requires Valid() && Forest(s) && ObjectNode(item, s)
      modifies this`buffer, this`length, this`offset, this`depth, buffer
      ensures ok == (old(offset) + |Text(item.val, format, old(depth))| + 2 <= old(Cap()))
      ensures ok ==> Wrote(old(Printed()), Text(item.val, format, old(depth)))
      ensures ok ==> old(offset) <= offset <= old(offset) + |Text(item.val, format, old(depth))|
      ensures ok ==> depth == old(depth) && Cap() == old(Cap())
      ensures Stays()
      decreases item.val, 1
    {
      hide Valid;
      hide Cap;
      hide Printed;
      hide Wrote;
      hide Text;
      hide MembersText;
      hide Forest;
      ghost var prefix, body := Printed(), MembersText(item.val.members, format, depth + 1);
      ghost var first, last := [LBRACE] + Line(format), Indent(format, depth) + [RBRACE];
      ObjectText(item.val.members, format, depth);
      ok := OpenObject();
      if !ok {
        return;
      }
      ok := PrintMembers(item, s);
      if !ok {
        return;
      }
      ok := EndObject();
      if ok {
        WroteAll(prefix, first, body, last);
      }
    }

    method OpenObject() returns (ok: bool)
      requires Valid()
      modifies this`buffer, this`length, this`offset, this`depth, buffer
      ensures if ok then Valid() && Printed() == old(Printed()) + ([LBRACE] + Line(format)) && depth == old(depth) + 1
              else old(offset) + |[LBRACE] + Line(format)| + 2 > old(Cap())
      ensures ok ==> Cap() == old(Cap())
      ensures Stays()
    {
      hide Valid;
      hide Cap;
      hide Printed;
      hide Wrote;
      ghost var prefix := Printed();
      var size := if format then 2 else 1;
      ok := Ensure(size + 1);
      if !ok {
        return;
      }
      Put(LBRACE);
      depth := depth + 1;
      if format {
        Put(NEWLINE);
      }
      Right3(prefix, [LBRACE], Line(format));
    }

    method EndObject() returns (ok: bool)
      requires Valid() && depth > 0
      modifies this`buffer, this`length, this`depth, buffer
      ensures ok == (offset + |Indent(format, old(depth) - 1)| + 3 <= old(Cap()))
      ensures ok ==> Wrote(old(Printed()), Indent(format, old(depth) - 1) + [RBRACE])
      ensures ok ==> depth == old(depth) - 1 && Cap() == old(Cap())
      ensures Stays()
    {
      hide Valid;
      hide Cap;
      hide Printed;
      hide Wrote;
      ok := Ensure(if format then depth + 1 else 2);
      if ok {
        CloseBrace();
        depth := depth - 1;
      }
    }

    lemma ObjectText(ms: seq<Member>, fmt: bool, d: nat)
      ensures Text(Object(ms), fmt, d) == ([LBRACE] + Line(fmt)) + MembersText(ms, fmt, d + 1)
              + (Indent(fmt, d) + [RBRACE])
    {
      hide MembersText;
      Right3([LBRACE] + Line(fmt) + MembersText(ms, fmt, d + 1), Indent(fmt, d), [RBRACE]);
    }

    /** The end of print_object, behind the offset, which stays. */
    method CloseBrace()
      requires Valid() && depth > 0 && offset + (if format then depth + 1 else 2) < length
      modifies buffer
      ensures Wrote(old(Printed()), Indent(format, depth - 1) + [RBRACE])
      ensures Stays()
    {
      ghost var prefix := Printed();
      var out := offset;
      if format {
        WriteTabs(offset, depth - 1);
        out := out + (depth - 1);
      }
      ghost var tabs := Indent(format, depth - 1);
      assert buffer[..out] == prefix + tabs;
      buffer[out] := RBRACE;
      buffer[out + 1] := 0;
      assert buffer[..out + 1] == prefix + tabs + [RBRACE];
      Right3(prefix, tabs, [RBRACE]);
    }

    /** The loop of print_object. */
    method PrintMembers(item: Item, ghost s: set<Item>) returns (ok: bool)
      requires Valid() && Forest(s) && ObjectNode(item, s)
      modifies this`buffer, this`length, this`offset, this`depth, buffer
      ensures ok ==> Valid() && Printed() == old(Printed()) + MembersText(item.val.members, format, old(depth))
      ensures ok ==> depth == old(depth) && Cap() == old(Cap())
      ensures !ok ==> old(offset) + |MembersText(item.val.members, format, old(depth))| + 2 > old(Cap())
      ensures Stays()
      decreases item.val, 0
    {
      hide Valid;
      hide Cap;
      hide Printed;
      hide Wrote;
      hide MembersText;
      hide Text;
      hide KeyText;
      hide MemberEnd;
      hide Plain;
      hide NulFree;
      hide Forest;
      ghost var ms, d, whole := item.val.members, depth, Printed() + MembersText(item.val.members, format, depth);
      var current := item.child;
      ghost var i := 0;
      assert ms[0..] == ms;
      while current != null
        invariant 0 <= i <= |ms| == |item.kids| && current == (if i < |ms| then item.kids[i] else null)
        invariant ObjectNode(item, s)
        invariant Valid() && depth == d && Cap() == old(Cap())
        invariant Printed() + MembersText(ms[i..], format, d) == whole
        invariant Stays()
        decreases |ms| - i
      {
        assert current == item.kids[i] && current.next == if i + 1 < |item.kids| then item.kids[i + 1] else null;
        MembersSplit(ms, i, format, d);
        ghost var done, rest := Printed(), MembersText(ms[i + 1..], format, d);
        ok := PrintMember(current, s);
        if !ok {
          return;
        }
        Right3(done, MemberText(ms[i], i + 1 == |ms|, format, d), rest);
        current := current.next;
        i := i + 1;
      }
      MembersEmpty(ms[i..], format, d);
      ok := true;
    }

    /** One member: indentation, key, colon, value, and what ends its line. */
    method PrintMember(current: Item, ghost s: set<Item>) returns (ok: bool)
      requires Valid() && Forest(s) && current in s && Plain(current.val)
      requires current.key.Some? && NulFree(current.key.value)
      modifies this`buffer, this`length, this`offset, this`depth, buffer
      ensures var t := MemberText(Member(current.key.value, current.val), current.next == null, format, old(depth));
              if ok then Valid() && Printed() == old(Printed()) + t && depth == old(depth) && Cap() == old(Cap())
              else old(offset) + |t| + 2 > old(Cap())
      ensures Stays()
      decreases current.val, 3
    {
      hide Valid;
      hide Cap;
      hide Printed;
      hide Wrote;
      hide Text;
      hide KeyText;
      hide Forest;
      ghost var start, keyText, t, d := Printed(), KeyText(current.key.value, format, depth),
        Text(current.val, format, depth), depth;
      TextNulFree(current.val, format, depth);
      ok := PrintKey(current.key.value);
      if !ok {
        return;
      }
      ok := PrintValue(current, s);
      if !ok {
        return;
      }
      UpdateOffset(start + keyText, t);
      ok := EndMember(current.next == null);
      Right3(start, keyText, t);
      Right3(start, keyText + t, MemberEnd(current.next == null, format));
    }

    /** What follows the value of a member. */
    method EndMember(last: bool) returns (ok: bool)
      requires Valid()
      modifies this`buffer, this`length, this`offset, buffer
      ensures if ok then Valid() && Printed() == old(Printed()) + MemberEnd(last, format) && Cap() == old(Cap())
              else old(offset) + |MemberEnd(last, format)| + 2 > old(Cap())
      ensures Stays()
    {
      hide Valid;
      hide Cap;
      hide Printed;
      hide Wrote;
      var size := (if format then 1 else 0) + (if last then 0 else 1);
      ok := Ensure(size + 1);
      if !ok {
        return;
      }
      if !last {
        Put(COMMA);
      }
      if format {
        Put(NEWLINE);
      }
      Terminate();
    }

    method PutTabs()
      requires Valid() && offset + depth < length
      modifies buffer, this`offset
      ensures Valid() && Printed() == old(Printed()) + Tabs(depth)
      ensures Stays()
    {
      WriteTabs(offset, depth);
      offset := offset + depth;
    }

    /** Indentation, key and colon. */
    method PrintKey(key: bytes) returns (ok: bool)
      requires Valid() && NulFree(key)
      modifies this`buffer, this`length, this`offset, buffer
      ensures if ok then Valid() && Printed() == old(Printed()) + KeyText(key, format, depth) && Cap() == old(Cap())
              else old(offset) + |KeyText(key, format, depth)| + 2 > old(Cap())
      ensures Stays()
    {
      hide Valid;
      hide Cap;
      hide Printed;
      hide Wrote;
      hide Quoted;
      ghost var start, tabs, quoted := Printed(), Indent(format, depth), Quoted(key);
      QuotedNulFree(key);
      if format {
        ok := Ensure(depth);
        if !ok {
          return;
        }
        PutTabs();
      }
      assert Printed() == start + tabs;
      ok := PrintStringPtr(key);
      if !ok {
        return;
      }
      UpdateOffset(start + tabs, quoted);
      var size := if format then 2 else 1;
      ok := Ensure(size);
      if !ok {
        return;
      }
      Put(COLON);
      if format {
        Put(TAB);
      }
      KeyParts(start, key, format, depth);
    }

    lemma KeyParts(start: bytes, key: bytes, fmt: bool, d: nat)
      ensures start + KeyText(key, fmt, d) == start + Indent(fmt, d) + Quoted(key)
              + (if fmt then [COLON, TAB] else [COLON])
    {
      hide Quoted;
      Right4(start, Indent(fmt, d), Quoted(key), if fmt then [COLON, TAB] else [COLON]);
      Right3(Indent(fmt, d), Quoted(key), if fmt then [COLON, TAB] else [COLON]);
    }
  }

  // ----- the entry points -----

  lemma Terminated(p: PrintBuffer, t: bytes)
    requires p.Wrote([], t)
    ensures p.buffer[..|t| + 1] == t + [0]
  {
    assert [] + t == t;
    assert p.buffer[..|t| + 1] == p.buffer[..|t|] + [p.buffer[|t|]];
  }

  /** The first half of print: the text in a growing buffer, the offset behind it. */
  method PrintGrowing(item: Item, ghost s: set<Item>, format: bool) returns (p: PrintBuffer?)
    requires Forest(s) && item in s && Plain(item.val)
    ensures p == null <==> |Text(item.val, format, 0)| + 2 > INT_MAX
    ensures p != null ==> fresh(p) && p.Valid() && p.Printed() == Text(item.val, format, 0)
  {
    hide Text;
    hide Forest;
    var start := new byte[256];
    p := new PrintBuffer(start, start.Length, false, format);
    assert p.Printed() == [];
    var ok := p.PrintValue(item, s);
    if !ok {
      return null;
    }
    TextNulFree(item.val, format, 0);
    p.UpdateOffset([], Text(item.val, format, 0));
    assert [] + Text(item.val, format, 0) == Text(item.val, format, 0);
  }

  /** print: a buffer of 256 bytes to begin with, and at the end a block of the exact size. */
  method Print(item: Item, ghost s: set<Item>, format: bool) returns (printed: array?<byte>)
    requires Forest(s) && item in s && Plain(item.val)
    ensures printed == null <==> |Text(item.val, format, 0)| + 2 > INT_MAX
    ensures printed != null ==> fresh(printed) && printed[..] == Text(item.val, format, 0) + [0]
  {
    hide Text;
    hide Forest;
    ghost var t := Text(item.val, format, 0);
    var p := PrintGrowing(item, s, format);
    if p == null {
      return null;
    }
    var n := p.offset;
    assert p.Printed() == t;
    printed := new byte[n + 1];
    forall i | 0 <= i < n {
      printed[i] := p.buffer[i];
    }
    printed[n] := 0;
    assert printed[..n] == p.Printed();
    assert printed[..] == printed[..n] + [0];
  }

  /** cJSON_PrintBuffered: the text does not depend on the size the buffer starts with. */
  method PrintBuffered(item: Item, ghost s: set<Item>, prebuffer: int, format: bool) returns (text: array?<byte>)
    requires Forest(s) && item in s && Plain(item.val) && prebuffer <= INT_MAX
    ensures text == null <==> prebuffer < 0 || |Text(item.val, format, 0)| + 2 > INT_MAX
    ensures text != null ==>
              && fresh(text) && |Text(item.val, format, 0)| < text.Length
              && text[..|Text(item.val, format, 0)| + 1] == Text(item.val, format, 0) + [0]
  {
    hide Text;
    hide Forest;
    if prebuffer < 0 {
      return null;
    }
    var start := new byte[prebuffer];
    var p := new PrintBuffer(start, start.Length, false, format);
    var ok := p.PrintValue(item, s);
    if !ok {
      return null;
    }
    text := p.buffer;
    Terminated(p, Text(item.val, format, 0));
  }

  /** cJSON_PrintPreallocated: it needs exactly two bytes more than the text has, one of them spare. */
  method PrintPreallocated(item: Item, ghost s: set<Item>, buffer: array?<byte>, length: int, format: bool)
    returns (ok: bool)
    requires Forest(s) && item in s && Plain(item.val) && length <= INT_MAX
    requires buffer != null ==> length <= buffer.Length
    modifies if buffer != null then {buffer} else {}
    ensures ok == (buffer != null && |Text(item.val, format, 0)| + 2 <= length)
    ensures ok ==> buffer[..|Text(item.val, format, 0)| + 1] == Text(item.val, format, 0) + [0]
    ensures buffer != null && length >= 0 ==> buffer[length..] == old(buffer[length..])
    ensures buffer != null && length < 0 ==> buffer[..] == old(buffer[..])
  {
    hide Text;
    hide Forest;
    if length < 0 || buffer == null {
      return false;
    }
    var p := new PrintBuffer(buffer, length, true, format);
    ok := p.PrintValue(item, s);
    if ok {
      Terminated(p, Text(item.val, format, 0));
    }
  }
}
