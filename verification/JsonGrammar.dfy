/**
 What the parser of `cJSON.c` accepts, as functions on the text still to be read (without its
 terminator). The parser itself, with its offset into the buffer, is in JsonParser.
 */
module JsonGrammar {
  import opened Bytes
  import opened JsonValue
  import Utf8

  /** The outcome of reading one thing off the front of the text. */
  datatype Parsed<+T> = Fail | Done(value: T, rest: bytes)

  const NESTING_LIMIT := 1000

  predicate IsBlank(b: byte) {
    b <= 32
  }

  function SkipWs(s: bytes): (r: bytes)
    ensures |r| <= |s|
    ensures r != [] ==> !IsBlank(r[0])
  {
    if s != [] && IsBlank(s[0]) then SkipWs(s[1..]) else s
  }

  // ----- numbers -----

  /** The bytes parse_number copies to its buffer. */
  predicate IsNumberChar(b: byte) {
    IsDigit(b) || b == PLUS || b == MINUS || b == 0x65 || b == 0x45 || b == DOT
  }

  /** How many bytes are copied: a run of number characters, 63 at most. */
  function NumberSpan(s: bytes, limit: nat): (n: nat)
    ensures n <= |s| && n <= limit
    ensures forall i :: 0 <= i < n ==> IsNumberChar(s[i])
    ensures n < limit && n < |s| ==> !IsNumberChar(s[n])
    decreases limit
  {
    if limit == 0 || s == [] || !IsNumberChar(s[0]) then 0 else 1 + NumberSpan(s[1..], limit - 1)
  }

  /** The run of number characters is the only one. */
  lemma SpanUnique(s: bytes, limit: nat, n: nat)
    requires n <= |s| && n <= limit
    requires forall i :: 0 <= i < n ==> IsNumberChar(s[i])
    requires n < limit && n < |s| ==> !IsNumberChar(s[n])
    ensures n == NumberSpan(s, limit)
  {
  }

  function DigitSpan(s: bytes): (n: nat)
    ensures n <= |s|
    ensures forall i :: 0 <= i < n ==> IsDigit(s[i])
    ensures n < |s| ==> !IsDigit(s[n])
  {
    if s == [] || !IsDigit(s[0]) then 0 else 1 + DigitSpan(s[1..])
  }

  function DigitRun(s: bytes): (r: bytes)
    ensures forall i :: 0 <= i < |r| ==> IsDigit(r[i])
  {
    s[..DigitSpan(s)]
  }

  function DigitValue(b: byte): nat
    requires IsDigit(b)
  {
    b - ZERO
  }

  function DigitsValue(s: bytes): nat
    requires forall i :: 0 <= i < |s| ==> IsDigit(s[i])
  {
    if s == [] then 0 else 10 * DigitsValue(s[..|s| - 1]) + DigitValue(s[|s| - 1])
  }

  /** `x * 10^e`. */
  function Scale(x: real, e: int): real
    decreases if e < 0 then -e else e
  {
    if e == 0 then x else if e > 0 then Scale(x * 10.0, e - 1) else Scale(x / 10.0, e + 1)
  }

  function SignSpan(s: bytes): nat {
    if s != [] && (s[0] == MINUS || s[0] == PLUS) then 1 else 0
  }

  /** The exponent part at the front of `s`: its length (0 when there is none) and its value. */
  function Exponent(s: bytes): (r: (nat, int))
    ensures r.0 <= |s|
  {
    if s == [] || !(s[0] == 0x65 || s[0] == 0x45) then (0, 0)
    else
      var sg := SignSpan(s[1..]);
      var n := DigitSpan(s[1 + sg..]);
      if n == 0 then (0, 0)
      else
        var e: int := DigitsValue(s[1 + sg..1 + sg + n]);
        (1 + sg + n, if sg == 1 && s[1] == MINUS then -e else e)
  }

  /** strtod on decimal text: the length of the longest number at the front, and its exact value. */
  function Strtod(s: bytes): (r: (nat, real))
    ensures r.0 <= |s|
  {
    var sg := SignSpan(s);
    var a := DigitSpan(s[sg..]);
    var dot := sg + a < |s| && s[sg + a] == DOT;
    var b := if dot then DigitSpan(s[sg + a + 1..]) else 0;
    if a + b == 0 then (0, 0.0)
    else
      var end := sg + a + if dot then 1 + b else 0;
      var (x, e) := Exponent(s[end..]);
      var mantissa := DigitsValue(DigitRun(s[sg..]) + if dot then DigitRun(s[sg + a + 1..]) else []);
      var magnitude := Scale(mantissa as real, e - b);
      (end + x, if sg == 1 && s[0] == MINUS then -magnitude else magnitude)
  }

  function ParseNumber(s: bytes): (r: Parsed<Json>)
    ensures r.Done? ==> |r.rest| < |s|
  {
    var (n, d) := Strtod(s[..NumberSpan(s, 63)]);
    if n == 0 then Fail else Done(Number(d), s[n..])
  }

  // ----- strings -----

  /** The value of four hexadecimal digits; anything else counts as 0. */
  function Hex4(s: bytes): (v: nat)
    requires |s| == 4
    ensures v < 0x1_0000
  {
    if AllHex(s) then ((HexValue(s[0]) * 16 + HexValue(s[1])) * 16 + HexValue(s[2])) * 16 + HexValue(s[3]) else 0
  }

  predicate IsHighSurrogate(c: nat) {
    0xd800 <= c <= 0xdbff
  }

  predicate IsLowSurrogate(c: nat) {
    0xdc00 <= c <= 0xdfff
  }

  /** The code point of a `\u` escape at the front of `s`, and how many bytes the escape takes. */
  function Utf16(s: bytes): (r: Option<(nat, nat)>)
    ensures r.Some? ==> Utf8.IsScalar(r.value.0) && 0 < r.value.1 <= |s|
    ensures r.Some? ==> (r.value.1 == 6 && r.value.0 < 0x1_0000) || (r.value.1 == 12 && r.value.0 >= 0x1_0000)
  {
    if |s| < 6 then None
    else
      var first := Hex4(s[2..6]);
      if IsLowSurrogate(first) then None
      else if IsHighSurrogate(first) then
        if |s| < 12 || s[6] != BACKSLASH || s[7] != 0x75 then None
        else
          var second := Hex4(s[8..12]);
          if IsLowSurrogate(second) then Some((0x1_0000 + (first - 0xd800) * 0x400 + (second - 0xdc00), 12)) else None
      else Some((first, 6))
  }

  /** The byte a one-letter escape stands for. */
  function SimpleEscape(b: byte): Option<byte> {
    if b == 0x62 then Some(BELL_B)
    else if b == 0x66 then Some(FORMFEED)
    else if b == 0x6e then Some(NEWLINE)
    else if b == 0x72 then Some(RETURN)
    else if b == 0x74 then Some(TAB)
    else if b == QUOTE || b == BACKSLASH || b == SLASH then Some(b)
    else None
  }

  function Prepend(x: bytes, o: Option<bytes>): Option<bytes> {
    if o.None? then None else Some(x + o.value)
  }

  function From(s: bytes, n: nat): (r: bytes)
    ensures |r| == if n <= |s| then |s| - n else 0
  {
    if n <= |s| then s[n..] else []
  }

  /**
   The second pass of parse_string over the bytes before the closing quote. A backslash that comes last
   looks at the closing quote itself.
   */
  function Unescape(s: bytes): Option<bytes>
    decreases |s|
  {
    if s == [] then Some([])
    else if s[0] != BACKSLASH then Prepend([s[0]], Unescape(s[1..]))
    else
      var b := if |s| >= 2 then s[1] else QUOTE;
      if b == 0x75 then
        match Utf16(s)
        case None => None
        case Some((c, n)) => Prepend(Utf8.Encode(c), Unescape(From(s, n)))
      else
        match SimpleEscape(b)
        case None => None
        case Some(x) => Prepend([x], Unescape(From(s, 2)))
  }

  function Later(n: nat, o: Option<nat>): Option<nat> {
    if o.None? then None else Some(n + o.value)
  }

  /** The first pass: where the closing quote is. */
  function CloseAt(s: bytes): (r: Option<nat>)
    ensures r.Some? ==> r.value < |s| && s[r.value] == QUOTE
    decreases |s|
  {
    if s == [] then None
    else if s[0] == QUOTE then Some(0)
    else
      var step := if s[0] == BACKSLASH then 2 else 1;
      Later(step, CloseAt(From(s, step)))
  }

  /** A C string ends at its first NUL. */
  function CString(s: bytes): (r: bytes)
    ensures NulFree(r)
    ensures NulFree(s) ==> r == s
  {
    if s == [] || s[0] == 0 then [] else [s[0]] + CString(s[1..])
  }

  function ParseString(s: bytes): (r: Parsed<bytes>)
    ensures r.Done? ==> |r.rest| < |s|
  {
    if s == [] || s[0] != QUOTE then Fail
    else
      match CloseAt(s[1..])
      case None => Fail
      case Some(k) =>
        match Unescape(s[1..1 + k])
        case None => Fail
        case Some(t) => Done(CString(t), s[k + 2..])
  }

  /** A string literal, given where it ends. */
  lemma StringAt(s: bytes, k: nat)
    requires s != [] && s[0] == QUOTE && CloseAt(s[1..]) == Some(k)
    ensures k + 2 <= |s|
    ensures ParseString(s) == match Unescape(s[1..1 + k]) case None => Fail case Some(t) => Done(CString(t), s[k + 2..])
  {
    hide CloseAt;
    hide Unescape;
  }

  // ----- values -----

  function AsArray(p: Parsed<seq<Json>>): Parsed<Json> {
    if p.Fail? then Fail else Done(Array(p.value), p.rest)
  }

  function AsObject(p: Parsed<seq<Member>>): Parsed<Json> {
    if p.Fail? then Fail else Done(Object(p.value), p.rest)
  }

  function Cons<T>(x: T, p: Parsed<seq<T>>): Parsed<seq<T>> {
    if p.Fail? then Fail else Done([x] + p.value, p.rest)
  }

  predicate StartsWith(s: bytes, lit: bytes) {
    lit <= s
  }

  function ParseValue(s: bytes, depth: nat): (r: Parsed<Json>)
    ensures r.Done? ==> |r.rest| < |s|
    decreases |s|, 1
  {
    if StartsWith(s, NULL_TEXT) then Done(Null, s[4..])
    else if StartsWith(s, FALSE_TEXT) then Done(False, s[5..])
    else if StartsWith(s, TRUE_TEXT) then Done(True, s[4..])
    else if s == [] then Fail
    else if s[0] == QUOTE then
      match ParseString(s)
      case Fail => Fail
      case Done(t, r) => Done(String(t), r)
    else if s[0] == MINUS || IsDigit(s[0]) then ParseNumber(s)
    else if s[0] == LBRACKET then ParseArray(s, depth)
    else if s[0] == LBRACE then ParseObject(s, depth)
    else Fail
  }

  function ParseArray(s: bytes, depth: nat): (r: Parsed<Json>)
    requires s != []
    ensures r.Done? ==> |r.rest| < |s|
    decreases |s|, 0
  {
    if depth >= NESTING_LIMIT then Fail
    else
      AsArray(ArrayRest(SkipWs(s[1..]), depth + 1))
  }

  /** What is between the brackets and the closing one, which may come at once. */
  function ArrayRest(t: bytes, depth: nat): (r: Parsed<seq<Json>>)
    ensures r.Done? ==> |r.rest| < |t|
    decreases |t|, 4
  {
    if t != [] && t[0] == RBRACKET then Done([], t[1..]) else ParseElems(t, depth)
  }

  /** The elements up to and with the closing bracket. */
  function ParseElems(s: bytes, depth: nat): (r: Parsed<seq<Json>>)
    ensures r.Done? ==> |r.rest| < |s|
    decreases |s|, 2
  {
    match ParseValue(SkipWs(s), depth)
    case Fail => Fail
    case Done(v, r) =>
      var u := SkipWs(r);
      if u != [] && u[0] == COMMA then
        Cons(v, ParseElems(u[1..], depth))
      else if u != [] && u[0] == RBRACKET then Done([v], u[1..])
      else Fail
  }

  function ParseObject(s: bytes, depth: nat): (r: Parsed<Json>)
    requires s != []
    ensures r.Done? ==> |r.rest| < |s|
    decreases |s|, 0
  {
    if depth >= NESTING_LIMIT then Fail
    else
      AsObject(ObjectRest(SkipWs(s[1..]), depth + 1))
  }

  /** What is between the brackets and the closing one, which may come at once. */
  function ObjectRest(t: bytes, depth: nat): (r: Parsed<seq<Member>>)
    ensures r.Done? ==> |r.rest| < |t|
    decreases |t|, 4
  {
    if t != [] && t[0] == RBRACE then Done([], t[1..]) else ParseMembers(t, depth)
  }

  /** A key, a colon and a value. */
  function ParseMember(s: bytes, depth: nat): (r: Parsed<Member>)
    ensures r.Done? ==> |r.rest| < |s|
    decreases |s|, 2
  {
    match ParseString(SkipWs(s))
    case Fail => Fail
    case Done(k, r) =>
      var u := SkipWs(r);
      if u == [] || u[0] != COLON then Fail
      else
        match ParseValue(SkipWs(u[1..]), depth)
        case Fail => Fail
        case Done(v, r') => Done(Member(k, v), r')
  }

  /** The members up to and with the closing brace. */
  function ParseMembers(s: bytes, depth: nat): (r: Parsed<seq<Member>>)
    ensures r.Done? ==> |r.rest| < |s|
    decreases |s|, 3
  {
    match ParseMember(s, depth)
    case Fail => Fail
    case Done(m, r) =>
      var u := SkipWs(r);
      if u != [] && u[0] == COMMA then
        Cons(m, ParseMembers(u[1..], depth))
      else if u != [] && u[0] == RBRACE then Done([m], u[1..])
      else Fail
  }

  // ----- the grammar of a value, by its first byte -----

  lemma LiteralReads(lit: bytes, rest: bytes, d: nat)
    requires lit in {NULL_TEXT, FALSE_TEXT, TRUE_TEXT}
    ensures ParseValue(lit + rest, d)
         == Done(if lit == NULL_TEXT then Null else if lit == FALSE_TEXT then False else True, rest)
  {
    assert StartsWith(lit + rest, lit) && (lit + rest)[|lit|..] == rest;
    assert (lit + rest)[0] == lit[0];
  }

  /** ParseValue on a text that begins with none of the letters of a literal. */
  lemma OtherValue(s: bytes, d: nat)
    requires s != []
             && s[0] in {QUOTE, LBRACKET, LBRACE, MINUS, 0x30, 0x31, 0x32, 0x33, 0x34, 0x35, 0x36, 0x37, 0x38, 0x39}
    ensures s[0] == QUOTE ==>
            ParseValue(s, d) == (match ParseString(s) case Fail => Fail case Done(t, r) => Done(String(t), r))
    ensures s[0] == LBRACKET ==> ParseValue(s, d) == ParseArray(s, d)
    ensures s[0] == LBRACE ==> ParseValue(s, d) == ParseObject(s, d)
    ensures s[0] == MINUS || IsDigit(s[0]) ==> ParseValue(s, d) == ParseNumber(s)
  {
    hide ParseString;
    hide ParseNumber;
    hide ParseArray;
    hide ParseObject;
  }

  // ----- the grammar, read one element at a time -----

  /** `p` with `xs` in front. */
  function After<T>(xs: seq<T>, p: Parsed<seq<T>>): Parsed<seq<T>> {
    if p.Fail? then Fail else Done(xs + p.value, p.rest)
  }

  lemma AfterNothing<T>(p: Parsed<seq<T>>)
    ensures After([], p) == p
  {
    if p.Done? {
      assert [] + p.value == p.value;
    }
  }

  lemma AfterMore<T>(xs: seq<T>, x: T, p: Parsed<seq<T>>)
    ensures After(xs, Cons(x, p)) == After(xs + [x], p)
  {
    if p.Done? {
      assert xs + ([x] + p.value) == xs + [x] + p.value;
    }
  }

  /** What may follow an element. */
  function AfterElement(u: bytes, d: nat): Parsed<seq<Json>> {
    if u == [] then Fail
    else if u[0] == COMMA then ParseElems(u[1..], d)
    else if u[0] == RBRACKET then Done([], u[1..])
    else Fail
  }

  lemma ElementIs(s: bytes, d: nat)
    ensures var p := ParseValue(SkipWs(s), d);
            ParseElems(s, d) == if p.Fail? then Fail else Cons(p.value, AfterElement(SkipWs(p.rest), d))
  {
    hide ParseValue;
    hide SkipWs;
    var p := ParseValue(SkipWs(s), d);
    if p.Done? {
      assert [p.value] + [] == [p.value];
    }
  }

  /** What may follow a member. */
  function AfterMember(u: bytes, d: nat): Parsed<seq<Member>> {
    if u == [] then Fail
    else if u[0] == COMMA then ParseMembers(u[1..], d)
    else if u[0] == RBRACE then Done([], u[1..])
    else Fail
  }

  lemma MemberText(s: bytes, d: nat)
    ensures var p := ParseString(SkipWs(s));
            if p.Fail? then ParseMember(s, d) == Fail
            else
              var u := SkipWs(p.rest);
              if u == [] || u[0] != COLON then ParseMember(s, d) == Fail
              else
                var q := ParseValue(SkipWs(u[1..]), d);
                ParseMember(s, d) == if q.Fail? then Fail else Done(Member(p.value, q.value), q.rest)
  {
  }

  lemma MemberIs(s: bytes, d: nat)
    ensures var p := ParseMember(s, d);
            ParseMembers(s, d) == if p.Fail? then Fail else Cons(p.value, AfterMember(SkipWs(p.rest), d))
  {
    hide ParseMember;
    hide SkipWs;
    var p := ParseMember(s, d);
    if p.Done? {
      assert [p.value] + [] == [p.value];
    }
  }

  /** A byte order mark is skipped when at least four bytes of text are there. */
  function SkipBom(s: bytes): bytes {
    if |s| >= 4 && s[..3] == [0xef, 0xbb, 0xbf] then s[3..] else s
  }

  /** The whole text; with `whole` (require_null_terminated) only space may follow the value. */
  function ParseText(s: bytes, whole: bool): Parsed<Json> {
    match ParseValue(SkipWs(SkipBom(s)), 0)
    case Fail => Fail
    case Done(v, r) => if !whole then Done(v, r) else if SkipWs(r) == [] then Done(v, []) else Fail
  }
}
