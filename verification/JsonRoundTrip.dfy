/** Parsing undoes printing, formatted or not. */
module JsonRoundTrip {
  import opened Bytes
  import opened JsonValue
  import opened JsonGrammar
  import JsonStrings

  // ----- white space -----

  predicate Blanks(s: bytes) {
    forall i :: 0 <= i < |s| ==> IsBlank(s[i])
  }

  predicate Sharp(s: bytes) {
    s == [] || !IsBlank(s[0])
  }

  lemma {:induction false} SkipBlanks(ws: bytes, s: bytes)
    requires Blanks(ws) && Sharp(s)
    ensures SkipWs(ws + s) == s
    decreases |ws|
  {
    if ws == [] {
      assert ws + s == s;
    } else {
      assert (ws + s)[1..] == ws[1..] + s;
      SkipBlanks(ws[1..], s);
    }
  }

  lemma SkipNothing(s: bytes)
    requires Sharp(s)
    ensures SkipWs(s) == s
  {
  }

  // ----- numbers -----

  function Pow10(k: nat): nat {
    if k == 0 then 1 else 10 * Pow10(k - 1)
  }

  lemma {:induction false} DigitsShort(n: nat, k: nat)
    requires 0 < k && n < Pow10(k)
    ensures |Digits(n)| <= k
    decreases k
  {
    if n >= 10 {
      assert n / 10 < Pow10(k - 1);
      DigitsShort(n / 10, k - 1);
    }
  }

  lemma {:induction false} DigitsAreDigits(n: nat)
    ensures forall i :: 0 <= i < |Digits(n)| ==> IsDigit(Digits(n)[i])
    decreases n
  {
    if n >= 10 {
      DigitsAreDigits(n / 10);
    }
  }

  lemma {:induction false} DigitsRead(n: nat)
    requires forall i :: 0 <= i < |Digits(n)| ==> IsDigit(Digits(n)[i])
    ensures DigitsValue(Digits(n)) == n
    decreases n
  {
    var s := Digits(n);
    if n >= 10 {
      DigitsAreDigits(n / 10);
      DigitsRead(n / 10);
      assert s[..|s| - 1] == Digits(n / 10);
    } else {
      assert s[..0] == [];
    }
  }

  lemma {:induction false} AllNumberChars(s: bytes, rest: bytes, limit: nat)
    requires |s| < limit && (forall i :: 0 <= i < |s| ==> IsNumberChar(s[i]))
    requires rest == [] || !IsNumberChar(rest[0])
    ensures NumberSpan(s + rest, limit) == |s|
    decreases limit
  {
    if s == [] {
      assert s + rest == rest;
    } else {
      assert (s + rest)[1..] == s[1..] + rest;
      AllNumberChars(s[1..], rest, limit - 1);
    }
  }

  lemma {:induction false} AllDigits(s: bytes)
    requires forall i :: 0 <= i < |s| ==> IsDigit(s[i])
    ensures DigitSpan(s) == |s|
    decreases |s|
  {
    if s != [] {
      AllDigits(s[1..]);
    }
  }

  lemma DecimalReads(i: int)
    ensures Strtod(Decimal(i)) == (|Decimal(i)|, i as real)
    ensures forall k :: 0 <= k < |Decimal(i)| ==> IsNumberChar(Decimal(i)[k])
  {
    var s := Decimal(i);
    var n: nat := if i < 0 then -i else i;
    var sg := if i < 0 then 1 else 0;
    var ds := Digits(n);
    DigitsAreDigits(n);
    DigitsRead(n);
    AllDigits(ds);
    hide Digits;
    hide DigitsValue;
    hide DigitSpan;
    assert SignSpan(s) == sg;
    assert s[sg..] == ds;
    assert s[|s|..] == [];
    assert DigitRun(s[sg..]) + [] == ds;
  }

  /** A printed integer is read back when no number character follows. */
  lemma NumberReads(i: int, rest: bytes)
    requires INT_MIN <= i <= INT_MAX
    requires rest == [] || !IsNumberChar(rest[0])
    ensures ParseNumber(Decimal(i) + rest) == Done(Number(i as real), rest)
  {
    var s := Decimal(i);
    DecimalReads(i);
    DigitsShort(if i < 0 then -i else i, 10) by {
      assert Pow10(5) == 100000;
      assert Pow10(10) == 10 * (10 * (10 * (10 * (10 * Pow10(5)))));
    }
    AllNumberChars(s, rest, 63);
    assert (s + rest)[..|s|] == s;
    assert (s + rest)[|s|..] == rest;
  }

  // ----- how a text begins -----

  lemma TextBegins(v: Json, fmt: bool, depth: nat)
    ensures var b := Text(v, fmt, depth)[0];
            b > 32 && b != RBRACKET && b != RBRACE && b != 0xef
  {
    match v
    case Number(d) =>
      DigitsAreDigits(if d.Floor < 0 then -d.Floor else d.Floor);
    case _ =>
  }

  /** What may follow a value without changing how it is read. */
  predicate Ends(rest: bytes) {
    rest == [] || !IsNumberChar(rest[0])
  }

  // ----- one step of each list parser -----

  lemma ArrayOpens(b: bytes, t: bytes, depth: nat)
    requires SkipWs(b) == t && depth < NESTING_LIMIT
    ensures ParseValue([LBRACKET] + b, depth)
         == if t != [] && t[0] == RBRACKET then Done(Array([]), t[1..]) else AsArray(ParseElems(t, depth + 1))
  {
    hide ParseValue;
    hide ParseElems;
    hide SkipWs;
    var s := [LBRACKET] + b;
    assert s[0] == LBRACKET && s[1..] == b;
    OtherValue(s, depth);
  }

  lemma ElemsStep(s: bytes, v: Json, r: bytes, depth: nat)
    requires ParseValue(SkipWs(s), depth) == Done(v, r)
    ensures var u := SkipWs(r);
            && (u != [] && u[0] == COMMA ==> ParseElems(s, depth) == Cons(v, ParseElems(u[1..], depth)))
            && (u != [] && u[0] == RBRACKET ==> ParseElems(s, depth) == Done([v], u[1..]))
  {
  }

  lemma ElemsSkip(s: bytes, t: bytes, depth: nat)
    requires SkipWs(s) == SkipWs(t)
    ensures ParseElems(s, depth) == ParseElems(t, depth)
  {
    hide ParseValue;
  }

  lemma ObjectOpens(b: bytes, t: bytes, depth: nat)
    requires SkipWs(b) == t && depth < NESTING_LIMIT
    ensures ParseValue([LBRACE] + b, depth)
         == if t != [] && t[0] == RBRACE then Done(Object([]), t[1..]) else AsObject(ParseMembers(t, depth + 1))
  {
    hide ParseValue;
    hide ParseMembers;
    hide SkipWs;
    var s := [LBRACE] + b;
    assert s[0] == LBRACE && s[1..] == b;
    OtherValue(s, depth);
  }

  lemma MemberStep(s: bytes, k: bytes, r: bytes, b: bytes, v: Json, r': bytes, depth: nat)
    requires ParseString(SkipWs(s)) == Done(k, r)
    requires SkipWs(r) == [COLON] + b
    requires ParseValue(SkipWs(b), depth) == Done(v, r')
    ensures ParseMember(s, depth) == Done(Member(k, v), r')
  {
    hide ParseValue;
    hide ParseString;
    assert ([COLON] + b)[1..] == b;
  }

  lemma MembersStep(s: bytes, m: Member, r: bytes, depth: nat)
    requires ParseMember(s, depth) == Done(m, r)
    ensures var u := SkipWs(r);
            && (u != [] && u[0] == COMMA ==> ParseMembers(s, depth) == Cons(m, ParseMembers(u[1..], depth)))
            && (u != [] && u[0] == RBRACE ==> ParseMembers(s, depth) == Done([m], u[1..]))
  {
    hide ParseMember;
  }

  lemma MembersSkip(s: bytes, t: bytes, depth: nat)
    requires SkipWs(s) == SkipWs(t)
    ensures ParseMembers(s, depth) == ParseMembers(t, depth)
  {
    hide ParseValue;
    hide ParseString;
    assert ParseMember(s, depth) == ParseMember(t, depth);
  }

  // ----- the texts, cut where the parser stops -----

  function Gap(fmt: bool): bytes {
    if fmt then [SPACE] else []
  }

  function Indent(fmt: bool, d: nat): bytes {
    if fmt then Tabs(d) else []
  }

  function Line(fmt: bool): bytes {
    if fmt then [NEWLINE] else []
  }

  lemma ArrayText(es: seq<Json>, fmt: bool, d: nat, rest: bytes)
    ensures Text(Array(es), fmt, d) + rest
         == [LBRACKET] + (ElemsText(es, fmt, d + 1) + ([RBRACKET] + rest))
  {
  }

  lemma ElemsCut(es: seq<Json>, fmt: bool, d: nat, tail: bytes)
    requires es != []
    ensures |es| == 1 ==> ElemsText(es, fmt, d) + tail == Text(es[0], fmt, d) + tail
    ensures |es| > 1 ==>
              ElemsText(es, fmt, d) + tail
              == Text(es[0], fmt, d) + ([COMMA] + (Gap(fmt) + (ElemsText(es[1..], fmt, d) + tail)))
  {
    hide Text;
    if |es| == 1 {
      assert es[1..] == [];
    } else {
      assert Separator(fmt) == [COMMA] + Gap(fmt);
    }
  }

  lemma ObjectText(ms: seq<Member>, fmt: bool, d: nat, rest: bytes)
    ensures Text(Object(ms), fmt, d) + rest
         == [LBRACE] + (Line(fmt) + (MembersText(ms, fmt, d + 1) + (Indent(fmt, d) + ([RBRACE] + rest))))
  {
    var body := MembersText(ms, fmt, d + 1);
    hide MembersText;
    Right5([LBRACE], Line(fmt), body, Indent(fmt, d), [RBRACE]);
    Right5([LBRACE], Line(fmt), body, Indent(fmt, d), [RBRACE] + rest);
    Right3([LBRACE] + Line(fmt) + body + Indent(fmt, d), [RBRACE], rest);
  }

  /** A line break and its indentation are skipped. */
  lemma SkipIndent(fmt: bool, d: nat, s: bytes)
    requires Sharp(s)
    ensures SkipWs(Line(fmt) + (Indent(fmt, d) + s)) == s
  {
    var ws := Line(fmt) + Indent(fmt, d);
    assert Blanks(ws);
    Right3(Line(fmt), Indent(fmt, d), s);
    SkipBlanks(ws, s);
  }

  lemma SkipGap(ws: bytes, s: bytes)
    requires Sharp(s) && |ws| <= 1 && (ws != [] ==> IsBlank(ws[0]))
    ensures SkipWs(ws + s) == s
  {
    SkipBlanks(ws, s);
  }

  lemma Front<T>(x: T, s: seq<T>)
    ensures ([x] + s)[0] == x && ([x] + s)[1..] == s
  {
  }

  /** The text of the members without the tabs in front of the first key. */
  function MembersInner(ms: seq<Member>, fmt: bool, d: nat): (s: bytes)
    requires ms != []
    ensures s != [] && s[0] == QUOTE
  {
    Quoted(ms[0].key)
    + ([COLON] + ((if fmt then [TAB] else [])
                  + (Text(ms[0].value, fmt, d) + (MemberEnd(|ms| == 1, fmt) + MembersText(ms[1..], fmt, d)))))
  }

  lemma MembersCut(ms: seq<Member>, fmt: bool, d: nat)
    requires ms != []
    ensures MembersText(ms, fmt, d) == Indent(fmt, d) + MembersInner(ms, fmt, d)
  {
    hide Text;
    hide Quoted;
    hide Tabs;
    hide MemberEnd;
    var t, e, m := Text(ms[0].value, fmt, d), MemberEnd(|ms| == 1, fmt), MembersText(ms[1..], fmt, d);
    var tab: bytes := if fmt then [TAB] else [];
    var colon: bytes := if fmt then [COLON, TAB] else [COLON];
    assert KeyText(ms[0].key, fmt, d) == Indent(fmt, d) + Quoted(ms[0].key) + colon;
    Right4(Indent(fmt, d) + Quoted(ms[0].key) + colon, t, e, m);
    Right4(Indent(fmt, d), Quoted(ms[0].key), colon, t + (e + m));
    assert colon == [COLON] + tab;
    Right3([COLON], tab, t + (e + m));
  }

  // ----- values -----

  lemma DecimalBegins(i: int)
    ensures Decimal(i)[0] == MINUS || IsDigit(Decimal(i)[0])
  {
    DigitsAreDigits(if i < 0 then -i else i);
  }

  lemma ScalarReads(v: Json, fmt: bool, d: nat, rest: bytes, depth: nat)
    requires Plain(v) && Ends(rest) && !v.Array? && !v.Object?
    ensures ParseValue(Text(v, fmt, d) + rest, depth) == Done(v, rest)
  {
    hide ParseValue;
    hide ParseString;
    hide ParseNumber;
    match v
    case Null =>
      LiteralReads(NULL_TEXT, rest, depth);
    case False =>
      LiteralReads(FALSE_TEXT, rest, depth);
    case True =>
      LiteralReads(TRUE_TEXT, rest, depth);
    case Number(x) =>
      NumberReads(x.Floor, rest);
      DecimalBegins(x.Floor);
      OtherValue(Decimal(x.Floor) + rest, depth);
    case String(s) =>
      JsonStrings.QuotedReads(s, rest);
      OtherValue(Quoted(s) + rest, depth);
    case _ =>
  }

  lemma ElemsBegin(es: seq<Json>, fmt: bool, d: nat, tail: bytes)
    requires es != []
    ensures var s := ElemsText(es, fmt, d) + tail;
            s != [] && !IsBlank(s[0]) && s[0] != RBRACKET
  {
    TextBegins(es[0], fmt, d);
    ElemsCut(es, fmt, d, tail);
  }

  lemma {:induction false} ElemsRead(es: seq<Json>, fmt: bool, d: nat, rest: bytes, depth: nat)
    requires es != [] && PlainElems(es) && depth + DepthElems(es) <= NESTING_LIMIT
    ensures ParseElems(ElemsText(es, fmt, d) + ([RBRACKET] + rest), depth) == Done(es, rest)
    decreases es, 3
  {
    hide ParseValue;
    hide ParseElems;
    hide Text;
    hide ElemsText;
    hide SkipWs;
    var close := [RBRACKET] + rest;
    var s := ElemsText(es, fmt, d) + close;
    ElemsBegin(es, fmt, d, close);
    ElemsCut(es, fmt, d, close);
    SkipNothing(s);
    if |es| == 1 {
      ValueReads(es[0], fmt, d, close, depth);
      ElemsStep(s, es[0], close, depth);
      SkipNothing(close);
      Front(RBRACKET, rest);
      assert es == [es[0]];
    } else {
      var more := ElemsText(es[1..], fmt, d) + close;
      var r := [COMMA] + (Gap(fmt) + more);
      ElemsBegin(es[1..], fmt, d, close);
      ValueReads(es[0], fmt, d, r, depth);
      ElemsStep(s, es[0], r, depth);
      SkipNothing(r);
      Front(COMMA, Gap(fmt) + more);
      SkipGap(Gap(fmt), more);
      SkipNothing(more);
      ElemsSkip(Gap(fmt) + more, more, depth);
      ElemsRead(es[1..], fmt, d, rest, depth);
      assert es == [es[0]] + es[1..];
    }
  }

  lemma {:induction false} ArrayReads(es: seq<Json>, fmt: bool, d: nat, rest: bytes, depth: nat)
    requires PlainElems(es) && depth + 1 + DepthElems(es) <= NESTING_LIMIT
    ensures ParseValue(Text(Array(es), fmt, d) + rest, depth) == Done(Array(es), rest)
    decreases es, 4
  {
    hide ParseValue;
    hide ParseElems;
    var close := [RBRACKET] + rest;
    var b := ElemsText(es, fmt, d + 1) + close;
    ArrayText(es, fmt, d, rest);
    hide Text;
    Front(RBRACKET, rest);
    if es == [] {
      assert b == close;
      SkipNothing(b);
      ArrayOpens(b, b, depth);
    } else {
      ElemsBegin(es, fmt, d + 1, close);
      hide ElemsText;
      SkipNothing(b);
      ArrayOpens(b, b, depth);
      ElemsRead(es, fmt, d + 1, rest, depth + 1);
    }
  }

  lemma MemberEndIs(fmt: bool)
    ensures MemberEnd(true, fmt) == Line(fmt)
    ensures MemberEnd(false, fmt) == [COMMA] + Line(fmt)
  {
  }

  lemma AfterMember(ms: seq<Member>, fmt: bool, d: nat, close: bytes)
    requires |ms| > 1
    ensures MemberEnd(false, fmt) + (MembersText(ms[1..], fmt, d) + close)
         == [COMMA] + (Line(fmt) + (Indent(fmt, d) + (MembersInner(ms[1..], fmt, d) + close)))
  {
    MembersCut(ms[1..], fmt, d);
    var inner := MembersInner(ms[1..], fmt, d);
    hide MembersText;
    hide MembersInner;
    MemberEndIs(fmt);
    Right3(Indent(fmt, d), inner, close);
    Right3([COMMA], Line(fmt), Indent(fmt, d) + (inner + close));
  }

  /** One member, up to what stands behind its value. */
  lemma {:induction false} MemberReads(ms: seq<Member>, fmt: bool, d: nat, close: bytes, depth: nat)
    requires ms != [] && PlainMembers(ms) && depth + DepthMembers(ms) <= NESTING_LIMIT
    requires Ends(close) || fmt
    ensures ParseMember(MembersInner(ms, fmt, d) + close, depth)
         == Done(ms[0], MemberEnd(|ms| == 1, fmt) + (MembersText(ms[1..], fmt, d) + close))
    decreases ms, 2
  {
    hide ParseValue;
    hide ParseMember;
    hide ParseString;
    var m, last := ms[0], |ms| == 1;
    var after := MemberEnd(last, fmt) + (MembersText(ms[1..], fmt, d) + close);
    if last && !fmt {
      assert ms[1..] == [];
      assert after == close;
    }
    TextBegins(m.value, fmt, d);
    var x := Text(m.value, fmt, d);
    MemberCut(ms, fmt, d, close);
    hide Text;
    hide MembersText;
    hide MembersInner;
    var gap: bytes := if fmt then [TAB] else [];
    var b := gap + (x + after);
    var k := [COLON] + b;
    SkipNothing(Quoted(m.key) + k);
    JsonStrings.QuotedReads(m.key, k);
    hide Quoted;
    SkipNothing(k);
    SkipGap(gap, x + after);
    ValueReads(m.value, fmt, d, after, depth);
    MemberStep(Quoted(m.key) + k, m.key, k, b, m.value, after, depth);
  }

  lemma {:induction false} MembersRead(ms: seq<Member>, fmt: bool, d: nat, d0: nat, rest: bytes, depth: nat)
    requires ms != [] && PlainMembers(ms) && depth + DepthMembers(ms) <= NESTING_LIMIT
    ensures ParseMembers(MembersInner(ms, fmt, d) + (Indent(fmt, d0) + ([RBRACE] + rest)), depth) == Done(ms, rest)
    decreases ms, 3
  {
    hide ParseValue;
    hide ParseMembers;
    hide ParseMember;
    hide Text;
    hide MembersInner;
    var end := [RBRACE] + rest;
    var close := Indent(fmt, d0) + end;
    var after := MemberEnd(|ms| == 1, fmt) + (MembersText(ms[1..], fmt, d) + close);
    MemberReads(ms, fmt, d, close, depth);
    MembersStep(MembersInner(ms, fmt, d) + close, ms[0], after, depth);
    if |ms| == 1 {
      assert ms[1..] == [] && [] + close == close;
      MemberEndIs(fmt);
      SkipIndent(fmt, d0, end);
      Front(RBRACE, rest);
      assert ms == [ms[0]];
    } else {
      var inner := MembersInner(ms[1..], fmt, d) + close;
      var next := Line(fmt) + (Indent(fmt, d) + inner);
      AfterMember(ms, fmt, d, close);
      hide MembersText;
      SkipNothing(after);
      Front(COMMA, next);
      MembersRead(ms[1..], fmt, d, d0, rest, depth);
      SkipIndent(fmt, d, inner);
      SkipNothing(inner);
      MembersSkip(next, inner, depth);
      assert ms == [ms[0]] + ms[1..];
    }
  }

  lemma {:induction false} ObjectReads(ms: seq<Member>, fmt: bool, d: nat, rest: bytes, depth: nat)
    requires PlainMembers(ms) && depth + 1 + DepthMembers(ms) <= NESTING_LIMIT
    ensures ParseValue(Text(Object(ms), fmt, d) + rest, depth) == Done(Object(ms), rest)
    decreases ms, 4
  {
    hide ParseValue;
    hide ParseMembers;
    var end := [RBRACE] + rest;
    var close := Indent(fmt, d) + end;
    ObjectText(ms, fmt, d, rest);
    hide Text;
    var b := Line(fmt) + (MembersText(ms, fmt, d + 1) + close);
    Front(RBRACE, rest);
    if ms == [] {
      assert [] + close == close;
      SkipIndent(fmt, d, end);
      ObjectOpens(b, end, depth);
    } else {
      var inner := MembersInner(ms, fmt, d + 1) + close;
      MembersCut(ms, fmt, d + 1);
      hide MembersText;
      Right3(Indent(fmt, d + 1), MembersInner(ms, fmt, d + 1), close);
      hide MembersInner;
      SkipIndent(fmt, d + 1, inner);
      ObjectOpens(b, inner, depth);
      MembersRead(ms, fmt, d + 1, d, rest, depth + 1);
    }
  }

  lemma {:induction false} ValueReads(v: Json, fmt: bool, d: nat, rest: bytes, depth: nat)
    requires Plain(v) && depth + Depth(v) <= NESTING_LIMIT && Ends(rest)
    ensures ParseValue(Text(v, fmt, d) + rest, depth) == Done(v, rest)
    decreases v, 0
  {
    match v
    case Array(es) =>
      ArrayReads(es, fmt, d, rest, depth);
    case Object(ms) =>
      ObjectReads(ms, fmt, d, rest, depth);
    case _ =>
      ScalarReads(v, fmt, d, rest, depth);
  }

  /** The text of a member, cut behind its key, its colon and its value. */
  lemma MemberCut(ms: seq<Member>, fmt: bool, d: nat, close: bytes)
    requires ms != []
    ensures MembersInner(ms, fmt, d) + close
         == Quoted(ms[0].key)
            + ([COLON] + ((if fmt then [TAB] else [])
                          + (Text(ms[0].value, fmt, d)
                             + (MemberEnd(|ms| == 1, fmt) + (MembersText(ms[1..], fmt, d) + close)))))
  {
    var q, x, e, t := Quoted(ms[0].key), Text(ms[0].value, fmt, d), MemberEnd(|ms| == 1, fmt),
      MembersText(ms[1..], fmt, d);
    var gap: bytes := if fmt then [TAB] else [];
    assert MembersInner(ms, fmt, d) == q + ([COLON] + (gap + (x + (e + t))));
    hide MembersInner;
    hide Quoted;
    hide Text;
    hide MembersText;
    hide MemberEnd;
    Right3(q, [COLON] + (gap + (x + (e + t))), close);
    Right3([COLON], gap + (x + (e + t)), close);
    Right3(gap, x + (e + t), close);
    Right3(x, e + t, close);
    Right3(e, t, close);
  }

  // ----- what the parser can return -----

  predicate AllIntElems(es: seq<Json>) {
    es == [] || (AllInts(es[0]) && AllIntElems(es[1..]))
  }

  predicate AllIntMembers(ms: seq<Member>) {
    ms == [] || (AllInts(ms[0].value) && AllIntMembers(ms[1..]))
  }

  predicate AllInts(v: Json) {
    match v
    case Number(d) => IsInt(d)
    case Array(es) => AllIntElems(es)
    case Object(ms) => AllIntMembers(ms)
    case _ => true
  }

  predicate CStringElems(es: seq<Json>) {
    es == [] || (CStrings(es[0]) && CStringElems(es[1..]))
  }

  predicate CStringMembers(ms: seq<Member>) {
    ms == [] || (NulFree(ms[0].key) && CStrings(ms[0].value) && CStringMembers(ms[1..]))
  }

  /** No string and no key holds a NUL byte. */
  predicate CStrings(v: Json) {
    match v
    case String(s) => NulFree(s)
    case Array(es) => CStringElems(es)
    case Object(ms) => CStringMembers(ms)
    case _ => true
  }

  lemma {:induction false} PlainElemsMean(es: seq<Json>)
    ensures PlainElems(es) <==> CStringElems(es) && AllIntElems(es)
    decreases es, 2
  {
    if es != [] {
      PlainMeans(es[0]);
      PlainElemsMean(es[1..]);
    }
  }

  lemma {:induction false} PlainMembersMean(ms: seq<Member>)
    ensures PlainMembers(ms) <==> CStringMembers(ms) && AllIntMembers(ms)
    decreases ms, 2
  {
    if ms != [] {
      PlainMeans(ms[0].value);
      PlainMembersMean(ms[1..]);
    }
  }

  lemma {:induction false} PlainMeans(v: Json)
    ensures Plain(v) <==> CStrings(v) && AllInts(v)
    decreases v, 1
  {
    match v
    case Array(es) => PlainElemsMean(es);
    case Object(ms) => PlainMembersMean(ms);
    case _ =>
  }

  /** A parsed value is nested no deeper than the limit and holds C strings. */
  ghost predicate Parseable(v: Json, depth: nat) {
    (Depth(v) == 0 || depth + Depth(v) <= NESTING_LIMIT) && CStrings(v)
  }

  lemma {:induction false} ParsedElems(s: bytes, depth: nat)
    requires ParseElems(s, depth).Done? && depth <= NESTING_LIMIT
    ensures var es := ParseElems(s, depth).value;
            depth + DepthElems(es) <= NESTING_LIMIT && CStringElems(es)
    decreases |s|, 2
  {
    hide ParseValue;
    ParsedValue(SkipWs(s), depth);
    var Done(v, r) := ParseValue(SkipWs(s), depth);
    var u := SkipWs(r);
    if u[0] == COMMA {
      ParsedElems(u[1..], depth);
      var es := ParseElems(u[1..], depth).value;
      assert ([v] + es)[1..] == es;
    }
  }

  lemma {:induction false} ParsedArray(s: bytes, depth: nat)
    requires s != [] && ParseArray(s, depth).Done?
    ensures Parseable(ParseArray(s, depth).value, depth)
    decreases |s|, 0
  {
    hide ParseElems;
    var t := SkipWs(s[1..]);
    if t == [] || t[0] != RBRACKET {
      ParsedElems(t, depth + 1);
    }
  }

  lemma {:induction false} ParsedMember(s: bytes, depth: nat)
    requires ParseMember(s, depth).Done?
    ensures var m := ParseMember(s, depth).value;
            NulFree(m.key) && Parseable(m.value, depth)
    decreases |s|, 2
  {
    hide ParseValue;
    var r := ParseString(SkipWs(s)).rest;
    ParsedValue(SkipWs(SkipWs(r)[1..]), depth);
  }

  lemma {:induction false} ParsedMembers(s: bytes, depth: nat)
    requires ParseMembers(s, depth).Done? && depth <= NESTING_LIMIT
    ensures var ms := ParseMembers(s, depth).value;
            depth + DepthMembers(ms) <= NESTING_LIMIT && CStringMembers(ms)
    decreases |s|, 3
  {
    hide ParseValue;
    var Done(m, r) := ParseMember(s, depth);
    ParsedMember(s, depth);
    hide ParseMember;
    var u := SkipWs(r);
    if u[0] == COMMA {
      ParsedMembers(u[1..], depth);
      var ms := ParseMembers(u[1..], depth).value;
      assert ([m] + ms)[1..] == ms;
    }
  }

  lemma {:induction false} ParsedObject(s: bytes, depth: nat)
    requires s != [] && ParseObject(s, depth).Done?
    ensures Parseable(ParseObject(s, depth).value, depth)
    decreases |s|, 0
  {
    hide ParseMembers;
    var t := SkipWs(s[1..]);
    if t == [] || t[0] != RBRACE {
      ParsedMembers(t, depth + 1);
    }
  }

  lemma {:induction false} ParsedValue(s: bytes, depth: nat)
    requires ParseValue(s, depth).Done?
    ensures Parseable(ParseValue(s, depth).value, depth)
    decreases |s|, 1
  {
    if s[0] == LBRACKET {
      ParsedArray(s, depth);
      hide ParseArray;
    } else if s[0] == LBRACE {
      ParsedObject(s, depth);
      hide ParseObject;
    } else {
      hide ParseArray;
      hide ParseObject;
    }
  }

  // ----- the theorems -----

  lemma TextIsSharp(v: Json, fmt: bool)
    ensures SkipWs(SkipBom(Text(v, fmt, 0))) == Text(v, fmt, 0)
  {
    TextBegins(v, fmt, 0);
    SkipNothing(Text(v, fmt, 0));
  }

  /**
   Printing a value and parsing the text, with or without require_null_terminated, gives back the same
   value with all text consumed, exactly when the value is nested at most as deep as the parser allows.
   */
  lemma PrintThenParse(v: Json, fmt: bool, whole: bool)
    requires Plain(v)
    ensures ParseText(Text(v, fmt, 0), whole) == Done(v, []) <==> Depth(v) <= NESTING_LIMIT
  {
    var t := Text(v, fmt, 0);
    TextIsSharp(v, fmt);
    assert t + [] == t;
    if Depth(v) <= NESTING_LIMIT {
      ValueReads(v, fmt, 0, [], 0);
    } else if ParseText(t, whole) == Done(v, []) {
      ParsedValue(t, 0);
    }
  }

  /** Whatever the text, a parsed value whose numbers are int-range integers survives printing and parsing. */
  lemma ParsePrintParse(s: bytes, whole: bool, fmt: bool)
    requires ParseText(s, whole).Done? && AllInts(ParseText(s, whole).value)
    ensures var v := ParseText(s, whole).value;
            ParseText(Text(v, fmt, 0), true) == Done(v, [])
  {
    ParsedValue(SkipWs(SkipBom(s)), 0);
    PlainMeans(ParseText(s, whole).value);
    PrintThenParse(ParseText(s, whole).value, fmt, true);
  }

  // ----- the printed text is a C string -----

  lemma Cat(a: bytes, b: bytes)
    ensures NulFree(a + b) == (NulFree(a) && NulFree(b))
  {
    if NulFree(a + b) {
      assert forall i :: 0 <= i < |a| ==> a[i] == (a + b)[i];
      assert forall i :: 0 <= i < |b| ==> b[i] == (a + b)[|a| + i];
    }
  }

  lemma QuotedNulFree(s: bytes)
    requires NulFree(s)
    ensures NulFree(Quoted(s))
  {
    EscapeNulFree(s);
  }

  lemma {:induction false} ElemsNulFree(es: seq<Json>, fmt: bool, d: nat)
    requires PlainElems(es)
    ensures NulFree(ElemsText(es, fmt, d))
    decreases es, 1
  {
    if es != [] {
      TextNulFree(es[0], fmt, d);
      ElemsNulFree(es[1..], fmt, d);
    }
  }

  lemma KeyNulFree(key: bytes, fmt: bool, d: nat)
    requires NulFree(key)
    ensures NulFree(KeyText(key, fmt, d))
  {
    QuotedNulFree(key);
    var colon: bytes := if fmt then [COLON, TAB] else [COLON];
    hide Quoted;
    Cat(Indent(fmt, d), Quoted(key));
    Cat(Indent(fmt, d) + Quoted(key), colon);
  }

  lemma {:induction false} MembersNulFree(ms: seq<Member>, fmt: bool, d: nat)
    requires PlainMembers(ms)
    ensures NulFree(MembersText(ms, fmt, d))
    decreases ms, 1
  {
    if ms != [] {
      QuotedNulFree(ms[0].key);
      TextNulFree(ms[0].value, fmt, d);
      MembersNulFree(ms[1..], fmt, d);
      var k, x, e, t :=
        KeyText(ms[0].key, fmt, d), Text(ms[0].value, fmt, d), MemberEnd(|ms| == 1, fmt), MembersText(ms[1..], fmt, d);
      KeyNulFree(ms[0].key, fmt, d);
      assert NulFree(e);
      hide Text;
      hide KeyText;
      Cat(k, x);
      Cat(k + x, e);
      Cat(k + x + e, t);
    }
  }

  lemma {:induction false} TextNulFree(v: Json, fmt: bool, d: nat)
    requires Plain(v)
    ensures NulFree(Text(v, fmt, d))
    decreases v, 0
  {
    match v
    case Number(x) =>
      DigitsAreDigits(if x.Floor < 0 then -x.Floor else x.Floor);
    case String(s) =>
      QuotedNulFree(s);
    case Array(es) =>
      ElemsNulFree(es, fmt, d + 1);
    case Object(ms) =>
      MembersNulFree(ms, fmt, d + 1);
      var body := MembersText(ms, fmt, d + 1);
      hide MembersText;
      assert NulFree([LBRACE] + Line(fmt)) && NulFree(Indent(fmt, d)) && NulFree([RBRACE]);
      Cat([LBRACE] + Line(fmt), body);
      Cat([LBRACE] + Line(fmt) + body, Indent(fmt, d));
      Cat([LBRACE] + Line(fmt) + body + Indent(fmt, d), [RBRACE]);
    case _ =>
  }

  lemma {:induction false} EscapeNulFree(s: bytes)
    ensures NulFree(s) ==> NulFree(Escape(s))
  {
    if s != [] {
      EscapeNulFree(s[1..]);
    }
  }
}
