/**
 The layout of printed text, by a scan of its bytes: which white space stands between two tokens, given those
 tokens and the brackets that are open. Unformatted text has none.
 */
module JsonLayout {
  import opened Bytes
  import opened JsonValue
  import JsonGrammar
  import RoundTrip = JsonRoundTrip
  import Strings = JsonStrings

  // ----- the scan -----

  /**
   The white space between the token that ends with byte `p` and the one that begins with `q`, inside the
   brackets `open`. In an array one space follows a comma. In an object each member and the closing brace
   begin a line, behind as many tabs as brackets enclose them, and one tab follows a colon.
   */
  function Between(p: byte, q: byte, open: bytes): bytes {
    if open != [] && q == 0x7d then [0x0a] + seq(|open| - 1, _ => 0x09)
    else if open != [] && open[|open| - 1] == 0x7b && (p == 0x7b || p == 0x2c) then [0x0a] + seq(|open|, _ => 0x09)
    else if open != [] && open[|open| - 1] == 0x5b && p == 0x2c then [0x20]
    else if p == 0x3a then [0x09]
    else []
  }

  /** How many bytes up to 32 come first. */
  function Blank(s: bytes): (n: nat)
    ensures n <= |s|
  {
    if s == [] || s[0] > 0x20 then 0 else 1 + Blank(s[1..])
  }

  /** The bytes of a string literal behind its opening quote, the closing one included. */
  function LiteralSpan(s: bytes): (n: nat)
    ensures n <= |s|
  {
    if s == [] then 0
    else if s[0] == 0x22 then 1
    else if s[0] == 0x5c && |s| > 1 then 2 + LiteralSpan(s[2..])
    else 1 + LiteralSpan(s[1..])
  }

  /** From here on, behind a token that ends with `p` and inside the brackets `open`, all white space is in place. */
  predicate Laid(s: bytes, p: byte, open: bytes, fmt: bool)
    decreases |s|
  {
    var n := Blank(s);
    if s == [] then open == []
    else if n == |s| then false
    else
      var q, t := s[n], s[n + 1..];
      && s[..n] == (if fmt then Between(p, q, open) else [])
      && if q == 0x22 then Laid(t[LiteralSpan(t)..], 0x22, open, fmt)
         else if q == 0x5b || q == 0x7b then Laid(t, q, open + [q], fmt)
         else if q == 0x5d || q == 0x7d then open != [] && Laid(t, q, open[..|open| - 1], fmt)
         else Laid(t, q, open, fmt)
  }

  // ----- one token -----

  predicate Blanks(ws: bytes) {
    forall i :: 0 <= i < |ws| ==> ws[i] <= 0x20
  }

  lemma {:induction false} BlankOf(ws: bytes, t: bytes)
    requires Blanks(ws) && (t == [] || t[0] > 0x20)
    ensures Blank(ws + t) == |ws|
  {
    if ws == [] {
      assert ws + t == t;
    } else {
      assert (ws + t)[1..] == ws[1..] + t;
      BlankOf(ws[1..], t);
    }
  }

  /** The white space that belongs there. */
  function Gap(p: byte, q: byte, open: bytes, fmt: bool): (ws: bytes)
    ensures Blanks(ws)
  {
    if fmt then Between(p, q, open) else []
  }

  lemma Token(p: byte, q: byte, t: bytes, open: bytes, fmt: bool)
    requires q > 0x20
    ensures var s := Gap(p, q, open, fmt) + ([q] + t);
            && (q == 0x22 ==> (Laid(s, p, open, fmt) <==> Laid(t[LiteralSpan(t)..], 0x22, open, fmt)))
            && (q == 0x5b || q == 0x7b ==> (Laid(s, p, open, fmt) <==> Laid(t, q, open + [q], fmt)))
            && (q == 0x5d || q == 0x7d ==>
                  (Laid(s, p, open, fmt) <==> open != [] && Laid(t, q, open[..|open| - 1], fmt)))
            && (q !in {0x22, 0x5b, 0x7b, 0x5d, 0x7d} ==> (Laid(s, p, open, fmt) <==> Laid(t, q, open, fmt)))
  {
    var ws := Gap(p, q, open, fmt);
    var s := ws + ([q] + t);
    BlankOf(ws, [q] + t);
    assert s[|ws|] == q && s[|ws| + 1..] == t && s[..|ws|] == ws;
  }

  /** A byte of a number or a word. */
  predicate Plain(b: byte) {
    b > 0x20 && b !in {0x22, 0x5b, 0x7b, 0x5d, 0x7d, 0x2c, 0x3a}
  }

  /** The last byte of a value: nothing is due behind it by itself. */
  predicate Final(b: byte) {
    b !in {0x7b, 0x2c, 0x3a}
  }

  lemma NoGap(p: byte, q: byte, open: bytes, fmt: bool)
    requires Final(p) && q != 0x7d
    ensures Gap(p, q, open, fmt) == []
  {
  }

  lemma {:induction false} WordLaid(x: bytes, p: byte, t: bytes, open: bytes, fmt: bool)
    requires x != [] && (forall i :: 0 <= i < |x| ==> Plain(x[i])) && Laid(t, x[|x| - 1], open, fmt)
    ensures Laid(Gap(p, x[0], open, fmt) + (x + t), p, open, fmt)
    decreases |x|
  {
    hide Laid;
    var y := x[1..];
    assert x + t == [x[0]] + (y + t);
    Token(p, x[0], y + t, open, fmt);
    if |x| == 1 {
      assert y + t == t;
    } else {
      NoGap(x[0], y[0], open, fmt);
      WordLaid(y, x[0], t, open, fmt);
      assert [] + (y + t) == y + t;
    }
  }

  lemma {:induction false} SpanOf(z: bytes, k: nat)
    requires JsonGrammar.CloseAt(z) == Some(k)
    ensures LiteralSpan(z) == k + 1
    decreases |z|
  {
    if z[0] == 0x5c {
      SpanOf(JsonGrammar.From(z, 2), k - 2);
    } else if z[0] != 0x22 {
      SpanOf(JsonGrammar.From(z, 1), k - 1);
    }
  }

  lemma LiteralLaid(s: bytes, p: byte, t: bytes, open: bytes, fmt: bool)
    requires Laid(t, 0x22, open, fmt)
    ensures Laid(Gap(p, 0x22, open, fmt) + (Quoted(s) + t), p, open, fmt)
  {
    hide Laid;
    hide Escape;
    hide LiteralSpan;
    var z := Escape(s) + [0x22] + t;
    assert Quoted(s) + t == [0x22] + z;
    Strings.EscapeCloses(s, t);
    SpanOf(z, |Escape(s)|);
    Token(p, 0x22, z, open, fmt);
    assert z[|Escape(s)| + 1..] == t;
  }

  // ----- values -----

  /** How a value begins and ends. */
  lemma Ends(v: Json, fmt: bool, d: nat)
    ensures var x := Text(v, fmt, d); x[0] > 0x20 && x[0] != 0x7d && x[0] != 0x5d && Final(x[|x| - 1])
  {
    RoundTrip.TextBegins(v, fmt, d);
    match v
    case Number(r) =>
      RoundTrip.DigitsAreDigits(if r.Floor < 0 then -r.Floor else r.Floor);
    case _ =>
  }

  lemma ScalarLaid(v: Json, fmt: bool, d: nat, p: byte, t: bytes, open: bytes)
    requires !v.Array? && !v.Object? && Laid(t, Text(v, fmt, d)[|Text(v, fmt, d)| - 1], open, fmt)
    ensures Laid(Gap(p, Text(v, fmt, d)[0], open, fmt) + (Text(v, fmt, d) + t), p, open, fmt)
  {
    hide Laid;
    match v
    case String(s) =>
      LiteralLaid(s, p, t, open, fmt);
    case Number(r) =>
      RoundTrip.DigitsAreDigits(if r.Floor < 0 then -r.Floor else r.Floor);
      WordLaid(Decimal(r.Floor), p, t, open, fmt);
    case Null =>
      WordLaid(NULL_TEXT, p, t, open, fmt);
    case False =>
      WordLaid(FALSE_TEXT, p, t, open, fmt);
    case True =>
      WordLaid(TRUE_TEXT, p, t, open, fmt);
  }

  /** The elements of an array behind its bracket or a comma, and the bracket that closes it. */
  lemma {:induction false} ElemsLaid(es: seq<Json>, fmt: bool, p: byte, t: bytes, open: bytes)
    requires es != [] && open != [] && open[|open| - 1] == 0x5b && Laid(t, 0x5d, open[..|open| - 1], fmt)
    ensures var x := ElemsText(es, fmt, |open|) + ([RBRACKET] + t);
            Laid(Gap(p, Text(es[0], fmt, |open|)[0], open, fmt) + x, p, open, fmt)
    decreases es, 1
  {
    hide Laid;
    hide ElemsText;
    var d, close := |open|, [RBRACKET] + t;
    var x := Text(es[0], fmt, d);
    Ends(es[0], fmt, d);
    var e := x[|x| - 1];
    RoundTrip.ElemsCut(es, fmt, d, close);
    if |es| == 1 {
      NoGap(e, RBRACKET, open, fmt);
      Token(e, RBRACKET, t, open, fmt);
      assert [] + close == close;
      ValueLaid(es[0], fmt, p, close, open);
    } else {
      var more := ElemsText(es[1..], fmt, d) + close;
      var gap := RoundTrip.Gap(fmt);
      var q := Text(es[1], fmt, d)[0];
      Ends(es[1], fmt, d);
      ElemsLaid(es[1..], fmt, COMMA, t, open);
      assert es[1..][0] == es[1] && Gap(COMMA, q, open, fmt) == gap;
      NoGap(e, COMMA, open, fmt);
      Token(e, COMMA, gap + more, open, fmt);
      assert [] + ([COMMA] + (gap + more)) == [COMMA] + (gap + more);
      ValueLaid(es[0], fmt, p, [COMMA] + (gap + more), open);
    }
  }

  lemma {:induction false} ArrayLaid(es: seq<Json>, fmt: bool, p: byte, t: bytes, open: bytes)
    requires Laid(t, 0x5d, open, fmt)
    ensures Laid(Gap(p, 0x5b, open, fmt) + (Text(Array(es), fmt, |open|) + t), p, open, fmt)
    decreases es, 2
  {
    hide Laid;
    var inner, close := open + [0x5b], [RBRACKET] + t;
    assert inner[..|open|] == open;
    RoundTrip.ArrayText(es, fmt, |open|, t);
    var body := ElemsText(es, fmt, |open| + 1) + close;
    if es == [] {
      assert body == close;
      NoGap(0x5b, RBRACKET, inner, fmt);
      Token(0x5b, RBRACKET, t, inner, fmt);
      assert [] + close == close;
    } else {
      hide ElemsText;
      ElemsLaid(es, fmt, 0x5b, t, inner);
      Ends(es[0], fmt, |open| + 1);
      NoGap(0x5b, Text(es[0], fmt, |open| + 1)[0], inner, fmt);
      assert [] + body == body;
    }
    Token(p, 0x5b, body, open, fmt);
  }

  lemma TabsAre(n: nat)
    ensures Tabs(n) == seq(n, _ => 0x09)
  {
  }

  /** Line break and tabs in front of a member, and in front of the closing brace. */
  lemma LineGaps(p: byte, e: byte, open: bytes, fmt: bool)
    requires open != [] && open[|open| - 1] == 0x7b && (p == 0x7b || p == 0x2c)
    ensures Gap(p, QUOTE, open, fmt) == RoundTrip.Line(fmt) + RoundTrip.Indent(fmt, |open|)
    ensures Gap(e, RBRACE, open, fmt) == RoundTrip.Line(fmt) + RoundTrip.Indent(fmt, |open| - 1)
  {
    TabsAre(|open|);
    TabsAre(|open| - 1);
  }

  /** A member from its key on, and what is behind it. */
  lemma {:induction false} MemberLaid(m: Member, fmt: bool, p: byte, after: bytes, open: bytes)
    requires open != [] && open[|open| - 1] == 0x7b
    requires var x := Text(m.value, fmt, |open|); Laid(after, x[|x| - 1], open, fmt)
    ensures var gap: bytes := if fmt then [TAB] else [];
            var x := Quoted(m.key) + ([COLON] + (gap + (Text(m.value, fmt, |open|) + after)));
            Laid(Gap(p, QUOTE, open, fmt) + x, p, open, fmt)
    decreases m, 1
  {
    hide Laid;
    hide Quoted;
    var gap: bytes := if fmt then [TAB] else [];
    var x := Text(m.value, fmt, |open|);
    Ends(m.value, fmt, |open|);
    ValueLaid(m.value, fmt, COLON, after, open);
    assert Gap(COLON, x[0], open, fmt) == gap;
    hide Text;
    var y := gap + (x + after);
    NoGap(QUOTE, COLON, open, fmt);
    Token(QUOTE, COLON, y, open, fmt);
    assert [] + ([COLON] + y) == [COLON] + y;
    LiteralLaid(m.key, p, [COLON] + y, open, fmt);
  }

  /** Behind the last member: its line ends, and the brace stands on a line of its own. */
  lemma LastLaid(e: byte, t: bytes, open: bytes, fmt: bool)
    requires open != [] && open[|open| - 1] == 0x7b && Laid(t, 0x7d, open[..|open| - 1], fmt)
    ensures Laid(RoundTrip.Line(fmt) + (RoundTrip.Indent(fmt, |open| - 1) + ([RBRACE] + t)), e, open, fmt)
  {
    hide Laid;
    hide Gap;
    LineGaps(0x7b, e, open, fmt);
    Right3(RoundTrip.Line(fmt), RoundTrip.Indent(fmt, |open| - 1), [RBRACE] + t);
    Token(e, RBRACE, t, open, fmt);
  }

  /** Behind another member: a comma, and the next one on a line of its own. */
  lemma NextLaid(e: byte, inner: bytes, open: bytes, fmt: bool)
    requires open != [] && open[|open| - 1] == 0x7b && Final(e)
    requires Laid(Gap(COMMA, QUOTE, open, fmt) + inner, COMMA, open, fmt)
    ensures Laid([COMMA] + (RoundTrip.Line(fmt) + (RoundTrip.Indent(fmt, |open|) + inner)), e, open, fmt)
  {
    hide Laid;
    hide Gap;
    LineGaps(COMMA, e, open, fmt);
    var ws := RoundTrip.Line(fmt) + RoundTrip.Indent(fmt, |open|);
    Right3(RoundTrip.Line(fmt), RoundTrip.Indent(fmt, |open|), inner);
    NoGap(e, COMMA, open, fmt);
    Token(e, COMMA, ws + inner, open, fmt);
    assert [] + ([COMMA] + (ws + inner)) == [COMMA] + (ws + inner);
  }

  /** The members from the first key on, and the brace that closes them. */
  lemma {:induction false} MembersLaid(ms: seq<Member>, fmt: bool, p: byte, t: bytes, open: bytes)
    requires ms != [] && open != [] && open[|open| - 1] == 0x7b && (p == 0x7b || p == 0x2c)
    requires Laid(t, 0x7d, open[..|open| - 1], fmt)
    ensures var close := RoundTrip.Indent(fmt, |open| - 1) + ([RBRACE] + t);
            Laid(Gap(p, QUOTE, open, fmt) + (RoundTrip.MembersInner(ms, fmt, |open|) + close), p, open, fmt)
    decreases ms, 3
  {
    hide Laid;
    hide Gap;
    hide Quoted;
    hide Final;
    hide Text;
    var d := |open|;
    var close := RoundTrip.Indent(fmt, d - 1) + ([RBRACE] + t);
    var x := Text(ms[0].value, fmt, d);
    Ends(ms[0].value, fmt, d);
    var e := x[|x| - 1];
    var after := MemberEnd(|ms| == 1, fmt) + (MembersText(ms[1..], fmt, d) + close);
    RoundTrip.MemberCut(ms, fmt, d, close);
    RoundTrip.MemberEndIs(fmt);
    if |ms| == 1 {
      assert ms[1..] == [] && [] + close == close;
      LastLaid(e, t, open, fmt);
    } else {
      RoundTrip.AfterMember(ms, fmt, d, close);
      hide MembersText;
      MembersLaid(ms[1..], fmt, COMMA, t, open);
      NextLaid(e, RoundTrip.MembersInner(ms[1..], fmt, d) + close, open, fmt);
    }
    MemberLaid(ms[0], fmt, p, after, open);
  }

  lemma {:induction false} ObjectLaid(ms: seq<Member>, fmt: bool, p: byte, t: bytes, open: bytes)
    requires Laid(t, 0x7d, open, fmt)
    ensures Laid(Gap(p, 0x7b, open, fmt) + (Text(Object(ms), fmt, |open|) + t), p, open, fmt)
    decreases ms, 4
  {
    hide Laid;
    hide Gap;
    var inner, end, d := open + [0x7b], [RBRACE] + t, |open|;
    assert inner[..d] == open;
    RoundTrip.ObjectText(ms, fmt, d, t);
    hide Text;
    var close := RoundTrip.Indent(fmt, d) + end;
    var body := RoundTrip.Line(fmt) + (MembersText(ms, fmt, d + 1) + close);
    LineGaps(0x7b, 0x7b, inner, fmt);
    if ms == [] {
      assert [] + close == close;
      Right3(RoundTrip.Line(fmt), RoundTrip.Indent(fmt, d), end);
      Token(0x7b, RBRACE, t, inner, fmt);
    } else {
      RoundTrip.MembersCut(ms, fmt, d + 1);
      hide MembersText;
      var x := RoundTrip.MembersInner(ms, fmt, d + 1);
      Right3(RoundTrip.Indent(fmt, d + 1), x, close);
      Right3(RoundTrip.Line(fmt), RoundTrip.Indent(fmt, d + 1), x + close);
      MembersLaid(ms, fmt, 0x7b, t, inner);
    }
    Token(p, 0x7b, body, open, fmt);
  }

  /** The text of a value, in its place inside any open brackets. */
  lemma {:induction false} ValueLaid(v: Json, fmt: bool, p: byte, t: bytes, open: bytes)
    requires var x := Text(v, fmt, |open|); Laid(t, x[|x| - 1], open, fmt)
    ensures var x := Text(v, fmt, |open|); Laid(Gap(p, x[0], open, fmt) + (x + t), p, open, fmt)
    decreases v, 0
  {
    hide Laid;
    match v
    case Array(es) =>
      ArrayLaid(es, fmt, p, t, open);
    case Object(ms) =>
      ObjectLaid(ms, fmt, p, t, open);
    case _ =>
      ScalarLaid(v, fmt, |open|, p, t, open);
  }

  /** The whole text of every value is laid out like that. */
  lemma TextIsLaid(v: Json, fmt: bool)
    ensures Laid(Text(v, fmt, 0), 0, [], fmt)
  {
    var x := Text(v, fmt, 0);
    Ends(v, fmt, 0);
    NoGap(0, x[0], [], fmt);
    ValueLaid(v, fmt, 0, [], []);
    assert [] + (x + []) == x;
  }
}
