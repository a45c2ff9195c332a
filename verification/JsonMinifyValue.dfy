/**
 What minifying printed text does to its value. The text is followed through the minifier and the parser at
 once: white space between tokens may be dropped or kept, but a byte dropped from a string cannot be made
 up again, because the printer writes neither spaces nor slashes as escapes.
 */
module JsonMinifyValue {
  import opened Bytes
  import opened JsonValue
  import opened JsonGrammar
  import opened JsonMinify
  import opened JsonMinifyPlain
  import opened JsonMinifyPrint
  import Parse = JsonMinifyParse
  import RoundTrip = JsonRoundTrip
  import Strings = JsonStrings

  // ----- the minifier, in step or not -----

  /** What the minifier makes of `t`, outside a string or inside one. */
  function Out(t: bytes, inStep: bool): bytes {
    if inStep then Minified(t) else t[..StringSpan(t)] + Minified(t[StringSpan(t)..])
  }

  lemma OutNothing(inStep: bool)
    ensures Out([], inStep) == []
  {
  }

  lemma OutBare(b: byte, t: bytes, inStep: bool)
    requires Bare(b)
    ensures Out([b] + t, inStep) == [b] + Out(t, inStep)
  {
    hide Minified;
    hide StringSpan;
    MinifiedPlain(b, t);
    Parse.SpanOne(b, t);
    var n := StringSpan(t);
    assert ([b] + t)[n + 1..] == t[n..] && ([b] + t)[..n + 1] == [b] + t[..n];
  }

  lemma {:induction false} OutRun(x: bytes, t: bytes, inStep: bool)
    requires forall i :: 0 <= i < |x| ==> Bare(x[i])
    ensures Out(x + t, inStep) == x + Out(t, inStep)
  {
    hide Out;
    hide Bare;
    if x == [] {
      assert x + t == t;
    } else {
      OutRun(x[1..], t, inStep);
      OutBare(x[0], x[1..] + t, inStep);
      assert [x[0]] + (x[1..] + t) == x + t;
    }
  }

  lemma OutBlank(b: byte, t: bytes, inStep: bool)
    requires IsSpace(b)
    ensures Out([b] + t, inStep) == (if inStep then [] else [b]) + Out(t, inStep)
  {
    hide StringSpan;
    assert ([b] + t)[1..] == t;
    if !inStep {
      hide Minified;
      Parse.SpanOne(b, t);
      var n := StringSpan(t);
      assert ([b] + t)[n + 1..] == t[n..] && ([b] + t)[..n + 1] == [b] + t[..n];
    }
  }

  predicate Spaces(ws: bytes) {
    forall i :: 0 <= i < |ws| ==> IsSpace(ws[i])
  }

  lemma {:induction false} OutBlanks(ws: bytes, t: bytes, inStep: bool)
    requires Spaces(ws)
    ensures Out(ws + t, inStep) == (if inStep then [] else ws) + Out(t, inStep)
  {
    hide Out;
    if ws == [] {
      assert ws + t == t;
    } else {
      OutBlanks(ws[1..], t, inStep);
      OutBlank(ws[0], ws[1..] + t, inStep);
      assert [ws[0]] + (ws[1..] + t) == ws + t;
      assert [ws[0]] + ws[1..] == ws;
    }
  }

  /** The parser does not see whether white space was dropped. */
  lemma BlanksSkipped(ws: bytes, t: bytes, inStep: bool)
    requires Spaces(ws) && RoundTrip.Sharp(Out(t, inStep))
    ensures SkipWs(Out(ws + t, inStep)) == Out(t, inStep)
  {
    hide Out;
    OutBlanks(ws, t, inStep);
    RoundTrip.SkipBlanks(if inStep then [] else ws, Out(t, inStep));
  }

  lemma OutQuote(t: bytes)
    ensures Out([QUOTE] + t, true) == [QUOTE] + Out(t, false) && Out([QUOTE] + t, false) == [QUOTE] + Out(t, true)
  {
    hide Minified;
    hide StringSpan;
    var q, n := [QUOTE] + t, StringSpan(t);
    assert q[1..] == t;
    MinifiedQuote(q);
    assert q[..n + 1] == [QUOTE] + t[..n] && q[n + 1..] == t[n..];
    Parse.SpanQuote(t);
    assert q[..1] == [QUOTE];
  }

  // ----- strings that survive -----

  lemma OutQuotedInStep(s: bytes, t: bytes)
    ensures Out(Quoted(s) + t, true) == Quoted(s) + Out(t, EndsWell(s))
  {
    hide Quoted;
    if EndsWell(s) {
      QuotedKept(s, t);
    } else {
      MissedCopies(s, t);
    }
  }

  lemma OutEscaped(b: byte, t: bytes)
    requires b != QUOTE && b != SPACE && b != SLASH
    ensures Out(EscapeByte(b) + t, true) == EscapeByte(b) + Out(t, true)
  {
    hide Minified;
    EscapedKept(b, t);
  }

  lemma OutBackslash(t: bytes)
    ensures Out([BACKSLASH] + t, true) == [BACKSLASH] + Out(t, true)
  {
    hide Minified;
    MinifiedPlain(BACKSLASH, t);
  }

  /** A quote in the string opens one for the minifier. */
  lemma OutQuoteInside(s: bytes, t: bytes)
    requires s != [] && s[0] == QUOTE
    ensures Out(Escape(s) + ([QUOTE] + t), true) == Escape(s) + ([QUOTE] + Out(t, EndsWell(s[1..])))
  {
    hide Out;
    hide Escape;
    Strings.EscapeOne(s);
    var e, u := Escape(s[1..]), Out(t, EndsWell(s[1..]));
    assert Escape(s) + ([QUOTE] + t) == [BACKSLASH] + (Quoted(s[1..]) + t);
    OutBackslash(Quoted(s[1..]) + t);
    OutQuotedInStep(s[1..], t);
    assert Escape(s) + ([QUOTE] + u) == [BACKSLASH] + (Quoted(s[1..]) + u);
  }

  /** The rest of a string behind its opening quote, out of step. */
  lemma {:induction false} OutContent(s: bytes, t: bytes)
    requires Survives(s, false)
    ensures Out(Escape(s) + ([QUOTE] + t), true) == Escape(s) + ([QUOTE] + Out(t, InStepAfter(s, false)))
    decreases |s|
  {
    hide Out;
    hide EscapeByte;
    var q := [QUOTE] + t;
    if s == [] {
      assert Escape(s) + q == q;
      OutQuote(t);
    } else if s[0] == QUOTE {
      OutQuoteInside(s, t);
    } else {
      Strings.EscapeOne(s);
      hide Escape;
      assert BeforeQuote(s) == [s[0]] + BeforeQuote(s[1..]);
      OutContent(s[1..], t);
      OutEscaped(s[0], Escape(s[1..]) + q);
      Right3(EscapeByte(s[0]), Escape(s[1..]), q);
      Right3(EscapeByte(s[0]), Escape(s[1..]), [QUOTE] + Out(t, InStepAfter(s, false)));
    }
  }

  lemma OutQuoted(s: bytes, t: bytes, inStep: bool)
    requires Survives(s, inStep)
    ensures Out(Quoted(s) + t, inStep) == Quoted(s) + Out(t, InStepAfter(s, inStep))
  {
    hide Out;
    if inStep {
      OutQuotedInStep(s, t);
    } else {
      var u := Escape(s) + ([QUOTE] + t);
      assert Quoted(s) + t == [QUOTE] + u;
      OutQuote(u);
      OutContent(s, t);
    }
  }

  // ----- escapes stay whole -----

  predicate Begins(b: byte, t: bytes) {
    b != 0 && EscapeByte(b) <= t
  }

  /** Every backslash begins an escape the printer writes. */
  ghost predicate Paired(t: bytes)
    decreases |t|
  {
    || t == []
    || (t[0] != BACKSLASH && Paired(t[1..]))
    || (t[0] == BACKSLASH && exists b: byte :: Begins(b, t) && Paired(t[|EscapeByte(b)|..]))
  }

  lemma {:induction false} PairedBoth(x: bytes, t: bytes)
    requires Paired(x) && Paired(t)
    ensures Paired(x + t)
    decreases |x|
  {
    hide EscapeByte;
    if x == [] {
      assert x + t == t;
    } else if x[0] != BACKSLASH {
      PairedBoth(x[1..], t);
      assert (x + t)[1..] == x[1..] + t;
    } else {
      var b: byte :| Begins(b, x) && Paired(x[|EscapeByte(b)|..]);
      var n := |EscapeByte(b)|;
      PairedBoth(x[n..], t);
      assert (x + t)[n..] == x[n..] + t && Begins(b, x + t);
    }
  }

  lemma {:induction false} PairedRun(x: bytes)
    requires BACKSLASH !in x
    ensures Paired(x)
  {
    if x != [] {
      PairedRun(x[1..]);
    }
  }

  lemma PairedByte(b: byte)
    requires b != 0
    ensures Paired(EscapeByte(b))
  {
    var e := EscapeByte(b);
    assert Begins(b, e) && e[|e|..] == [];
    assert e[0] != BACKSLASH ==> e[1..] == [];
  }

  lemma {:induction false} PairedEscape(s: bytes)
    requires NulFree(s)
    ensures Paired(Escape(s))
  {
    hide Paired;
    hide EscapeByte;
    if s == [] {
      PairedRun([]);
    } else {
      PairedEscape(s[1..]);
      PairedByte(s[0]);
      PairedBoth(EscapeByte(s[0]), Escape(s[1..]));
    }
  }

  lemma PairedQuoted(s: bytes)
    requires NulFree(s)
    ensures Paired(Quoted(s))
  {
    hide Paired;
    PairedRun([QUOTE]);
    PairedEscape(s);
    PairedBoth([QUOTE], Escape(s));
    PairedBoth([QUOTE] + Escape(s), [QUOTE]);
  }

  lemma {:induction false} PairedText(v: Json, fmt: bool, d: nat)
    requires Plain(v)
    ensures Paired(Text(v, fmt, d))
    decreases v, 0
  {
    hide Paired;
    match v
    case Number(x) =>
      RoundTrip.DigitsAreDigits(if x.Floor < 0 then -x.Floor else x.Floor);
      PairedRun(Decimal(x.Floor));
    case String(s) =>
      PairedQuoted(s);
    case Array(es) =>
      PairedElems(es, fmt, d + 1);
      hide ElemsText;
      PairedRun([LBRACKET]);
      PairedRun([RBRACKET]);
      PairedBoth([LBRACKET], ElemsText(es, fmt, d + 1));
      PairedBoth([LBRACKET] + ElemsText(es, fmt, d + 1), [RBRACKET]);
    case Object(ms) =>
      var open, body, close := [LBRACE] + RoundTrip.Line(fmt), MembersText(ms, fmt, d + 1),
        RoundTrip.Indent(fmt, d);
      PairedMembers(ms, fmt, d + 1);
      hide MembersText;
      PairedRun(open);
      PairedRun(close);
      PairedRun([RBRACE]);
      PairedBoth(open, body);
      PairedBoth(open + body, close);
      PairedBoth(open + body + close, [RBRACE]);
    case _ =>
      PairedRun(Text(v, fmt, d));
  }

  lemma {:induction false} PairedElems(es: seq<Json>, fmt: bool, d: nat)
    requires PlainElems(es)
    ensures Paired(ElemsText(es, fmt, d))
    decreases es, 1
  {
    hide Paired;
    hide Text;
    if es == [] {
      PairedRun([]);
    } else {
      var x, sep := Text(es[0], fmt, d), if |es| > 1 then Separator(fmt) else [];
      PairedText(es[0], fmt, d);
      PairedElems(es[1..], fmt, d);
      PairedRun(sep);
      PairedBoth(x, sep);
      PairedBoth(x + sep, ElemsText(es[1..], fmt, d));
    }
  }

  lemma PairedKey(key: bytes, fmt: bool, d: nat)
    requires NulFree(key)
    ensures Paired(KeyText(key, fmt, d))
  {
    hide Paired;
    hide Quoted;
    var colon: bytes := if fmt then [COLON, TAB] else [COLON];
    PairedRun(RoundTrip.Indent(fmt, d));
    PairedQuoted(key);
    PairedRun(colon);
    PairedBoth(RoundTrip.Indent(fmt, d), Quoted(key));
    PairedBoth(RoundTrip.Indent(fmt, d) + Quoted(key), colon);
  }

  lemma {:induction false} PairedMembers(ms: seq<Member>, fmt: bool, d: nat)
    requires PlainMembers(ms)
    ensures Paired(MembersText(ms, fmt, d))
    decreases ms, 1
  {
    hide Paired;
    hide Text;
    hide KeyText;
    if ms == [] {
      PairedRun([]);
    } else {
      var k, x, e := KeyText(ms[0].key, fmt, d), Text(ms[0].value, fmt, d), MemberEnd(|ms| == 1, fmt);
      PairedKey(ms[0].key, fmt, d);
      PairedText(ms[0].value, fmt, d);
      PairedRun(e);
      PairedMembers(ms[1..], fmt, d);
      PairedBoth(k, x);
      PairedBoth(k + x, e);
      PairedBoth(k + x + e, MembersText(ms[1..], fmt, d));
    }
  }

  lemma {:induction false} LineSkips(x: bytes, t: bytes)
    requires NEWLINE !in x
    ensures LineRest(x + t) == LineRest(t)
  {
    if x == [] {
      assert x + t == t;
    } else {
      LineSkips(x[1..], t);
      assert (x + t)[1..] == x[1..] + t;
    }
  }

  lemma {:induction false} BlockSkips(x: bytes, t: bytes)
    requires STAR !in x
    ensures BlockRest(x + t) == BlockRest(t)
  {
    if x == [] {
      assert x + t == t;
    } else {
      BlockSkips(x[1..], t);
      assert (x + t)[1..] == x[1..] + t;
    }
  }

  lemma EscapeIs(b: byte)
    requires EscapeByte(b)[0] == BACKSLASH
    ensures b != SPACE && b != SLASH && STAR !in EscapeByte(b) && NEWLINE !in EscapeByte(b)
  {
  }

  /** An escape in front of a text. */
  lemma PairedUnit(t: bytes) returns (b: byte, t': bytes)
    requires Paired(t) && t != [] && t[0] == BACKSLASH
    ensures b != 0 && t == EscapeByte(b) + t' && |t'| < |t| && Paired(t')
    ensures b != SPACE && b != SLASH && STAR !in EscapeByte(b) && NEWLINE !in EscapeByte(b)
  {
    hide EscapeByte;
    b :| Begins(b, t) && Paired(t[|EscapeByte(b)|..]);
    t' := t[|EscapeByte(b)|..];
    assert EscapeByte(b)[0] == t[0];
    EscapeIs(b);
  }

  /** What is left behind a comment begins where a byte or an escape begins. */
  lemma {:induction false} PairedLine(t: bytes)
    requires Paired(t)
    ensures Paired(LineRest(t))
    decreases |t|
  {
    if t != [] {
      if t[0] == BACKSLASH {
        var b, t' := PairedUnit(t);
        LineSkips(EscapeByte(b), t');
        PairedLine(t');
      } else if t[0] != NEWLINE {
        PairedLine(t[1..]);
      }
    }
  }

  lemma {:induction false} PairedBlock(t: bytes)
    requires Paired(t)
    ensures Paired(BlockRest(t))
    decreases |t|
  {
    if t != [] {
      if t[0] == BACKSLASH {
        var b, t' := PairedUnit(t);
        BlockSkips(EscapeByte(b), t');
        PairedBlock(t');
      } else if t[0] == STAR && |t| > 1 && t[1] == SLASH {
        assert t[1..][0] != BACKSLASH && t[1..][1..] == t[2..];
      } else {
        PairedBlock(t[1..]);
      }
    }
  }

  // ----- strings that do not survive -----

  /** The bytes of a string literal behind its opening quote. */
  function Content(z: bytes): Option<bytes> {
    match CloseAt(z)
    case None => None
    case Some(k) => Unescape(z[..k])
  }

  lemma ContentRead(z: bytes, s: bytes)
    requires Content(z).None? || CString(Content(z).value) != s
    ensures var p := ParseString([QUOTE] + z); p.Fail? || p.value != s
  {
    hide CloseAt;
    hide Unescape;
    hide CString;
    var t := [QUOTE] + z;
    assert t[1..] == z;
    if CloseAt(z).Some? {
      var k := CloseAt(z).value;
      StringAt(t, k);
      assert t[1..1 + k] == z[..k];
    }
  }

  lemma ContentMore(b: byte, z: bytes)
    requires b != 0
    ensures Content(EscapeByte(b) + z) == Prepend([b], Content(z))
  {
    hide CloseAt;
    hide Unescape;
    hide EscapeByte;
    var e := EscapeByte(b);
    Strings.EscapeByteCloses(b, z);
    if CloseAt(z).Some? {
      var k := CloseAt(z).value;
      assert (e + z)[..|e| + k] == e + z[..k];
      Strings.EscapeByteReads(b, z[..k]);
    }
  }

  lemma ContentByte(b: byte, z: bytes)
    requires b != QUOTE && b != BACKSLASH
    ensures Content([b] + z) == Prepend([b], Content(z))
  {
    hide CloseAt;
    hide Unescape;
    Strings.CloseOne(b, z);
    if CloseAt(z).Some? {
      var k := CloseAt(z).value;
      assert ([b] + z)[..1 + k] == [b] + z[..k];
      Strings.ByteReads(b, z[..k]);
    }
  }

  /** The string does not begin with `c`. */
  predicate NotFirst(o: Option<bytes>, c: byte) {
    o.None? || CString(o.value) == [] || CString(o.value)[0] != c
  }

  lemma NotFirstByte(b: byte, o: Option<bytes>, c: byte)
    requires b != c
    ensures NotFirst(Prepend([b], o), c)
  {
  }

  lemma EscapedFirst(b: byte, t: bytes, c: byte)
    requires b != 0 && b != c && b != SPACE && b != SLASH && EscapeByte(b)[0] == BACKSLASH
    ensures NotFirst(Content(Out(EscapeByte(b) + t, true)), c)
  {
    hide Out;
    hide Content;
    hide NotFirst;
    var z;
    if b == QUOTE {
      OutBackslash([QUOTE] + t);
      OutQuote(t);
      z := Out(t, false);
      assert EscapeByte(b) + t == [BACKSLASH] + ([QUOTE] + t);
      assert [BACKSLASH] + ([QUOTE] + z) == EscapeByte(b) + z;
    } else {
      OutEscaped(b, t);
      z := Out(t, true);
    }
    ContentMore(b, z);
    NotFirstByte(b, Content(z), c);
  }

  lemma NothingFirst(c: byte)
    ensures NotFirst(Content(Out([], true)), c)
  {
  }

  lemma ClosedFirst(z: bytes, c: byte)
    ensures NotFirst(Content([QUOTE] + z), c)
  {
    assert ([QUOTE] + z)[..0] == [];
  }

  /** Outside strings the minifier never writes a space or a slash, nor half of an escape. */
  lemma {:induction false} NeverFirst(t: bytes, c: byte)
    requires Paired(t) && c in {SPACE, SLASH}
    ensures NotFirst(Content(Out(t, true)), c)
    decreases |t|
  {
    hide Content;
    hide NotFirst;
    if t == [] {
      NothingFirst(c);
    } else if t[0] == BACKSLASH {
      var b, t' := PairedUnit(t);
      EscapedFirst(b, t', c);
    } else if IsSpace(t[0]) {
      NeverFirst(t[1..], c);
    } else if t[0] == SLASH {
      if |t| > 1 && t[1] == SLASH {
        assert t[1..][1..] == t[2..];
        PairedLine(t[2..]);
        NeverFirst(LineRest(t[2..]), c);
      } else if |t| > 1 && t[1] == STAR {
        assert t[1..][1..] == t[2..];
        PairedBlock(t[2..]);
        NeverFirst(BlockRest(t[2..]), c);
      } else {
        NeverFirst(t[1..], c);
      }
    } else if t[0] == QUOTE {
      assert t == [QUOTE] + t[1..];
      OutQuote(t[1..]);
      ClosedFirst(Out(t[1..], false), c);
    } else {
      ContentByte(t[0], Minified(t[1..]));
      NotFirstByte(t[0], Content(Minified(t[1..])), c);
    }
  }

  lemma CStringOne(b: byte, w: bytes)
    requires b != 0
    ensures CString([b] + w) == [b] + CString(w)
  {
    assert ([b] + w)[1..] == w;
  }

  /** A string from which a byte is dropped is read as another one, or not at all. */
  lemma {:induction false} ContentLost(s: bytes, t: bytes)
    requires NulFree(s) && Paired(t) && !Survives(s, false)
    ensures var o := Content(Out(Escape(s) + ([QUOTE] + t), true)); o.None? || CString(o.value) != s
    decreases |s|
  {
    hide Out;
    hide Content;
    hide Paired;
    hide EscapeByte;
    var q := [QUOTE] + t;
    PairedRun([QUOTE]);
    PairedBoth([QUOTE], t);
    if s[0] in {SPACE, SLASH} {
      PairedEscape(s);
      PairedBoth(Escape(s), q);
      NeverFirst(Escape(s) + q, s[0]);
    } else {
      assert BeforeQuote(s) == [s[0]] + BeforeQuote(s[1..]);
      ContentLost(s[1..], t);
      Strings.EscapeOne(s);
      hide Escape;
      var more := Escape(s[1..]) + q;
      Right3(EscapeByte(s[0]), Escape(s[1..]), q);
      OutEscaped(s[0], more);
      ContentMore(s[0], Out(more, true));
      var o := Content(Out(more, true));
      if o.Some? {
        CStringOne(s[0], o.value);
        assert s == [s[0]] + s[1..];
      }
    }
  }

  lemma QuotedLost(s: bytes, t: bytes, inStep: bool)
    requires NulFree(s) && Paired(t) && !Survives(s, inStep)
    ensures var p := ParseString(Out(Quoted(s) + t, inStep)); p.Fail? || p.value != s
  {
    hide Out;
    hide Content;
    hide Paired;
    var u := Escape(s) + ([QUOTE] + t);
    assert Quoted(s) + t == [QUOTE] + u;
    OutQuote(u);
    ContentLost(s, t);
    ContentRead(Out(u, true), s);
  }

  // ----- values -----

  /** Either `v` is read and `rest` left, or something else is read or nothing. */
  ghost predicate Reads<T>(p: Parsed<T>, v: T, ok: bool, rest: bytes) {
    if ok then p == Done(v, rest) else p.Fail? || p.value != v
  }

  /** What may stand behind a value. */
  ghost predicate Tail(t: bytes) {
    Paired(t) && RoundTrip.Ends(Out(t, true)) && RoundTrip.Ends(Out(t, false))
  }

  lemma TailByte(b: byte, t: bytes)
    requires (Bare(b) || IsSpace(b)) && !IsNumberChar(b) && Paired(t) && (IsSpace(b) ==> RoundTrip.Ends(Out(t, true)))
    ensures Tail([b] + t)
  {
    hide Out;
    if IsSpace(b) {
      OutBlank(b, t, true);
      OutBlank(b, t, false);
      assert [] + Out(t, true) == Out(t, true);
    } else {
      OutBare(b, t, true);
      OutBare(b, t, false);
    }
    assert ([b] + t)[1..] == t;
  }

  lemma BeginsPlain(v: Json, fmt: bool, d: nat)
    ensures var b := Text(v, fmt, d)[0]; b == QUOTE || Bare(b)
  {
    match v
    case Number(x) =>
      RoundTrip.DigitsAreDigits(if x.Floor < 0 then -x.Floor else x.Floor);
    case _ =>
  }

  /** The first byte of a value stays. */
  lemma OutBegins(v: Json, fmt: bool, d: nat, t: bytes, inStep: bool)
    ensures var x := Out(Text(v, fmt, d) + t, inStep);
            x != [] && x[0] == Text(v, fmt, d)[0] && !IsBlank(x[0]) && x[0] != RBRACKET && SkipWs(x) == x
  {
    RoundTrip.TextBegins(v, fmt, d);
    var x := Text(v, fmt, d);
    var b, more := x[0], x[1..] + t;
    assert x + t == [b] + more;
    BeginsPlain(v, fmt, d);
    hide Out;
    hide Text;
    if b == QUOTE {
      OutQuote(more);
    } else {
      OutBare(b, more, inStep);
    }
  }

  lemma ScalarOut(v: Json, fmt: bool, d: nat, t: bytes, inStep: bool, depth: nat)
    requires Plain(v) && Tail(t) && !v.Array? && !v.Object? && !v.String?
    ensures Reads(ParseValue(Out(Text(v, fmt, d) + t, inStep), depth), v, true, Out(t, inStep))
  {
    hide Out;
    hide ParseValue;
    match v
    case Number(x) =>
      RoundTrip.DigitsAreDigits(if x.Floor < 0 then -x.Floor else x.Floor);
      OutRun(Decimal(x.Floor), t, inStep);
      RoundTrip.ScalarReads(v, fmt, d, Out(t, inStep), depth);
    case _ =>
      OutRun(Text(v, fmt, d), t, inStep);
      RoundTrip.ScalarReads(v, fmt, d, Out(t, inStep), depth);
  }

  lemma StringOut(s: bytes, t: bytes, inStep: bool, depth: nat)
    requires NulFree(s) && Paired(t)
    ensures Reads(ParseValue(Out(Quoted(s) + t, inStep), depth), String(s), Survives(s, inStep),
                  Out(t, InStepAfter(s, inStep)))
  {
    hide Out;
    hide ParseString;
    hide ParseValue;
    hide Paired;
    var x := Out(Quoted(s) + t, inStep);
    OutBegins(String(s), false, 0, t, inStep);
    OtherValue(x, depth);
    if Survives(s, inStep) {
      OutQuoted(s, t, inStep);
      Strings.QuotedReads(s, Out(t, InStepAfter(s, inStep)));
    } else {
      QuotedLost(s, t, inStep);
    }
  }

  lemma ElemsBeginOut(es: seq<Json>, fmt: bool, d: nat, close: bytes, inStep: bool)
    requires es != []
    ensures var x := Out(ElemsText(es, fmt, d) + close, inStep);
            RoundTrip.Sharp(x) && SkipWs(x) == x && x != [] && x[0] != RBRACKET
  {
    RoundTrip.ElemsCut(es, fmt, d, close);
    hide Text;
    hide ElemsText;
    hide Out;
    if |es| == 1 {
      OutBegins(es[0], fmt, d, close, inStep);
    } else {
      OutBegins(es[0], fmt, d, [COMMA] + (RoundTrip.Gap(fmt) + (ElemsText(es[1..], fmt, d) + close)), inStep);
    }
  }

  lemma LastElem(x: bytes, e: Json, ok: bool, rest: bytes, depth: nat)
    requires SkipWs(x) == x && Reads(ParseValue(x, depth), e, ok, [RBRACKET] + rest)
    ensures Reads(ParseElems(x, depth), [e], ok, rest)
  {
    hide ParseValue;
    hide ParseElems;
    ElementIs(x, depth);
    if ok {
      RoundTrip.SkipNothing([RBRACKET] + rest);
      RoundTrip.Front(RBRACKET, rest);
      RoundTrip.ElemsStep(x, e, [RBRACKET] + rest, depth);
    } else {
      var p := ParseElems(x, depth);
      assert p.Done? ==> p.value[0] == ParseValue(x, depth).value;
    }
  }

  lemma NextElem(x: bytes, es: seq<Json>, ok: bool, gap: bytes, more: bytes, okRest: bool, rest: bytes, depth: nat)
    requires |es| > 1 && SkipWs(x) == x && SkipWs(gap) == more && SkipWs(more) == more
    requires Reads(ParseValue(x, depth), es[0], ok, [COMMA] + gap)
    requires Reads(ParseElems(more, depth), es[1..], okRest, rest)
    ensures Reads(ParseElems(x, depth), es, ok && okRest, rest)
  {
    hide ParseValue;
    hide ParseElems;
    ElementIs(x, depth);
    if ok {
      RoundTrip.SkipNothing([COMMA] + gap);
      RoundTrip.Front(COMMA, gap);
      RoundTrip.ElemsStep(x, es[0], [COMMA] + gap, depth);
      RoundTrip.ElemsSkip(gap, more, depth);
      assert es == [es[0]] + es[1..];
      var p := ParseElems(more, depth);
      assert p.Done? ==> ([es[0]] + p.value)[1..] == p.value;
    } else {
      var p := ParseElems(x, depth);
      assert p.Done? ==> p.value[0] == ParseValue(x, depth).value;
    }
  }

  lemma {:induction false} ElemsOut(es: seq<Json>, fmt: bool, d: nat, t: bytes, inStep: bool, depth: nat)
    requires es != [] && PlainElems(es) && depth + DepthElems(es) <= NESTING_LIMIT && Paired(t)
    ensures Reads(ParseElems(Out(ElemsText(es, fmt, d) + ([RBRACKET] + t), inStep), depth), es,
                  AllSurvive(ElemLiterals(es), inStep), Out(t, InStepAfterAll(ElemLiterals(es), inStep)))
    decreases es, 3
  {
    hide ParseValue;
    hide ParseElems;
    hide Text;
    hide ElemsText;
    hide SkipWs;
    hide Out;
    hide Paired;
    hide Literals;
    hide AllSurvive;
    hide InStepAfterAll;
    var close, e := [RBRACKET] + t, es[0];
    var ok, next := AllSurvive(Literals(e), inStep), InStepAfterAll(Literals(e), inStep);
    var x := Out(ElemsText(es, fmt, d) + close, inStep);
    TailByte(RBRACKET, t);
    RoundTrip.ElemsCut(es, fmt, d, close);
    Chain(Literals(e), ElemLiterals(es[1..]), inStep);
    if |es| == 1 {
      OutBegins(e, fmt, d, close, inStep);
      ValueOut(e, fmt, d, close, inStep, depth);
      OutBare(RBRACKET, t, next);
      LastElem(x, e, ok, Out(t, next), depth);
      assert es == [e] && ElemLiterals(es[1..]) == [] && Literals(e) + [] == Literals(e);
    } else {
      var more := ElemsText(es[1..], fmt, d) + close;
      var gap := RoundTrip.Gap(fmt) + more;
      PairedElems(es[1..], fmt, d);
      PairedRun([RBRACKET]);
      PairedBoth([RBRACKET], t);
      PairedBoth(ElemsText(es[1..], fmt, d), close);
      PairedRun(RoundTrip.Gap(fmt));
      PairedBoth(RoundTrip.Gap(fmt), more);
      TailByte(COMMA, gap);
      OutBegins(e, fmt, d, [COMMA] + gap, inStep);
      ValueOut(e, fmt, d, [COMMA] + gap, inStep, depth);
      OutBare(COMMA, gap, next);
      ElemsBeginOut(es[1..], fmt, d, close, next);
      BlanksSkipped(RoundTrip.Gap(fmt), more, next);
      ElemsOut(es[1..], fmt, d, t, next, depth);
      NextElem(x, es, ok, Out(gap, next), Out(more, next), AllSurvive(ElemLiterals(es[1..]), next),
          Out(t, InStepAfterAll(ElemLiterals(es[1..]), next)), depth);
    }
  }

  lemma {:induction false} ArrayOut(es: seq<Json>, fmt: bool, d: nat, t: bytes, inStep: bool, depth: nat)
    requires PlainElems(es) && depth + 1 + DepthElems(es) <= NESTING_LIMIT && Paired(t)
    ensures Reads(ParseValue(Out(Text(Array(es), fmt, d) + t, inStep), depth), Array(es),
                  AllSurvive(ElemLiterals(es), inStep), Out(t, InStepAfterAll(ElemLiterals(es), inStep)))
    decreases es, 4
  {
    hide ParseValue;
    hide ParseElems;
    hide Out;
    hide Paired;
    hide SkipWs;
    RoundTrip.ArrayText(es, fmt, d, t);
    hide Text;
    var close := [RBRACKET] + t;
    var b := ElemsText(es, fmt, d + 1) + close;
    OutBare(LBRACKET, b, inStep);
    var y := Out(b, inStep);
    if es == [] {
      assert b == close;
      OutBare(RBRACKET, t, inStep);
      RoundTrip.SkipNothing(y);
      RoundTrip.Front(RBRACKET, Out(t, inStep));
      RoundTrip.ArrayOpens(y, y, depth);
    } else {
      hide ElemsText;
      ElemsBeginOut(es, fmt, d + 1, close, inStep);
      RoundTrip.ArrayOpens(y, y, depth);
      ElemsOut(es, fmt, d + 1, t, inStep, depth + 1);
    }
  }

  // ----- members -----

  lemma PairedBare(b: byte, t: bytes)
    requires Bare(b) && Paired(t)
    ensures Paired([b] + t)
  {
    assert ([b] + t)[1..] == t;
  }

  lemma TailBlanks(ws: bytes, b: byte, t: bytes)
    requires Spaces(ws) && Bare(b) && !IsNumberChar(b) && Paired(t)
    ensures Tail(ws + ([b] + t)) && Paired([b] + t)
  {
    hide Out;
    PairedBare(b, t);
    PairedRun(ws);
    hide Paired;
    var x := [b] + t;
    PairedBoth(ws, x);
    OutBare(b, t, true);
    OutBare(b, t, false);
    OutBlanks(ws, x, true);
    OutBlanks(ws, x, false);
    assert ws != [] ==> (ws + Out(x, false))[0] == ws[0];
  }

  /** The strings of one member. */
  function OneMember(m: Member): seq<bytes> {
    [m.key] + Literals(m.value)
  }

  lemma MemberLiteralsAre(ms: seq<Member>)
    requires ms != []
    ensures MemberLiterals(ms) == OneMember(ms[0]) + MemberLiterals(ms[1..])
  {
    hide Literals;
    Right3([ms[0].key], Literals(ms[0].value), MemberLiterals(ms[1..]));
  }

  lemma OneSurvives(m: Member, inStep: bool)
    ensures var next := InStepAfter(m.key, inStep);
            && (AllSurvive(OneMember(m), inStep) <==> Survives(m.key, inStep) && AllSurvive(Literals(m.value), next))
            && InStepAfterAll(OneMember(m), inStep) == InStepAfterAll(Literals(m.value), next)
  {
    hide Literals;
    hide Survives;
    hide InStepAfter;
    assert OneMember(m)[1..] == Literals(m.value);
  }

  /** A key that is read, its colon, and what is read behind it. */
  lemma KeyRead(x: bytes, m: Member, r: bytes, y: bytes, ok: bool, rest: bytes, depth: nat)
    requires ParseString(SkipWs(x)) == Done(m.key, [COLON] + r) && SkipWs(r) == y
    requires Reads(ParseValue(y, depth), m.value, ok, rest)
    ensures Reads(ParseMember(x, depth), m, ok, rest)
  {
    hide ParseString;
    hide ParseValue;
    hide ParseMember;
    MemberText(x, depth);
    RoundTrip.SkipNothing([COLON] + r);
    RoundTrip.Front(COLON, r);
  }

  lemma KeyLost(x: bytes, m: Member, depth: nat)
    requires var p := ParseString(SkipWs(x)); p.Fail? || p.value != m.key
    ensures var p := ParseMember(x, depth); p.Fail? || p.value != m
  {
    hide ParseString;
    hide ParseValue;
    hide ParseMember;
    MemberText(x, depth);
  }

  lemma QuoteBegins(s: bytes, t: bytes, inStep: bool)
    ensures var x := Out(Quoted(s) + t, inStep); RoundTrip.Sharp(x) && x != [] && x[0] == QUOTE
  {
    hide Out;
    hide Escape;
    var u := Escape(s) + ([QUOTE] + t);
    assert Quoted(s) + t == [QUOTE] + u;
    OutQuote(u);
  }

  /**
   A printed value in front of any tail, in step or not: it is read back when its strings survive, and
   otherwise not.
   */
  lemma {:induction false} ValueOut(v: Json, fmt: bool, d: nat, t: bytes, inStep: bool, depth: nat)
    requires Plain(v) && depth + Depth(v) <= NESTING_LIMIT && Tail(t)
    ensures Reads(ParseValue(Out(Text(v, fmt, d) + t, inStep), depth), v, AllSurvive(Literals(v), inStep),
                  Out(t, InStepAfterAll(Literals(v), inStep)))
    decreases v, 1
  {
    hide Out;
    hide ParseValue;
    match v
    case String(s) =>
      StringOut(s, t, inStep, depth);
      assert [s][1..] == [];
    case Array(es) =>
      ArrayOut(es, fmt, d, t, inStep, depth);
    case Object(ms) =>
      ObjectOut(ms, fmt, d, t, inStep, depth);
    case _ =>
      ScalarOut(v, fmt, d, t, inStep, depth);
  }

  lemma {:induction false} MemberOut(m: Member, fmt: bool, d: nat, after: bytes, inStep: bool, depth: nat)
    requires NulFree(m.key) && Plain(m.value) && depth + Depth(m.value) <= NESTING_LIMIT && Tail(after)
    ensures var gap: bytes := if fmt then [TAB] else [];
            var x := Quoted(m.key) + ([COLON] + (gap + (Text(m.value, fmt, d) + after)));
            && Reads(ParseMember(Out(x, inStep), depth), m, AllSurvive(OneMember(m), inStep),
                     Out(after, InStepAfterAll(OneMember(m), inStep)))
            && RoundTrip.Sharp(Out(x, inStep)) && Out(x, inStep) != [] && Out(x, inStep)[0] == QUOTE
    decreases m, 2
  {
    hide ParseString;
    hide ParseValue;
    hide ParseMember;
    hide Out;
    hide Paired;
    hide Text;
    hide SkipWs;
    hide Survives;
    hide InStepAfter;
    hide AllSurvive;
    hide InStepAfterAll;
    var gap: bytes := if fmt then [TAB] else [];
    var y := Text(m.value, fmt, d) + after;
    var k := [COLON] + (gap + y);
    var x := Out(Quoted(m.key) + k, inStep);
    QuoteBegins(m.key, k, inStep);
    hide Quoted;
    RoundTrip.SkipNothing(x);
    OneSurvives(m, inStep);
    if Survives(m.key, inStep) {
      var next := InStepAfter(m.key, inStep);
      OutQuoted(m.key, k, inStep);
      Strings.QuotedReads(m.key, Out(k, next));
      OutBare(COLON, gap + y, next);
      OutBegins(m.value, fmt, d, after, next);
      BlanksSkipped(gap, y, next);
      ValueOut(m.value, fmt, d, after, next, depth);
      KeyRead(x, m, Out(gap + y, next), Out(y, next), AllSurvive(Literals(m.value), next),
          Out(after, InStepAfterAll(Literals(m.value), next)), depth);
    } else {
      PairedText(m.value, fmt, d);
      PairedBoth(Text(m.value, fmt, d), after);
      PairedRun(gap);
      PairedBoth(gap, y);
      PairedRun([COLON]);
      PairedBoth([COLON], gap + y);
      QuotedLost(m.key, k, inStep);
      KeyLost(x, m, depth);
    }
  }

  lemma LastMember(x: bytes, m: Member, ok: bool, after: bytes, rest: bytes, depth: nat)
    requires Reads(ParseMember(x, depth), m, ok, after) && SkipWs(after) == [RBRACE] + rest
    ensures Reads(ParseMembers(x, depth), [m], ok, rest)
  {
    hide ParseMember;
    hide ParseMembers;
    MemberIs(x, depth);
    if ok {
      RoundTrip.Front(RBRACE, rest);
      RoundTrip.MembersStep(x, m, after, depth);
    } else {
      var p := ParseMembers(x, depth);
      assert p.Done? ==> p.value[0] == ParseMember(x, depth).value;
    }
  }

  lemma NextMember(x: bytes, ms: seq<Member>, ok: bool, gap: bytes, more: bytes, okRest: bool, rest: bytes, depth: nat)
    requires |ms| > 1 && SkipWs(gap) == more && SkipWs(more) == more
    requires Reads(ParseMember(x, depth), ms[0], ok, [COMMA] + gap)
    requires Reads(ParseMembers(more, depth), ms[1..], okRest, rest)
    ensures Reads(ParseMembers(x, depth), ms, ok && okRest, rest)
  {
    hide ParseMember;
    hide ParseMembers;
    MemberIs(x, depth);
    if ok {
      RoundTrip.SkipNothing([COMMA] + gap);
      RoundTrip.Front(COMMA, gap);
      RoundTrip.MembersStep(x, ms[0], [COMMA] + gap, depth);
      RoundTrip.MembersSkip(gap, more, depth);
      assert ms == [ms[0]] + ms[1..];
      var p := ParseMembers(more, depth);
      assert p.Done? ==> ([ms[0]] + p.value)[1..] == p.value;
    } else {
      var p := ParseMembers(x, depth);
      assert p.Done? ==> p.value[0] == ParseMember(x, depth).value;
    }
  }

  lemma SpacesBoth(fmt: bool, d: nat)
    ensures Spaces(RoundTrip.Line(fmt) + RoundTrip.Indent(fmt, d)) && Spaces(RoundTrip.Indent(fmt, d))
  {
  }

  lemma PairedInner(ms: seq<Member>, fmt: bool, d: nat, d0: nat, t: bytes)
    requires ms != [] && PlainMembers(ms) && Paired(t)
    ensures Paired(RoundTrip.MembersInner(ms, fmt, d) + (RoundTrip.Indent(fmt, d0) + ([RBRACE] + t)))
  {
    hide Paired;
    hide Text;
    var gap: bytes := if fmt then [TAB] else [];
    var x, e := Text(ms[0].value, fmt, d), MemberEnd(|ms| == 1, fmt);
    PairedQuoted(ms[0].key);
    PairedText(ms[0].value, fmt, d);
    PairedMembers(ms[1..], fmt, d);
    var r := MembersText(ms[1..], fmt, d);
    hide MembersText;
    PairedRun(e);
    PairedRun(gap);
    PairedRun([COLON]);
    PairedBoth(e, r);
    PairedBoth(x, e + r);
    PairedBoth(gap, x + (e + r));
    PairedBoth([COLON], gap + (x + (e + r)));
    PairedBoth(Quoted(ms[0].key), [COLON] + (gap + (x + (e + r))));
    PairedRun([RBRACE]);
    PairedRun(RoundTrip.Indent(fmt, d0));
    PairedBoth([RBRACE], t);
    PairedBoth(RoundTrip.Indent(fmt, d0), [RBRACE] + t);
    PairedBoth(RoundTrip.MembersInner(ms, fmt, d), RoundTrip.Indent(fmt, d0) + ([RBRACE] + t));
  }

  /** The members from the first key on, up to and with the closing brace. */
  lemma {:induction false} MembersOut(ms: seq<Member>, fmt: bool, d: nat, d0: nat, t: bytes, inStep: bool, depth: nat)
    requires ms != [] && PlainMembers(ms) && depth + DepthMembers(ms) <= NESTING_LIMIT && Paired(t)
    ensures var x := RoundTrip.MembersInner(ms, fmt, d) + (RoundTrip.Indent(fmt, d0) + ([RBRACE] + t));
            && Reads(ParseMembers(Out(x, inStep), depth), ms, AllSurvive(MemberLiterals(ms), inStep),
                     Out(t, InStepAfterAll(MemberLiterals(ms), inStep)))
            && Paired(x) && RoundTrip.Sharp(Out(x, inStep)) && Out(x, inStep) != [] && Out(x, inStep)[0] == QUOTE
    decreases ms, 3
  {
    hide ParseMembers;
    hide ParseMember;
    hide Text;
    hide Out;
    hide Paired;
    hide SkipWs;
    hide AllSurvive;
    hide InStepAfterAll;
    hide OneMember;
    hide Reads;
    var m, end := ms[0], [RBRACE] + t;
    var close := RoundTrip.Indent(fmt, d0) + end;
    var next := InStepAfterAll(OneMember(m), inStep);
    var x := RoundTrip.MembersInner(ms, fmt, d) + close;
    var after := MemberEnd(|ms| == 1, fmt) + (MembersText(ms[1..], fmt, d) + close);
    PairedInner(ms, fmt, d, d0, t);
    RoundTrip.MemberCut(ms, fmt, d, close);
    MemberLiteralsAre(ms);
    Chain(OneMember(m), MemberLiterals(ms[1..]), inStep);
    RoundTrip.MemberEndIs(fmt);
    SpacesBoth(fmt, d0);
    if |ms| == 1 {
      var ws := RoundTrip.Line(fmt) + RoundTrip.Indent(fmt, d0);
      assert ms[1..] == [] && [] + close == close && ms == [m];
      assert MemberLiterals(ms[1..]) == [] && OneMember(m) + [] == OneMember(m);
      Right3(RoundTrip.Line(fmt), RoundTrip.Indent(fmt, d0), end);
      assert after == ws + end;
      TailBlanks(ws, RBRACE, t);
      MemberOut(m, fmt, d, after, inStep, depth);
      OutBare(RBRACE, t, next);
      BlanksSkipped(ws, end, next);
      LastMember(Out(x, inStep), m, AllSurvive(OneMember(m), inStep), Out(after, next), Out(t, next), depth);
    } else {
      var inner := RoundTrip.MembersInner(ms[1..], fmt, d) + close;
      var ws := RoundTrip.Line(fmt) + RoundTrip.Indent(fmt, d);
      RoundTrip.AfterMember(ms, fmt, d, close);
      Right3(RoundTrip.Line(fmt), RoundTrip.Indent(fmt, d), inner);
      assert after == [COMMA] + (ws + inner);
      hide MembersText;
      SpacesBoth(fmt, d);
      MembersOut(ms[1..], fmt, d, d0, t, next, depth);
      PairedRun(ws);
      PairedBoth(ws, inner);
      TailByte(COMMA, ws + inner);
      MemberOut(m, fmt, d, after, inStep, depth);
      OutBare(COMMA, ws + inner, next);
      BlanksSkipped(ws, inner, next);
      RoundTrip.SkipNothing(Out(inner, next));
      NextMember(Out(x, inStep), ms, AllSurvive(OneMember(m), inStep), Out(ws + inner, next), Out(inner, next),
          AllSurvive(MemberLiterals(ms[1..]), next), Out(t, InStepAfterAll(MemberLiterals(ms[1..]), next)), depth);
    }
  }

  lemma {:induction false} ObjectOut(ms: seq<Member>, fmt: bool, d: nat, t: bytes, inStep: bool, depth: nat)
    requires PlainMembers(ms) && depth + 1 + DepthMembers(ms) <= NESTING_LIMIT && Paired(t)
    ensures Reads(ParseValue(Out(Text(Object(ms), fmt, d) + t, inStep), depth), Object(ms),
                  AllSurvive(MemberLiterals(ms), inStep), Out(t, InStepAfterAll(MemberLiterals(ms), inStep)))
    decreases ms, 4
  {
    hide ParseValue;
    hide ParseMembers;
    hide Out;
    hide Paired;
    hide SkipWs;
    RoundTrip.ObjectText(ms, fmt, d, t);
    hide Text;
    var end := [RBRACE] + t;
    var close := RoundTrip.Indent(fmt, d) + end;
    var b := RoundTrip.Line(fmt) + (MembersText(ms, fmt, d + 1) + close);
    OutBare(LBRACE, b, inStep);
    var y := Out(b, inStep);
    if ms == [] {
      assert [] + close == close;
      SpacesBoth(fmt, d);
      Right3(RoundTrip.Line(fmt), RoundTrip.Indent(fmt, d), end);
      OutBare(RBRACE, t, inStep);
      BlanksSkipped(RoundTrip.Line(fmt) + RoundTrip.Indent(fmt, d), end, inStep);
      RoundTrip.Front(RBRACE, Out(t, inStep));
      RoundTrip.ObjectOpens(y, Out(end, inStep), depth);
    } else {
      var ws := RoundTrip.Line(fmt) + RoundTrip.Indent(fmt, d + 1);
      var inner := RoundTrip.MembersInner(ms, fmt, d + 1) + close;
      RoundTrip.MembersCut(ms, fmt, d + 1);
      hide MembersText;
      Right3(RoundTrip.Indent(fmt, d + 1), RoundTrip.MembersInner(ms, fmt, d + 1), close);
      Right3(RoundTrip.Line(fmt), RoundTrip.Indent(fmt, d + 1), inner);
      SpacesBoth(fmt, d + 1);
      MembersOut(ms, fmt, d + 1, d, t, inStep, depth + 1);
      BlanksSkipped(ws, inner, inStep);
      RoundTrip.ObjectOpens(y, Out(inner, inStep), depth);
    }
  }

  lemma ShallowValue(v: Json, fmt: bool)
    requires Plain(v) && Depth(v) <= NESTING_LIMIT
    ensures ParseText(Minified(Text(v, fmt, 0)), true) == Done(v, []) <==> AllSurvive(Literals(v), true)
  {
    hide ParseValue;
    hide Text;
    hide Minified;
    hide AllSurvive;
    hide InStepAfterAll;
    hide SkipWs;
    var x, next := Text(v, fmt, 0), InStepAfterAll(Literals(v), true);
    assert x + [] == x && Out(x, true) == Minified(x);
    OutNothing(true);
    OutNothing(false);
    OutNothing(next);
    hide Out;
    ValueOut(v, fmt, 0, [], true, 0);
    OutBegins(v, fmt, 0, [], true);
    RoundTrip.TextBegins(v, fmt, 0);
    RoundTrip.SkipNothing([]);
  }

  /**
   Minifying printed text, formatted or not, keeps the value exactly when no string that the minifier meets
   out of step holds a space or a slash before its first quote (and the value can be parsed back at all).
   */
  lemma MinifiedKeepsValue(v: Json, fmt: bool)
    requires Plain(v)
    ensures ParseText(Minified(Text(v, fmt, 0)), true) == Done(v, [])
       <==> AllSurvive(Literals(v), true) && Depth(v) <= NESTING_LIMIT
  {
    hide ParseValue;
    hide Text;
    hide Minified;
    hide AllSurvive;
    hide SkipWs;
    var x := Minified(Text(v, fmt, 0));
    if Depth(v) <= NESTING_LIMIT {
      ShallowValue(v, fmt);
    } else if ParseText(x, true) == Done(v, []) {
      RoundTrip.ParsedValue(SkipWs(SkipBom(x)), 0);
    }
  }
}
