/**
 What minifying does to unformatted text. Behind a string that ends with a backslash the minifier is out
 of step with the text: it takes what stands between strings for a string, and looks for space and
 comments inside the next string.
 */
module JsonMinifyPlain {
  import opened Bytes
  import opened JsonValue
  import opened JsonMinify
  import Parse = JsonMinifyParse
  import RoundTrip = JsonRoundTrip
  import Strings = JsonStrings
  import opened JsonMinifyPrint

  // ----- the strings of a value -----

  function ElemLiterals(es: seq<Json>): seq<bytes> {
    if es == [] then [] else Literals(es[0]) + ElemLiterals(es[1..])
  }

  function MemberLiterals(ms: seq<Member>): seq<bytes> {
    if ms == [] then [] else [ms[0].key] + (Literals(ms[0].value) + MemberLiterals(ms[1..]))
  }

  /** The strings and keys of a value, in the order they are printed. */
  function Literals(v: Json): seq<bytes> {
    match v
    case String(s) => [s]
    case Array(es) => ElemLiterals(es)
    case Object(ms) => MemberLiterals(ms)
    case _ => []
  }

  /** Up to the first quote; all of it when there is none. */
  function BeforeQuote(s: bytes): (r: bytes) {
    if s == [] || s[0] == QUOTE then [] else [s[0]] + BeforeQuote(s[1..])
  }

  /** Whether the minifier leaves a printed string as it is. Out of step it does up to the first quote only. */
  predicate Survives(s: bytes, inStep: bool) {
    inStep || (SPACE !in BeforeQuote(s) && SLASH !in BeforeQuote(s))
  }

  /** Whether the minifier is in step behind a printed string. A quote in the string brings it back. */
  predicate InStepAfter(s: bytes, inStep: bool)
    decreases |s|
  {
    if inStep then EndsWell(s)
    else s != [] && if s[0] == QUOTE then EndsWell(s[1..]) else InStepAfter(s[1..], false)
  }

  predicate AllSurvive(ss: seq<bytes>, inStep: bool)
    decreases |ss|
  {
    ss == [] || (Survives(ss[0], inStep) && AllSurvive(ss[1..], InStepAfter(ss[0], inStep)))
  }

  predicate InStepAfterAll(ss: seq<bytes>, inStep: bool)
    decreases |ss|
  {
    if ss == [] then inStep else InStepAfterAll(ss[1..], InStepAfter(ss[0], inStep))
  }

  lemma {:induction false} Chain(a: seq<bytes>, b: seq<bytes>, inStep: bool)
    ensures AllSurvive(a + b, inStep) <==> AllSurvive(a, inStep) && AllSurvive(b, InStepAfterAll(a, inStep))
    ensures InStepAfterAll(a + b, inStep) == InStepAfterAll(b, InStepAfterAll(a, inStep))
    decreases |a|
  {
    if a == [] {
      assert a + b == b;
    } else {
      Chain(a[1..], b, InStepAfter(a[0], inStep));
      assert (a + b)[1..] == a[1..] + b;
    }
  }

  // ----- texts that stay as they are -----

  /** The minifier, outside a string or inside one, leaves all of `t` as it is. */
  ghost predicate Stays(t: bytes, inStep: bool) {
    var u := if inStep then t else t[StringSpan(t)..];
    Minified(u) == u
  }

  lemma Same(x: bytes, a: bytes, b: bytes)
    ensures x + a == x + b <==> a == b
  {
    if a != b {
      Differ(x, a, b);
    }
  }

  predicate Bare(b: byte) {
    Parse.Kept(b) && b != BACKSLASH
  }

  lemma BareStays(b: byte, t: bytes, inStep: bool)
    requires Bare(b)
    ensures Stays([b] + t, inStep) <==> Stays(t, inStep)
  {
    hide Minified;
    hide StringSpan;
    MinifiedPlain(b, t);
    Same([b], Minified(t), t);
    Parse.SpanOne(b, t);
    var n := StringSpan(t);
    assert ([b] + t)[n + 1..] == t[n..];
  }

  lemma {:induction false} RunStays(x: bytes, t: bytes, inStep: bool)
    requires forall i :: 0 <= i < |x| ==> Bare(x[i])
    ensures Stays(x + t, inStep) <==> Stays(t, inStep)
  {
    hide Stays;
    hide Bare;
    if x == [] {
      assert x + t == t;
    } else {
      RunStays(x[1..], t, inStep);
      BareStays(x[0], x[1..] + t, inStep);
      assert [x[0]] + (x[1..] + t) == x + t;
    }
  }

  lemma QuotedInStep(s: bytes, t: bytes)
    ensures Stays(Quoted(s) + t, true) <==> Stays(t, EndsWell(s))
  {
    hide Minified;
    hide StringSpan;
    hide Quoted;
    if EndsWell(s) {
      QuotedKept(s, t);
      Same(Quoted(s), Minified(t), t);
    } else {
      MissedCopies(s, t);
      var n := StringSpan(t);
      Same(Quoted(s), t[..n] + Minified(t[n..]), t);
      Same(t[..n], Minified(t[n..]), t[n..]);
      assert t[..n] + t[n..] == t;
    }
  }

  lemma DroppedFirst(b: byte, t: bytes)
    requires b == SPACE || b == SLASH
    ensures Minified([b] + t) != [b] + t
  {
    var s := [b] + t;
    assert s[1..] == t;
    assert |Minified(s)| < |s|;
  }

  lemma {:induction false} EscapedKept(b: byte, t: bytes)
    requires b != QUOTE && b != SPACE && b != SLASH
    ensures Minified(EscapeByte(b) + t) == EscapeByte(b) + Minified(t)
  {
    hide Minified;
    var e := EscapeByte(b);
    assert forall i :: 0 <= i < |e| ==> Parse.Kept(e[i]);
    KeptAll(e, t);
  }

  /** Behind the last byte of a string that the minifier looked at, it takes the closing quote for an opening one. */
  lemma ClosingOpens(t: bytes)
    ensures Stays([QUOTE] + t, true) <==> Stays(t, false)
  {
    hide Minified;
    hide StringSpan;
    var q, n := [QUOTE] + t, StringSpan(t);
    assert q[1..] == t;
    MinifiedQuote(q);
    assert q[..n + 1] == [QUOTE] + t[..n] && q[n + 1..] == t[n..];
    Same(q[..n + 1], Minified(t[n..]), t[n..]);
    assert q[..n + 1] + q[n + 1..] == q;
  }

  /** A quote inside the string opens one for the minifier, and the closing quote closes it. */
  lemma QuoteInside(s: bytes, t: bytes)
    requires s != [] && s[0] == QUOTE
    ensures Stays(Escape(s) + ([QUOTE] + t), true) <==> Stays(t, EndsWell(s[1..]))
  {
    hide Minified;
    hide StringSpan;
    var q := [QUOTE] + t;
    Strings.EscapeOne(s);
    var more := Escape(s[1..]) + q;
    Right3([QUOTE], Escape(s[1..]), q);
    assert Quoted(s[1..]) + t == [QUOTE] + more;
    assert Escape(s) + q == [BACKSLASH] + ([QUOTE] + more);
    MinifiedPlain(BACKSLASH, [QUOTE] + more);
    Same([BACKSLASH], Minified([QUOTE] + more), [QUOTE] + more);
    QuotedInStep(s[1..], t);
  }

  /** Inside a string out of step: up to the first quote every byte is looked at. */
  lemma {:induction false} ContentStays(s: bytes, t: bytes)
    ensures Stays(Escape(s) + ([QUOTE] + t), true) <==> Survives(s, false) && Stays(t, InStepAfter(s, false))
    decreases |s|
  {
    hide Minified;
    hide StringSpan;
    var q := [QUOTE] + t;
    if s == [] {
      assert Escape(s) + q == q;
      ClosingOpens(t);
    } else {
      Strings.EscapeOne(s);
      var more := Escape(s[1..]) + q;
      assert Escape(s) + q == EscapeByte(s[0]) + more;
      if s[0] == QUOTE {
        QuoteInside(s, t);
      } else if s[0] == SPACE || s[0] == SLASH {
        assert BeforeQuote(s)[0] == s[0];
        DroppedFirst(s[0], more);
      } else {
        ContentStays(s[1..], t);
        EscapedKept(s[0], more);
        Same(EscapeByte(s[0]), Minified(more), more);
        assert BeforeQuote(s) == [s[0]] + BeforeQuote(s[1..]);
      }
    }
  }

  lemma QuotedStays(s: bytes, t: bytes, inStep: bool)
    ensures Stays(Quoted(s) + t, inStep) <==> Survives(s, inStep) && Stays(t, InStepAfter(s, inStep))
  {
    if inStep {
      QuotedInStep(s, t);
    } else {
      ContentStays(s, t);
      hide Minified;
      hide Escape;
      var u := Escape(s) + ([QUOTE] + t);
      assert Quoted(s) + t == [QUOTE] + u;
      Parse.SpanQuote(u);
      assert ([QUOTE] + u)[1..] == u;
    }
  }

  // ----- unformatted texts -----

  /** A stretch of text stays as far as its strings survive, and leaves the minifier in step or not. */
  ghost predicate Passes(x: bytes, ss: seq<bytes>, t: bytes, inStep: bool) {
    Stays(x + t, inStep) <==> AllSurvive(ss, inStep) && Stays(t, InStepAfterAll(ss, inStep))
  }

  lemma PassesBare(x: bytes, t: bytes, inStep: bool)
    requires forall i :: 0 <= i < |x| ==> Bare(x[i])
    ensures Passes(x, [], t, inStep)
  {
    RunStays(x, t, inStep);
  }

  lemma PassesQuoted(s: bytes, t: bytes, inStep: bool)
    ensures Passes(Quoted(s), [s], t, inStep)
  {
    QuotedStays(s, t, inStep);
    assert [s][1..] == [];
  }

  /** Two stretches, one behind the other. */
  lemma PassesBoth(x: bytes, a: seq<bytes>, y: bytes, b: seq<bytes>, t: bytes, inStep: bool)
    requires Passes(x, a, y + t, inStep) && Passes(y, b, t, InStepAfterAll(a, inStep))
    ensures Passes(x + y, a + b, t, inStep)
  {
    hide Stays;
    Right3(x, y, t);
    Chain(a, b, inStep);
  }

  /** A stretch between a bare beginning and a bare end. */
  lemma Enclosed(open: bytes, x: bytes, close: bytes, ss: seq<bytes>, t: bytes, inStep: bool)
    requires (forall i :: 0 <= i < |open| ==> Bare(open[i])) && (forall i :: 0 <= i < |close| ==> Bare(close[i]))
    requires Passes(x, ss, close + t, inStep)
    ensures Passes(open + x + close, ss, t, inStep)
  {
    hide Bare;
    PassesBare(open, x + (close + t), inStep);
    PassesBare(close, t, InStepAfterAll(ss, inStep));
    hide Passes;
    assert InStepAfterAll([], inStep) == inStep;
    PassesBoth(x, ss, close, [], t, inStep);
    assert ss + [] == ss && [] + ss == ss;
    Right3(x, close, t);
    PassesBoth(open, [], x + close, ss, t, inStep);
    Right3(open, x, close);
  }

  lemma {:induction false} ElemsPass(es: seq<Json>, d: nat, t: bytes, inStep: bool)
    ensures Passes(ElemsText(es, false, d), ElemLiterals(es), t, inStep)
    decreases es, 1
  {
    hide Passes;
    hide Text;
    hide Literals;
    if es == [] {
      PassesBare([], t, inStep);
    } else {
      var first, rest := Text(es[0], false, d), ElemsText(es[1..], false, d);
      var comma: bytes := if |es| > 1 then [COMMA] else [];
      var next := InStepAfterAll(Literals(es[0]), inStep);
      assert ElemsText(es, false, d) == first + comma + rest;
      ElemsPass(es[1..], d, t, next);
      var rests := ElemLiterals(es[1..]);
      hide ElemsText;
      TextPasses(es[0], d, (comma + rest) + t, inStep);
      PassesBare(comma, rest + t, next);
      assert InStepAfterAll([], next) == next;
      PassesBoth(comma, [], rest, rests, t, next);
      assert [] + rests == rests;
      PassesBoth(first, Literals(es[0]), comma + rest, rests, t, inStep);
      Right3(first, comma, rest);
    }
  }

  lemma MemberTextIs(ms: seq<Member>, d: nat)
    requires ms != []
    ensures MembersText(ms, false, d)
         == Quoted(ms[0].key) + ([COLON] + (Text(ms[0].value, false, d)
            + ((if |ms| > 1 then [COMMA] else []) + MembersText(ms[1..], false, d))))
  {
    var k, v, rest := Quoted(ms[0].key), Text(ms[0].value, false, d), MembersText(ms[1..], false, d);
    var comma: bytes := if |ms| > 1 then [COMMA] else [];
    assert KeyText(ms[0].key, false, d) == k + [COLON] && MemberEnd(|ms| == 1, false) == comma;
    hide Quoted;
    hide Text;
    Right5(k, [COLON], v, comma, rest);
  }

  lemma {:induction false} MembersPass(ms: seq<Member>, d: nat, t: bytes, inStep: bool)
    ensures Passes(MembersText(ms, false, d), MemberLiterals(ms), t, inStep)
    decreases ms, 3
  {
    hide Passes;
    hide Text;
    hide Literals;
    if ms == [] {
      PassesBare([], t, inStep);
    } else {
      var m, rest, ss := ms[0], MembersText(ms[1..], false, d), Literals(ms[0].value);
      var comma: bytes := if |ms| > 1 then [COMMA] else [];
      var colon: bytes := [COLON];
      var next := InStepAfter(m.key, inStep);
      var last := InStepAfterAll(ss, next);
      MembersPass(ms[1..], d, t, last);
      var rests := MemberLiterals(ms[1..]);
      MemberTextIs(ms, d);
      hide MembersText;
      var value := Text(m.value, false, d);
      TextPasses(m.value, d, (comma + rest) + t, next);
      PassesBare(comma, rest + t, last);
      assert InStepAfterAll([], last) == last && InStepAfterAll([], next) == next
             && InStepAfterAll([m.key], inStep) == next;
      PassesBoth(comma, [], rest, rests, t, last);
      assert [] + rests == rests;
      PassesBoth(value, ss, comma + rest, rests, t, next);
      PassesBare(colon, (value + (comma + rest)) + t, next);
      PassesBoth(colon, [], value + (comma + rest), ss + rests, t, next);
      assert [] + (ss + rests) == ss + rests;
      PassesQuoted(m.key, (colon + (value + (comma + rest))) + t, inStep);
      PassesBoth(Quoted(m.key), [m.key], colon + (value + (comma + rest)), ss + rests, t, inStep);
    }
  }

  lemma {:induction false} TextPasses(v: Json, d: nat, t: bytes, inStep: bool)
    ensures Passes(Text(v, false, d), Literals(v), t, inStep)
    decreases v, 2
  {
    hide Passes;
    match v
    case String(s) =>
      PassesQuoted(s, t, inStep);
    case Array(es) =>
      ElemsPass(es, d + 1, [RBRACKET] + t, inStep);
      Enclosed([LBRACKET], ElemsText(es, false, d + 1), [RBRACKET], ElemLiterals(es), t, inStep);
    case Object(ms) =>
      MembersPass(ms, d + 1, [RBRACE] + t, inStep);
      Enclosed([LBRACE], MembersText(ms, false, d + 1), [RBRACE], MemberLiterals(ms), t, inStep);
      var x := [LBRACE] + MembersText(ms, false, d + 1);
      assert [LBRACE] + [] + MembersText(ms, false, d + 1) + [] + [RBRACE] == x + [RBRACE];
    case Number(x) =>
      RoundTrip.DigitsAreDigits(if x.Floor < 0 then -x.Floor else x.Floor);
      PassesBare(Decimal(x.Floor), t, inStep);
    case Null =>
      PassesBare(NULL_TEXT, t, inStep);
    case False =>
      PassesBare(FALSE_TEXT, t, inStep);
    case True =>
      PassesBare(TRUE_TEXT, t, inStep);
  }

  /**
   Minifying the unformatted text of a value changes nothing exactly when, from string to string in the
   order they are printed, none that the minifier meets out of step holds a space or a slash before its
   first quote.
   */
  lemma MinifiedUnformatted(v: Json)
    ensures Minified(Text(v, false, 0)) == Text(v, false, 0) <==> AllSurvive(Literals(v), true)
  {
    TextPasses(v, 0, [], true);
    assert Text(v, false, 0) + [] == Text(v, false, 0);
    assert StringSpan([]) == 0 && Minified([]) == [];
    assert Stays([], InStepAfterAll(Literals(v), true));
  }
}
