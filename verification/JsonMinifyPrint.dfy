/** Minifying undoes formatting. */
module JsonMinifyPrint {
  import opened Bytes
  import opened JsonValue
  import opened JsonMinify
  import Strings = JsonStrings
  import RoundTrip = JsonRoundTrip
  import Parse = JsonMinifyParse

  predicate EndsWell(s: bytes) {
    s == [] || s[|s| - 1] != BACKSLASH
  }

  /** No string and no key ends with a backslash. */
  predicate NoFinalBackslash(v: Json) {
    match v
    case String(s) => EndsWell(s)
    case Array(es) => forall i :: 0 <= i < |es| ==> NoFinalBackslash(es[i])
    case Object(ms) => forall i :: 0 <= i < |ms| ==> EndsWell(ms[i].key) && NoFinalBackslash(ms[i].value)
    case _ => true
  }

  lemma EscapeByteEnds(b: byte)
    ensures b != BACKSLASH ==> EndsWell(EscapeByte(b))
  {
  }

  lemma {:induction false} EscapeEnds(s: bytes)
    requires EndsWell(s)
    ensures EndsWell(Escape(s))
  {
    if s != [] {
      EscapeEnds(s[1..]);
      EscapeByteEnds(s[0]);
      assert |s| == 1 ==> Escape(s[1..]) == [];
      assert |s| > 1 ==> |Escape(s[1..])| > 0;
    }
  }

  lemma LastOf(e: bytes, rest: bytes)
    ensures |e| > 0 ==> (e + [QUOTE] + rest)[|e| - 1] == e[|e| - 1]
  {
  }

  lemma QuotedKept(s: bytes, rest: bytes)
    requires EndsWell(s)
    ensures Minified(Quoted(s) + rest) == Quoted(s) + Minified(rest)
  {
    hide Escape;
    hide StringSpan;
    hide Minified;
    var e := Escape(s);
    EscapeEnds(s);
    Strings.EscapeCloses(s, rest);
    LastOf(e, rest);
    Parse.SameClose(e + [QUOTE] + rest, |e|);
    assert Quoted(s)[1..] + rest == e + [QUOTE] + rest;
    MinifiedString(Quoted(s), rest);
  }

  lemma KeptAll(s: bytes, rest: bytes)
    requires forall i :: 0 <= i < |s| ==> Parse.Kept(s[i])
    ensures Minified(s + rest) == s + Minified(rest)
  {
    var t := s + rest;
    assert forall i :: 0 <= i < |s| ==> t[i] == s[i];
    Parse.KeptRun(t, |s|);
    assert t[..|s|] == s && t[|s|..] == rest;
  }

  lemma {:induction false} SpacesDropped(s: bytes, rest: bytes)
    requires forall i :: 0 <= i < |s| ==> IsSpace(s[i])
    ensures Minified(s + rest) == Minified(rest)
  {
    if s == [] {
      assert s + rest == rest;
    } else {
      SpacesDropped(s[1..], rest);
      assert (s + rest)[1..] == s[1..] + rest;
    }
  }

  // ----- the texts -----

  lemma ScalarKept(v: Json, d: nat, rest: bytes)
    requires NoFinalBackslash(v) && !v.Array? && !v.Object?
    ensures Minified(Text(v, true, d) + rest) == Text(v, false, d) + Minified(rest)
  {
    match v
    case String(s) =>
      QuotedKept(s, rest);
    case Number(x) =>
      RoundTrip.DigitsAreDigits(if x.Floor < 0 then -x.Floor else x.Floor);
      KeptAll(Decimal(x.Floor), rest);
    case Null =>
      KeptAll(NULL_TEXT, rest);
    case False =>
      KeptAll(FALSE_TEXT, rest);
    case True =>
      KeptAll(TRUE_TEXT, rest);
  }

  lemma {:induction false} ElemsKept(es: seq<Json>, d: nat, tail: bytes)
    requires forall i :: 0 <= i < |es| ==> NoFinalBackslash(es[i])
    ensures Minified(ElemsText(es, true, d) + tail) == ElemsText(es, false, d) + Minified(tail)
    decreases es, 1
  {
    hide Minified;
    hide Text;
    if es == [] {
      assert ElemsText(es, true, d) + tail == tail;
      assert ElemsText(es, false, d) + Minified(tail) == Minified(tail);
    } else {
      RoundTrip.ElemsCut(es, true, d, tail);
      RoundTrip.ElemsCut(es, false, d, Minified(tail));
      if |es| == 1 {
        TextKept(es[0], d, tail);
      } else {
        var more := ElemsText(es[1..], true, d) + tail;
        ElemsKept(es[1..], d, tail);
        hide ElemsText;
        TextKept(es[0], d, [COMMA] + ([SPACE] + more));
        MinifiedPlain(COMMA, [SPACE] + more);
        SpacesDropped([SPACE], more);
        assert [] + (ElemsText(es[1..], false, d) + Minified(tail)) == ElemsText(es[1..], false, d) + Minified(tail);
      }
    }
  }

  lemma {:induction false} ArrayKept(es: seq<Json>, d: nat, rest: bytes)
    requires forall i :: 0 <= i < |es| ==> NoFinalBackslash(es[i])
    ensures Minified(Text(Array(es), true, d) + rest) == Text(Array(es), false, d) + Minified(rest)
    decreases es, 2
  {
    hide Minified;
    RoundTrip.ArrayText(es, true, d, rest);
    RoundTrip.ArrayText(es, false, d, Minified(rest));
    hide Text;
    var tail := [RBRACKET] + rest;
    ElemsKept(es, d + 1, tail);
    MinifiedPlain(LBRACKET, ElemsText(es, true, d + 1) + tail);
    MinifiedPlain(RBRACKET, rest);
  }

  lemma MembersCut(ms: seq<Member>, fmt: bool, d: nat, tail: bytes)
    requires ms != []
    ensures MembersText(ms, fmt, d) + tail
         == KeyText(ms[0].key, fmt, d)
           + (Text(ms[0].value, fmt, d) + (MemberEnd(|ms| == 1, fmt) + (MembersText(ms[1..], fmt, d) + tail)))
  {
    var k, t, e, m := KeyText(ms[0].key, fmt, d), Text(ms[0].value, fmt, d), MemberEnd(|ms| == 1, fmt),
      MembersText(ms[1..], fmt, d);
    hide KeyText;
    hide Text;
    hide MemberEnd;
    Right5(k, t, e, m, tail);
  }

  lemma EndKept(last: bool, more: bytes)
    ensures Minified(MemberEnd(last, true) + more) == MemberEnd(last, false) + Minified(more)
  {
    hide Minified;
    SpacesDropped([NEWLINE], more);
    if last {
      assert MemberEnd(true, true) == [NEWLINE];
      assert MemberEnd(true, false) + Minified(more) == Minified(more);
    } else {
      MinifiedPlain(COMMA, [NEWLINE] + more);
      assert MemberEnd(false, true) + more == [COMMA] + ([NEWLINE] + more);
      assert MemberEnd(false, false) == [COMMA];
    }
  }

  lemma KeyKept(key: bytes, d: nat, more: bytes)
    requires EndsWell(key)
    ensures Minified(KeyText(key, true, d) + more) == KeyText(key, false, d) + Minified(more)
  {
    hide Minified;
    hide Quoted;
    var colon := [COLON] + ([TAB] + more);
    Right4(Tabs(d), Quoted(key), [COLON, TAB], more);
    assert [COLON, TAB] + more == colon;
    SpacesDropped(Tabs(d), Quoted(key) + colon);
    QuotedKept(key, colon);
    MinifiedPlain(COLON, [TAB] + more);
    SpacesDropped([TAB], more);
    Right4([], Quoted(key), [COLON], Minified(more));
    assert [] + (Quoted(key) + ([COLON] + Minified(more))) == Quoted(key) + ([COLON] + Minified(more));
  }

  lemma {:induction false} MemberKept(m: Member, last: bool, d: nat, more: bytes)
    requires EndsWell(m.key) && NoFinalBackslash(m.value)
    ensures Minified(KeyText(m.key, true, d) + (Text(m.value, true, d) + (MemberEnd(last, true) + more)))
         == KeyText(m.key, false, d) + (Text(m.value, false, d) + (MemberEnd(last, false) + Minified(more)))
    decreases m, 3
  {
    hide Minified;
    hide Text;
    hide Quoted;
    var end := MemberEnd(last, true) + more;
    var value := Text(m.value, true, d) + end;
    EndKept(last, more);
    TextKept(m.value, d, end);
    KeyKept(m.key, d, value);
  }

  lemma {:induction false} MembersKept(ms: seq<Member>, d: nat, tail: bytes)
    requires forall i :: 0 <= i < |ms| ==> EndsWell(ms[i].key) && NoFinalBackslash(ms[i].value)
    ensures Minified(MembersText(ms, true, d) + tail) == MembersText(ms, false, d) + Minified(tail)
    decreases ms, 1
  {
    hide Minified;
    hide Text;
    if ms == [] {
      assert MembersText(ms, true, d) + tail == tail;
      assert MembersText(ms, false, d) + Minified(tail) == Minified(tail);
    } else {
      MembersCut(ms, true, d, tail);
      MembersCut(ms, false, d, Minified(tail));
      MembersKept(ms[1..], d, tail);
      MemberKept(ms[0], |ms| == 1, d, MembersText(ms[1..], true, d) + tail);
    }
  }

  lemma {:induction false} ObjectKept(ms: seq<Member>, d: nat, rest: bytes)
    requires forall i :: 0 <= i < |ms| ==> EndsWell(ms[i].key) && NoFinalBackslash(ms[i].value)
    ensures Minified(Text(Object(ms), true, d) + rest) == Text(Object(ms), false, d) + Minified(rest)
    decreases ms, 2
  {
    hide Minified;
    hide MembersText;
    RoundTrip.ObjectText(ms, true, d, rest);
    RoundTrip.ObjectText(ms, false, d, Minified(rest));
    hide Text;
    var end := [RBRACE] + rest;
    var tail := Tabs(d) + end;
    var body := MembersText(ms, true, d + 1) + tail;
    MinifiedPlain(LBRACE, [NEWLINE] + body);
    SpacesDropped([NEWLINE], body);
    MembersKept(ms, d + 1, tail);
    SpacesDropped(Tabs(d), end);
    MinifiedPlain(RBRACE, rest);
    assert [] + ([RBRACE] + Minified(rest)) == [RBRACE] + Minified(rest);
    assert [] + (MembersText(ms, false, d + 1) + ([RBRACE] + Minified(rest)))
           == MembersText(ms, false, d + 1) + ([RBRACE] + Minified(rest));
  }

  lemma {:induction false} TextKept(v: Json, d: nat, rest: bytes)
    requires NoFinalBackslash(v)
    ensures Minified(Text(v, true, d) + rest) == Text(v, false, d) + Minified(rest)
    decreases v, 1
  {
    match v
    case Array(es) =>
      ArrayKept(es, d, rest);
    case Object(ms) =>
      ObjectKept(ms, d, rest);
    case _ =>
      ScalarKept(v, d, rest);
  }

  // ----- a final backslash -----

  /**
   Only the last string of the text ends with a backslash, if any does, and nothing but closing brackets
   of arrays follows it.
   */
  predicate Harmless(v: Json) {
    match v
    case String(_) => true
    case Array(es) => forall i :: 0 <= i < |es| ==> if i + 1 < |es| then NoFinalBackslash(es[i]) else Harmless(es[i])
    case _ => NoFinalBackslash(v)
  }

  lemma {:induction false} GoodIsHarmless(v: Json)
    requires NoFinalBackslash(v)
    ensures Harmless(v)
  {
    if v.Array? && v.elems != [] {
      GoodIsHarmless(v.elems[|v.elems| - 1]);
    }
  }

  /** What minifying copies behind a literal whose end it missed does not begin the text `t'`. */
  ghost predicate Breaks(t: bytes, t': bytes) {
    !(t[..StringSpan(t)] <= t')
  }

  lemma BreaksNow(b: byte, s: bytes, t': bytes)
    requires b != QUOTE && b != BACKSLASH && (t' == [] || t'[0] != b)
    ensures Breaks([b] + s, t')
  {
    hide StringSpan;
    Parse.SpanOne(b, s);
    var t := [b] + s;
    assert t[..StringSpan(t)][0] == b;
  }

  /** A common beginning makes no difference. */
  lemma Differ(x: bytes, a: bytes, b: bytes)
    requires a != b
    ensures x + a != x + b
  {
    assert (x + a)[|x|..] == a && (x + b)[|x|..] == b;
  }

  lemma BreaksLater(b: byte, t: bytes, t': bytes)
    requires b != QUOTE && b != BACKSLASH && Breaks(t, t')
    ensures Breaks([b] + t, [b] + t')
  {
    hide StringSpan;
    Parse.SpanOne(b, t);
    var n := StringSpan(t);
    assert ([b] + t)[..n + 1] == [b] + t[..n];
    if n <= |t'| {
      Differ([b], t[..n], t'[..n]);
      assert ([b] + t')[..n + 1] == [b] + t'[..n];
    }
  }

  lemma SpanFour(a: byte, b: byte, c: byte, d: byte, s: bytes)
    requires QUOTE !in [a, b, c, d] && BACKSLASH !in [a, b, c, d]
    ensures StringSpan([a, b, c, d] + s) == 4 + StringSpan(s)
  {
    hide StringSpan;
    assert a in [a, b, c, d] && b in [a, b, c, d] && c in [a, b, c, d] && d in [a, b, c, d];
    Parse.SpanOne(a, [b] + ([c] + ([d] + s)));
    Parse.SpanOne(b, [c] + ([d] + s));
    Parse.SpanOne(c, [d] + s);
    Parse.SpanOne(d, s);
    assert [a, b, c, d] + s == [a] + ([b] + ([c] + ([d] + s)));
  }

  /** The scan of one byte of a printed string, in front of anything but a quote. */
  lemma SpanEscapeByte(b: byte, s: bytes)
    requires s != [] && s[0] != QUOTE
    ensures StringSpan(EscapeByte(b) + s) == |EscapeByte(b)| + StringSpan(s)
  {
    hide StringSpan;
    if b > 31 && b != QUOTE && b != BACKSLASH {
      Parse.SpanOne(b, s);
    } else {
      var e := EscapeByte(b);
      var more := e[2..] + s;
      assert e + s == [BACKSLASH] + ([e[1]] + more) == [BACKSLASH, e[1]] + more;
      if e[1] == QUOTE {
        Parse.SpanEscapedQuote(more);
      } else {
        Parse.SpanOne(BACKSLASH, [e[1]] + more);
        Parse.SpanOne(e[1], more);
      }
      if |e| > 2 {
        SpanFour(ZERO, ZERO, HexDigit(b / 16), HexDigit(b % 16), s);
        assert e[2..] == [ZERO, ZERO, HexDigit(b / 16), HexDigit(b % 16)];
      } else {
        assert more == s;
      }
    }
  }

  /** Behind a string that ends with a backslash, minifying takes the closing quote for an escaped one. */
  lemma {:induction false} EndMissed(s: bytes, t: bytes)
    requires !EndsWell(s)
    ensures StringSpan(Escape(s) + ([QUOTE] + t)) == |Escape(s)| + 1 + StringSpan(t)
  {
    hide StringSpan;
    var q := [QUOTE] + t;
    Strings.EscapeOne(s);
    if |s| == 1 {
      assert s[1..] == [] && Escape(s[1..]) == [];
      assert Escape(s) + q == [BACKSLASH] + ([BACKSLASH, QUOTE] + t);
      Parse.SpanOne(BACKSLASH, [BACKSLASH, QUOTE] + t);
      Parse.SpanEscapedQuote(t);
    } else {
      EndMissed(s[1..], t);
      Strings.EscapeOne(s[1..]);
      var more := Escape(s[1..]) + q;
      assert more[0] == EscapeByte(s[1])[0];
      SpanEscapeByte(s[0], more);
      assert Escape(s) + q == EscapeByte(s[0]) + more;
    }
  }

  lemma MissedCopies(s: bytes, t: bytes)
    requires !EndsWell(s)
    ensures var n := StringSpan(t); Minified(Quoted(s) + t) == Quoted(s) + (t[..n] + Minified(t[n..]))
  {
    hide Minified;
    hide StringSpan;
    hide Escape;
    var e, n := Escape(s), StringSpan(t);
    EndMissed(s, t);
    var all := Quoted(s) + t;
    assert all[1..] == e + ([QUOTE] + t);
    MinifiedQuote(all);
    assert all[..|e| + 2 + n] == Quoted(s) + t[..n];
    assert all[|e| + 2 + n..] == t[n..];
    assert (Quoted(s) + t[..n]) + Minified(t[n..]) == Quoted(s) + (t[..n] + Minified(t[n..]));
  }

  lemma MissedSpoils(s: bytes, t: bytes, t': bytes)
    requires !EndsWell(s) && Breaks(t, t')
    ensures Minified(Quoted(s) + t) != Quoted(s) + t'
  {
    hide Minified;
    hide StringSpan;
    hide Quoted;
    MissedCopies(s, t);
    var n, q := StringSpan(t), Quoted(s);
    Differ(q, t[..n] + Minified(t[n..]), t');
  }

  lemma {:induction false} SpoiledElems(es: seq<Json>, d: nat, t: bytes, t': bytes)
    requires !NoFinalBackslash(Array(es)) && (Harmless(Array(es)) ==> Breaks(t, t'))
    ensures Minified(ElemsText(es, true, d) + t) != ElemsText(es, false, d) + t'
    decreases es, 2
  {
    hide Minified;
    hide Text;
    RoundTrip.ElemsCut(es, true, d, t);
    RoundTrip.ElemsCut(es, false, d, t');
    hide ElemsText;
    if |es| == 1 {
      Spoiled(es[0], d, t, t');
    } else {
      var more, more' := ElemsText(es[1..], true, d) + t, ElemsText(es[1..], false, d) + t';
      var next, next' := [COMMA] + ([SPACE] + more), [COMMA] + more';
      assert [] + more' == more';
      if NoFinalBackslash(es[0]) {
        SpoiledElems(es[1..], d, t, t');
        TextKept(es[0], d, next);
        MinifiedPlain(COMMA, [SPACE] + more);
        SpacesDropped([SPACE], more);
        Differ([COMMA], Minified(more), more');
        Differ(Text(es[0], false, d), Minified(next), next');
      } else {
        RoundTrip.ElemsBegin(es[1..], false, d, t');
        BreaksNow(SPACE, more, more');
        BreaksLater(COMMA, [SPACE] + more, more');
        Spoiled(es[0], d, next, next');
      }
    }
  }

  lemma EndBreaks(ms: seq<Member>, d: nat, t: bytes, t': bytes)
    requires ms != [] && t' != [] && t'[0] == RBRACE
    ensures Breaks(MemberEnd(|ms| == 1, true) + (MembersText(ms[1..], true, d) + t),
                   MemberEnd(|ms| == 1, false) + (MembersText(ms[1..], false, d) + t'))
  {
    hide Breaks;
    var more, more' := MembersText(ms[1..], true, d) + t, MembersText(ms[1..], false, d) + t';
    if |ms| == 1 {
      assert more' == t';
    } else {
      RoundTrip.MembersCut(ms[1..], false, d);
    }
    BreaksNow(NEWLINE, more, more');
    if |ms| == 1 {
      assert MemberEnd(true, false) + more' == more';
      assert MemberEnd(true, true) == [NEWLINE];
    } else {
      BreaksLater(COMMA, [NEWLINE] + more, more');
      assert MemberEnd(false, true) + more == [COMMA] + ([NEWLINE] + more);
      assert MemberEnd(false, false) == [COMMA];
    }
  }

  lemma SpoiledKey(key: bytes, d: nat, value: bytes, value': bytes)
    requires !EndsWell(key) && value' != [] && value'[0] > 32
    ensures Minified(KeyText(key, true, d) + value) != KeyText(key, false, d) + value'
  {
    hide Minified;
    hide Quoted;
    hide Breaks;
    var colon, colon' := [COLON] + ([TAB] + value), [COLON] + value';
    Right4(Tabs(d), Quoted(key), [COLON, TAB], value);
    assert [COLON, TAB] + value == colon;
    SpacesDropped(Tabs(d), Quoted(key) + colon);
    BreaksNow(TAB, value, value');
    BreaksLater(COLON, [TAB] + value, value');
    MissedSpoils(key, colon, colon');
    Right4([], Quoted(key), [COLON], value');
    assert [] + (Quoted(key) + colon') == Quoted(key) + colon';
  }

  lemma {:induction false} SpoiledMembers(ms: seq<Member>, d: nat, t: bytes, t': bytes)
    requires !NoFinalBackslash(Object(ms)) && t' != [] && t'[0] == RBRACE
    ensures Minified(MembersText(ms, true, d) + t) != MembersText(ms, false, d) + t'
    decreases ms, 3
  {
    hide Minified;
    hide Text;
    hide KeyText;
    MembersCut(ms, true, d, t);
    MembersCut(ms, false, d, t');
    var last, m := |ms| == 1, ms[0];
    var more, more' := MembersText(ms[1..], true, d) + t, MembersText(ms[1..], false, d) + t';
    var end, end' := MemberEnd(last, true) + more, MemberEnd(last, false) + more';
    var value, value' := Text(m.value, true, d) + end, Text(m.value, false, d) + end';
    if !EndsWell(m.key) {
      RoundTrip.TextBegins(m.value, false, d);
      SpoiledKey(m.key, d, value, value');
    } else if NoFinalBackslash(m.value) {
      SpoiledMembers(ms[1..], d, t, t');
      hide MembersText;
      MemberKept(m, last, d, more);
      Differ(MemberEnd(last, false), Minified(more), more');
      Differ(Text(m.value, false, d), MemberEnd(last, false) + Minified(more), end');
      Differ(KeyText(m.key, false, d), Text(m.value, false, d) + (MemberEnd(last, false) + Minified(more)), value');
    } else {
      EndBreaks(ms, d, t, t');
      hide MembersText;
      Spoiled(m.value, d, end, end');
      KeyKept(m.key, d, value);
      Differ(KeyText(m.key, false, d), Minified(value), value');
    }
  }

  lemma {:induction false} SpoiledObject(ms: seq<Member>, d: nat, t: bytes, t': bytes)
    requires !NoFinalBackslash(Object(ms))
    ensures Minified(Text(Object(ms), true, d) + t) != Text(Object(ms), false, d) + t'
    decreases ms, 4
  {
    hide Minified;
    hide MembersText;
    RoundTrip.ObjectText(ms, true, d, t);
    RoundTrip.ObjectText(ms, false, d, t');
    hide Text;
    var tail, tail' := Tabs(d) + ([RBRACE] + t), [RBRACE] + t';
    var body, body' := MembersText(ms, true, d + 1) + tail, MembersText(ms, false, d + 1) + tail';
    MinifiedPlain(LBRACE, [NEWLINE] + body);
    SpacesDropped([NEWLINE], body);
    SpoiledMembers(ms, d + 1, tail, tail');
    Differ([LBRACE], Minified(body), body');
    assert [] + tail' == tail';
    assert [] + body' == body';
  }

  /** A final backslash that is not harmless, or behind which the texts differ, changes the minified text. */
  lemma {:induction false} Spoiled(v: Json, d: nat, t: bytes, t': bytes)
    requires !NoFinalBackslash(v) && (Harmless(v) ==> Breaks(t, t'))
    ensures Minified(Text(v, true, d) + t) != Text(v, false, d) + t'
    decreases v, 1
  {
    hide Minified;
    match v
    case String(s) =>
      MissedSpoils(s, t, t');
    case Array(es) =>
      RoundTrip.ArrayText(es, true, d, t);
      RoundTrip.ArrayText(es, false, d, t');
      hide Text;
      hide ElemsText;
      if Harmless(v) {
        BreaksLater(RBRACKET, t, t');
      }
      var end, end' := [RBRACKET] + t, [RBRACKET] + t';
      SpoiledElems(es, d + 1, end, end');
      MinifiedPlain(LBRACKET, ElemsText(es, true, d + 1) + end);
      Differ([LBRACKET], Minified(ElemsText(es, true, d + 1) + end), ElemsText(es, false, d + 1) + end');
    case Object(ms) =>
      SpoiledObject(ms, d, t, t');
  }

  ghost predicate Brackets(t: bytes) {
    forall i :: 0 <= i < |t| ==> t[i] == RBRACKET
  }

  lemma {:induction false} BracketsSpan(t: bytes)
    requires Brackets(t)
    ensures StringSpan(t) == |t| && Minified(t) == t
  {
    if t != [] {
      BracketsSpan(t[1..]);
    }
  }

  lemma {:induction false} HarmlessElems(es: seq<Json>, d: nat, t: bytes)
    requires Harmless(Array(es)) && Brackets(t)
    ensures Minified(ElemsText(es, true, d) + t) == ElemsText(es, false, d) + t
    decreases es, 2
  {
    hide Minified;
    hide Text;
    if es == [] {
      BracketsSpan(t);
      assert ElemsText(es, true, d) + t == t && ElemsText(es, false, d) + t == t;
    } else {
      RoundTrip.ElemsCut(es, true, d, t);
      RoundTrip.ElemsCut(es, false, d, t);
      hide ElemsText;
      if |es| == 1 {
        HarmlessKept(es[0], d, t);
      } else {
        var more := ElemsText(es[1..], true, d) + t;
        HarmlessElems(es[1..], d, t);
        TextKept(es[0], d, [COMMA] + ([SPACE] + more));
        MinifiedPlain(COMMA, [SPACE] + more);
        SpacesDropped([SPACE], more);
        assert [] + (ElemsText(es[1..], false, d) + t) == ElemsText(es[1..], false, d) + t;
      }
    }
  }

  lemma {:induction false} HarmlessKept(v: Json, d: nat, t: bytes)
    requires Harmless(v) && Brackets(t)
    ensures Minified(Text(v, true, d) + t) == Text(v, false, d) + t
    decreases v, 1
  {
    hide Minified;
    BracketsSpan(t);
    if v.Array? {
      var es, end := v.elems, [RBRACKET] + t;
      RoundTrip.ArrayText(es, true, d, t);
      RoundTrip.ArrayText(es, false, d, t);
      hide Text;
      HarmlessElems(es, d + 1, end);
      MinifiedPlain(LBRACKET, ElemsText(es, true, d + 1) + end);
    } else if v.String? && !EndsWell(v.s) {
      MissedCopies(v.s, t);
      assert t[..|t|] == t && t[|t|..] == [];
      Parse.MinifiedNothing();
    } else {
      TextKept(v, d, t);
    }
  }

  /**
   Minifying the formatted text of a value gives its unformatted text exactly when no string ends with a
   backslash but the last one, and that one with no space behind it.
   */
  lemma MinifiedFormatted(v: Json)
    ensures Minified(Text(v, true, 0)) == Text(v, false, 0) <==> Harmless(v)
  {
    hide Text;
    hide Minified;
    assert Text(v, true, 0) + [] == Text(v, true, 0) && Text(v, false, 0) + [] == Text(v, false, 0);
    if Harmless(v) {
      HarmlessKept(v, 0, []);
    } else {
      if NoFinalBackslash(v) {
        GoodIsHarmless(v);
      }
      Spoiled(v, 0, [], []);
    }
  }
}
