/** Minifying a text keeps the value it stands for. */
module JsonMinifyParse {
  import opened Bytes
  import opened JsonValue
  import opened JsonGrammar
  import opened JsonMinify
  import RoundTrip = JsonRoundTrip

  /** No string literal has an escaped backslash directly before its closing quote. */
  predicate Tidy(s: bytes)
    decreases |s|
  {
    if s == [] then true
    else if s[0] != QUOTE then Tidy(s[1..])
    else
      match CloseAt(s[1..])
      case None => true
      case Some(k) => (k == 0 || s[k] != BACKSLASH) && Tidy(s[k + 2..])
  }

  /** A byte that minifying keeps outside string literals. */
  predicate Kept(b: byte) {
    !IsSpace(b) && b != SLASH && b != QUOTE
  }

  lemma KeptOne(s: bytes)
    requires s != [] && Kept(s[0])
    ensures Minified(s) == [s[0]] + Minified(s[1..]) && Tidy(s) == Tidy(s[1..])
  {
  }

  lemma {:induction false} KeptRun(s: bytes, n: nat)
    requires n <= |s| && forall i :: 0 <= i < n ==> Kept(s[i])
    ensures Minified(s) == s[..n] + Minified(s[n..])
    ensures Tidy(s) == Tidy(s[n..])
    decreases n
  {
    hide Minified;
    hide Tidy;
    hide Kept;
    if n > 0 {
      var m := Minified(s[n..]);
      KeptOne(s);
      KeptRun(s[1..], n - 1);
      assert s[1..][n - 1..] == s[n..];
      assert s[..n] == [s[0]] + s[1..][..n - 1];
      Right3([s[0]], s[1..][..n - 1], m);
    } else {
      assert s[0..] == s;
    }
  }

  /** A text that begins with a byte to keep. */
  lemma MinifiedFront(s: bytes)
    requires s != [] && !IsSpace(s[0]) && s[0] != SLASH
    ensures Minified(s) != [] && Minified(s)[0] == s[0]
  {
  }

  /** Skipping space and minifying can be exchanged, except in front of a slash. */
  lemma {:induction false} SkipMinified(s: bytes)
    requires SkipWs(s) == [] || SkipWs(s)[0] != SLASH
    ensures SkipWs(Minified(s)) == Minified(SkipWs(s)) && Tidy(s) == Tidy(SkipWs(s))
  {
    if s == [] {
    } else if IsBlank(s[0]) {
      SkipMinified(s[1..]);
      if !IsSpace(s[0]) {
        assert ([s[0]] + Minified(s[1..]))[1..] == Minified(s[1..]);
      }
    } else {
      MinifiedFront(s);
    }
  }

  /** minify_string finds the quote the parser finds when no backslash stands before it. */
  lemma {:induction false} SameClose(x: bytes, k: nat)
    requires CloseAt(x) == Some(k) && (k == 0 || x[k - 1] != BACKSLASH)
    ensures StringSpan(x) == k + 1
    decreases |x|
  {
    if x[0] == QUOTE {
    } else if x[0] == BACKSLASH {
      SameClose(x[2..], k - 2);
      if x[1] != QUOTE {
        assert x[1..][1..] == x[2..];
      }
    } else {
      SameClose(x[1..], k - 1);
    }
  }

  lemma CloseWhere(x: bytes)
    requires x != [] && x[0] != QUOTE
    ensures var c := if x[0] == BACKSLASH then 2 else 1;
            CloseAt(x) == Later(c, CloseAt(From(x, c)))
  {
  }

  lemma CutFront(x: bytes, c: nat, n: nat, t: bytes)
    requires 0 < c <= n <= |x|
    ensures (x[..n] + t)[0] == x[0] && From(x[..n] + t, c) == From(x, c)[..n - c] + t
  {
  }

  /** Where the closing quote is depends on nothing behind it. */
  lemma {:induction false} CloseStays(x: bytes, k: nat, t: bytes)
    requires CloseAt(x) == Some(k)
    ensures CloseAt(x[..k + 1] + t) == Some(k)
    decreases |x|
  {
    if x[0] != QUOTE {
      CloseWhere(x);
      var c := if x[0] == BACKSLASH then 2 else 1;
      var y := x[..k + 1] + t;
      assert c <= k;
      hide CloseAt;
      CutFront(x, c, k + 1, t);
      CloseStays(From(x, c), k - c, t);
      CloseWhere(y);
    }
  }

  lemma TidyBehind(s: bytes, k: nat)
    requires s != [] && s[0] == QUOTE && CloseAt(s[1..]) == Some(k) && Tidy(s)
    ensures k + 2 <= |s| && (k == 0 || s[k] != BACKSLASH) && Tidy(s[k + 2..])
  {
    hide CloseAt;
  }

  lemma LiteralSpans(s: bytes, k: nat)
    requires s != [] && CloseAt(s[1..]) == Some(k) && k < |s| && (k == 0 || s[k] != BACKSLASH)
    ensures StringSpan(s[1..]) == k + 1
  {
    hide CloseAt;
    hide StringSpan;
    SameClose(s[1..], k);
  }

  lemma KeptLiteral(s: bytes, n: nat)
    requires s != [] && s[0] == QUOTE && n == 1 + StringSpan(s[1..])
    ensures n <= |s| && Minified(s) == s[..n] + Minified(s[n..])
  {
    hide StringSpan;
    hide Minified;
    MinifiedQuote(s);
  }

  lemma {:induction false} TidyString(s: bytes, k: nat)
    requires s != [] && s[0] == QUOTE && CloseAt(s[1..]) == Some(k) && Tidy(s)
    ensures k + 2 <= |s| && Tidy(s[k + 2..]) && Minified(s) == s[..k + 2] + Minified(s[k + 2..])
  {
    hide CloseAt;
    hide Tidy;
    hide StringSpan;
    hide Minified;
    TidyBehind(s, k);
    LiteralSpans(s, k);
    KeptLiteral(s, k + 2);
  }

  lemma SamePrefix(s: bytes, n: nat, t: bytes)
    requires 2 <= n <= |s|
    ensures var m := s[..n] + t;
            m[0] == s[0] && m[1..] == s[1..][..n - 1] + t && m[1..n - 1] == s[1..n - 1] && m[n..] == t
  {
  }

  lemma StringKept(s: bytes)
    requires ParseString(s).Done? && Tidy(s)
    ensures var p := ParseString(s);
            ParseString(Minified(s)) == Done(p.value, Minified(p.rest)) && Tidy(p.rest)
  {
    hide CloseAt;
    hide Unescape;
    hide Tidy;
    hide Minified;
    hide CString;
    var k := CloseAt(s[1..]).value;
    StringAt(s, k);
    hide ParseString;
    TidyString(s, k);
    var t := Minified(s[k + 2..]);
    CloseStays(s[1..], k, t);
    SamePrefix(s, k + 2, t);
    StringAt(s[..k + 2] + t, k);
  }

  /** What may stand behind a value inside an accepted text. */
  predicate Follows(r: bytes) {
    var u := SkipWs(r);
    u == [] || u[0] == COMMA || u[0] == RBRACKET || u[0] == RBRACE
  }

  lemma {:induction false} FollowsByte(r: bytes)
    requires Follows(r)
    ensures r != [] ==> !IsNumberChar(r[0])
    ensures Minified(r) != [] ==> !IsNumberChar(Minified(r)[0])
  {
    if r != [] && IsSpace(r[0]) {
      FollowsByte(r[1..]);
    }
  }

  lemma NumberIsKept(b: byte)
    requires IsNumberChar(b)
    ensures Kept(b)
  {
  }

  lemma RestFront(s: bytes, n: nat)
    requires n <= |s|
    ensures s[n..] != [] <==> n < |s|
    ensures n < |s| ==> s[n..][0] == s[n]
  {
  }

  lemma SpanIn(s: bytes, n: nat, t: bytes)
    requires n <= |s| && n <= 63 && (forall i :: 0 <= i < n ==> IsNumberChar(s[i])) && (t != [] ==> !IsNumberChar(t[0]))
    ensures var m := s[..n] + t; NumberSpan(m, 63) == n && m[..n] == s[..n] && m[n..] == t
  {
    hide IsNumberChar;
    var m := s[..n] + t;
    assert forall i :: 0 <= i < n ==> m[i] == s[i];
    SpanUnique(m, 63, n);
    hide NumberSpan;
  }

  /** In front of what follows a value, the number is the whole run of number characters. */
  lemma NumberSpans(s: bytes, t: bytes)
    requires ParseNumber(s).Done?
    requires var r := ParseNumber(s).rest; (r != [] ==> !IsNumberChar(r[0])) && (t != [] ==> !IsNumberChar(t[0]))
    ensures var n := |s| - |ParseNumber(s).rest|;
            n <= |s| && ParseNumber(s).rest == s[n..] && (forall i :: 0 <= i < n ==> Kept(s[i]))
            && ParseNumber(s[..n] + t) == Done(ParseNumber(s).value, t)
  {
    hide Strtod;
    hide IsNumberChar;
    hide Kept;
    hide NumberSpan;
    var span := NumberSpan(s, 63);
    var n := Strtod(s[..span]).0;
    RestFront(s, n);
    forall i | 0 <= i < n
      ensures Kept(s[i])
    {
      NumberIsKept(s[i]);
    }
    SpanIn(s, n, t);
  }

  lemma NumberKept(s: bytes)
    requires ParseNumber(s).Done? && Tidy(s) && Follows(ParseNumber(s).rest)
    ensures var p := ParseNumber(s);
            ParseNumber(Minified(s)) == Done(p.value, Minified(p.rest)) && Tidy(p.rest)
  {
    hide ParseNumber;
    hide Minified;
    hide Tidy;
    hide Follows;
    hide IsNumberChar;
    var r := ParseNumber(s).rest;
    FollowsByte(r);
    NumberSpans(s, Minified(r));
    KeptRun(s, |s| - |r|);
  }

  lemma LiteralKept(s: bytes, lit: bytes)
    requires StartsWith(s, lit) && lit in {NULL_TEXT, FALSE_TEXT, TRUE_TEXT} && Tidy(s)
    ensures Minified(s) == lit + Minified(s[|lit|..]) && Tidy(s[|lit|..])
  {
    hide Minified;
    hide Tidy;
    KeptRun(s, |lit|);
  }

  /** How a value begins. */
  lemma ValueStarts(s: bytes, d: nat)
    requires ParseValue(s, d).Done?
    ensures s != [] && !IsBlank(s[0]) && s[0] != SLASH && s[0] < 0x80
  {
    hide ParseArray;
    hide ParseObject;
    hide ParseString;
    hide ParseNumber;
  }

  lemma SkipTwice(s: bytes)
    ensures SkipWs(SkipWs(s)) == SkipWs(s)
  {
  }

  lemma ElemsStart(s: bytes, d: nat)
    requires ParseElems(s, d).Done?
    ensures var x := SkipWs(s); x != [] && !IsBlank(x[0]) && x[0] != SLASH
  {
    hide ParseValue;
    hide SkipWs;
    ValueStarts(SkipWs(s), d);
  }

  lemma {:induction false} ElemsKept(s: bytes, d: nat)
    requires ParseElems(s, d).Done? && Tidy(s)
    ensures var p := ParseElems(s, d);
            ParseElems(Minified(s), d) == Done(p.value, Minified(p.rest)) && Tidy(p.rest)
    decreases |s|, 2
  {
    hide Minified;
    hide Tidy;
    hide ParseElems;
    hide ParseValue;
    hide SkipWs;
    ElementIs(s, d);
    var x := SkipWs(s);
    ValueStarts(x, d);
    SkipMinified(s);
    var r := ParseValue(x, d).rest;
    var u := SkipWs(r);
    ValueKept(x, d);
    SkipMinified(r);
    ElementIs(Minified(s), d);
    KeptOne(u);
    assert Minified(u)[1..] == Minified(u[1..]);
    if u[0] == COMMA {
      ElemsKept(u[1..], d);
    }
  }

  lemma {:induction false} ArrayKept(s: bytes, d: nat)
    requires s != [] && s[0] == LBRACKET && ParseArray(s, d).Done? && Tidy(s)
    ensures var p := ParseArray(s, d);
            ParseArray(Minified(s), d) == Done(p.value, Minified(p.rest)) && Tidy(p.rest)
    decreases |s|, 0
  {
    hide Minified;
    hide Tidy;
    hide ParseElems;
    hide SkipWs;
    KeptOne(s);
    var t := SkipWs(s[1..]);
    assert Minified(s)[1..] == Minified(s[1..]);
    if t != [] && t[0] == RBRACKET {
      SkipMinified(s[1..]);
      KeptOne(t);
      assert Minified(t)[1..] == Minified(t[1..]);
    } else {
      ElemsStart(t, d + 1);
      SkipTwice(s[1..]);
      SkipMinified(s[1..]);
      ElemsKept(t, d + 1);
      MinifiedFront(t);
    }
  }

  lemma StringStarts(s: bytes)
    requires ParseString(s).Done?
    ensures s != [] && s[0] == QUOTE
  {
  }

  lemma MembersStart(s: bytes, d: nat)
    requires ParseMembers(s, d).Done?
    ensures var x := SkipWs(s); x != [] && x[0] == QUOTE
  {
    hide ParseValue;
    hide SkipWs;
    hide ParseString;
    MemberIs(s, d);
    MemberText(s, d);
    StringStarts(SkipWs(s));
  }

  lemma {:induction false} MemberKept(s: bytes, d: nat)
    requires ParseMember(s, d).Done? && Tidy(s) && Follows(ParseMember(s, d).rest)
    ensures var p := ParseMember(s, d);
            ParseMember(Minified(s), d) == Done(p.value, Minified(p.rest)) && Tidy(p.rest)
    decreases |s|, 2
  {
    hide Minified;
    hide Tidy;
    hide Follows;
    hide ParseMember;
    hide ParseString;
    hide ParseValue;
    hide SkipWs;
    MemberText(s, d);
    var x := SkipWs(s);
    StringStarts(x);
    SkipMinified(s);
    StringKept(x);
    var r := ParseString(x).rest;
    var u := SkipWs(r);
    SkipMinified(r);
    KeptOne(u);
    assert Minified(u)[1..] == Minified(u[1..]);
    var y := SkipWs(u[1..]);
    ValueStarts(y, d);
    SkipMinified(u[1..]);
    ValueKept(y, d);
    MemberText(Minified(s), d);
  }

  lemma {:induction false} MembersKept(s: bytes, d: nat)
    requires ParseMembers(s, d).Done? && Tidy(s)
    ensures var p := ParseMembers(s, d);
            ParseMembers(Minified(s), d) == Done(p.value, Minified(p.rest)) && Tidy(p.rest)
    decreases |s|, 3
  {
    hide Minified;
    hide Tidy;
    hide ParseMembers;
    hide ParseMember;
    hide SkipWs;
    MemberIs(s, d);
    var r := ParseMember(s, d).rest;
    var u := SkipWs(r);
    MemberKept(s, d);
    SkipMinified(r);
    MemberIs(Minified(s), d);
    KeptOne(u);
    assert Minified(u)[1..] == Minified(u[1..]);
    if u[0] == COMMA {
      MembersKept(u[1..], d);
    }
  }

  lemma {:induction false} ObjectKept(s: bytes, d: nat)
    requires s != [] && s[0] == LBRACE && ParseObject(s, d).Done? && Tidy(s)
    ensures var p := ParseObject(s, d);
            ParseObject(Minified(s), d) == Done(p.value, Minified(p.rest)) && Tidy(p.rest)
    decreases |s|, 0
  {
    hide Minified;
    hide Tidy;
    hide ParseMembers;
    hide SkipWs;
    KeptOne(s);
    var t := SkipWs(s[1..]);
    assert Minified(s)[1..] == Minified(s[1..]);
    if t != [] && t[0] == RBRACE {
      SkipMinified(s[1..]);
      KeptOne(t);
      assert Minified(t)[1..] == Minified(t[1..]);
    } else {
      MembersStart(t, d + 1);
      SkipTwice(s[1..]);
      SkipMinified(s[1..]);
      MembersKept(t, d + 1);
      MinifiedFront(t);
    }
  }

  /** A value of an accepted text is read from the minified text as well, up to what follows it. */
  lemma {:induction false} ValueKept(s: bytes, d: nat)
    requires ParseValue(s, d).Done? && Tidy(s) && Follows(ParseValue(s, d).rest)
    ensures var p := ParseValue(s, d);
            ParseValue(Minified(s), d) == Done(p.value, Minified(p.rest)) && Tidy(p.rest)
    decreases |s|, 1
  {
    ValueStarts(s, d);
    MinifiedFront(s);
    hide Minified;
    hide Tidy;
    hide Follows;
    if StartsWith(s, NULL_TEXT) {
      LiteralKept(s, NULL_TEXT);
      LiteralReads(NULL_TEXT, Minified(s[4..]), d);
    } else if StartsWith(s, FALSE_TEXT) {
      LiteralKept(s, FALSE_TEXT);
      LiteralReads(FALSE_TEXT, Minified(s[5..]), d);
    } else if StartsWith(s, TRUE_TEXT) {
      LiteralKept(s, TRUE_TEXT);
      LiteralReads(TRUE_TEXT, Minified(s[4..]), d);
    } else {
      OtherValue(s, d);
      if s[0] == QUOTE {
        StringKept(s);
      } else if s[0] == LBRACKET {
        ArrayKept(s, d);
      } else if s[0] == LBRACE {
        ObjectKept(s, d);
      } else {
        NumberKept(s);
      }
      OtherValue(Minified(s), d);
    }
  }

  // ----- the theorem -----

  lemma SkippedFront(s: bytes)
    ensures SkipWs(s) != [] ==> s != []
    ensures s != [] && !IsBlank(s[0]) ==> SkipWs(s) == s
    ensures SkipWs(s) != [] ==> !IsBlank(SkipWs(s)[0])
  {
  }

  /** A text without a byte order mark does not get one by minifying. */
  lemma {:induction false} BomKept(s: bytes)
    requires var x := SkipWs(SkipBom(s)); x != [] && x[0] < 0x80 && x[0] != SLASH
    ensures SkipWs(SkipBom(Minified(s))) == Minified(SkipWs(SkipBom(s)))
    ensures Tidy(s) ==> Tidy(SkipWs(SkipBom(s)))
  {
    hide Minified;
    hide Tidy;
    var t := SkipBom(s);
    var x := SkipWs(t);
    SkipMinified(t);
    SkippedFront(t);
    MinifiedFront(x);
    SkippedFront(Minified(t));
    hide SkipWs;
    if t != s {
      KeptRun(s, 3);
      assert (s[..3] + Minified(t))[3..] == Minified(t);
    } else if Minified(s) != [] {
      assert !IsBlank(Minified(s)[0]) ==> Minified(s)[0] < 0x80;
    }
  }

  lemma MinifiedNothing()
    ensures Minified([]) == []
  {
  }

  /**
   For every accepted text without an escaped backslash directly before a closing quote, the minified
   text is accepted too and stands for the same value.
   */
  lemma MinifiedParses(s: bytes)
    requires ParseText(s, true).Done? && Tidy(s)
    ensures ParseText(Minified(s), true) == ParseText(s, true)
  {
    hide Minified;
    hide Tidy;
    hide ParseValue;
    hide SkipBom;
    var x := SkipWs(SkipBom(s));
    ValueStarts(x, 0);
    BomKept(s);
    var r := ParseValue(x, 0).rest;
    ValueKept(x, 0);
    SkipMinified(r);
    MinifiedNothing();
  }

  lemma TwoElements(a: Json, b: Json)
    ensures DepthElems([a, b]) == (if Depth(a) > Depth(b) then Depth(a) else Depth(b))
    ensures PlainElems([a, b]) == (Plain(a) && Plain(b))
    ensures ElemsText([a, b], false, 1) == Text(a, false, 1) + [COMMA] + Text(b, false, 1)
  {
    hide Depth;
    hide Plain;
    hide Text;
    assert [a, b][1..] == [b];
    assert [b][1..] == [];
    assert DepthElems([b]) == Depth(b);
    assert PlainElems([b]) == Plain(b);
    assert ElemsText([b], false, 1) == Text(b, false, 1);
  }

  lemma BackslashText()
    ensures Quoted([BACKSLASH]) == [QUOTE] + [BACKSLASH, BACKSLASH] + [QUOTE]
  {
    assert Escape([BACKSLASH]) == [BACKSLASH, BACKSLASH] + Escape([]);
  }

  lemma PairPieces(t: bytes)
    ensures [LBRACKET] + (([QUOTE] + [BACKSLASH, BACKSLASH] + [QUOTE]) + [COMMA] + ([QUOTE] + t + [QUOTE])) + [RBRACKET]
         == [LBRACKET] + ([QUOTE, BACKSLASH, BACKSLASH, QUOTE, COMMA, QUOTE] + (t + [QUOTE, RBRACKET]))
  {
    var first := [QUOTE] + [BACKSLASH, BACKSLASH] + [QUOTE];
    var lit := first + [COMMA] + [QUOTE];
    assert lit == [QUOTE, BACKSLASH, BACKSLASH, QUOTE, COMMA, QUOTE];
    Right3([QUOTE], t, [QUOTE]);
    Right3(first + [COMMA], [QUOTE], t + [QUOTE]);
    Right3([LBRACKET], lit + (t + [QUOTE]), [RBRACKET]);
    Right3(lit, t + [QUOTE], [RBRACKET]);
    Right3(t, [QUOTE], [RBRACKET]);
    assert [QUOTE] + [RBRACKET] == [QUOTE, RBRACKET];
  }

  /** The text of an array of a backslash and a string without escapes. */
  lemma PairText(t: bytes)
    requires NulFree(t) && Escape(t) == t
    ensures var v := Array([String([BACKSLASH]), String(t)]);
            && Plain(v) && Depth(v) == 1
            && Text(v, false, 0)
              == [LBRACKET] + ([QUOTE, BACKSLASH, BACKSLASH, QUOTE, COMMA, QUOTE] + (t + [QUOTE, RBRACKET]))
  {
    hide Escape;
    hide ElemsText;
    hide DepthElems;
    hide PlainElems;
    BackslashText();
    TwoElements(String([BACKSLASH]), String(t));
    PairPieces(t);
  }

  lemma LastKept()
    ensures Minified([QUOTE, RBRACKET]) == [QUOTE, RBRACKET]
  {
    var last: bytes := [QUOTE, RBRACKET];
    assert last[1..] == [RBRACKET] && [RBRACKET][1..] == [];
    assert StringSpan([RBRACKET]) == 1;
    assert last[..2] + [] == last;
    assert last[2..] == [];
  }

  lemma SpanQuote(s: bytes)
    ensures StringSpan([QUOTE] + s) == 1
  {
  }

  lemma SpanEscapedQuote(s: bytes)
    ensures StringSpan([BACKSLASH, QUOTE] + s) == 2 + StringSpan(s)
  {
    assert ([BACKSLASH, QUOTE] + s)[2..] == s;
  }

  lemma LiteralSpan(tail: bytes)
    ensures StringSpan([QUOTE, BACKSLASH, BACKSLASH, QUOTE, COMMA, QUOTE][1..] + tail) == 5
  {
    hide StringSpan;
    var c := [QUOTE] + tail;
    var d := [COMMA] + c;
    SpanQuote(tail);
    SpanOne(COMMA, c);
    SpanEscapedQuote(d);
    SpanOne(BACKSLASH, [BACKSLASH, QUOTE] + d);
    assert [QUOTE, BACKSLASH, BACKSLASH, QUOTE, COMMA, QUOTE][1..] + tail == [BACKSLASH] + ([BACKSLASH, QUOTE] + d);
  }

  lemma MinifiedPair()
    ensures var lit := [QUOTE, BACKSLASH, BACKSLASH, QUOTE, COMMA, QUOTE];
            Minified([LBRACKET] + (lit + ([SPACE] + [QUOTE, RBRACKET])))
              == [LBRACKET] + (lit + ([] + [QUOTE, RBRACKET]))
  {
    var lit: bytes := [QUOTE, BACKSLASH, BACKSLASH, QUOTE, COMMA, QUOTE];
    var last: bytes := [QUOTE, RBRACKET];
    var tail := [SPACE] + last;
    LastKept();
    assert Minified(tail) == last by {
      assert tail[1..] == last;
    }
    LiteralSpan(tail);
    MinifiedString(lit, tail);
    hide Minified;
    MinifiedPlain(LBRACKET, lit + tail);
    assert [] + last == last;
  }

  /** With an escaped backslash before a closing quote the value can change: ["\\\\"," "] loses its space. */
  lemma MinifiedDiffers()
    ensures var v := Array([String([BACKSLASH]), String([SPACE])]);
            var w := Array([String([BACKSLASH]), String([])]);
            ParseText(Text(v, false, 0), true) == Done(v, [])
              && ParseText(Minified(Text(v, false, 0)), true) == Done(w, [])
  {
    var v, w := Array([String([BACKSLASH]), String([SPACE])]), Array([String([BACKSLASH]), String([])]);
    assert Escape([SPACE]) == [SPACE] + Escape([]);
    PairText([SPACE]);
    PairText([]);
    RoundTrip.PrintThenParse(v, false, true);
    RoundTrip.PrintThenParse(w, false, true);
    hide *;
    MinifiedPair();
  }

  lemma SpanOne(b: byte, s: bytes)
    requires b != QUOTE && (b != BACKSLASH || (s != [] && s[0] != QUOTE))
    ensures StringSpan([b] + s) == 1 + StringSpan(s)
  {
    assert ([b] + s)[1..] == s;
  }
}
