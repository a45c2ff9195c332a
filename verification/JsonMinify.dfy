/** cJSON_Minify: comments and space removed in place, string literals kept. */
module JsonMinify {
  import opened Bytes
  import opened JsonValue

  predicate IsSpace(b: byte) {
    b == SPACE || b == TAB || b == RETURN || b == NEWLINE
  }

  /** What is left behind a one-line comment. */
  function LineRest(s: bytes): (r: bytes)
    ensures |r| <= |s|
  {
    if s == [] then [] else if s[0] == NEWLINE then s[1..] else LineRest(s[1..])
  }

  /** What is left behind a comment in the form of C. */
  function BlockRest(s: bytes): (r: bytes)
    ensures |r| <= |s|
  {
    if s == [] then []
    else if s[0] == STAR && |s| > 1 && s[1] == SLASH then s[2..]
    else BlockRest(s[1..])
  }

  /** How many bytes minify_string copies behind the opening quote. */
  function StringSpan(s: bytes): (n: nat)
    ensures n <= |s|
  {
    if s == [] then 0
    else if s[0] == QUOTE then 1
    else if s[0] == BACKSLASH && |s| > 1 && s[1] == QUOTE then 2 + StringSpan(s[2..])
    else 1 + StringSpan(s[1..])
  }

  /** The minified text. */
  function Minified(s: bytes): (m: bytes)
    ensures |m| <= |s|
    decreases |s|
  {
    if s == [] then []
    else if IsSpace(s[0]) then Minified(s[1..])
    else if s[0] == SLASH then
      if |s| > 1 && s[1] == SLASH then Minified(LineRest(s[2..]))
      else if |s| > 1 && s[1] == STAR then Minified(BlockRest(s[2..]))
      else Minified(s[1..])
    else if s[0] == QUOTE then
      var n := 1 + StringSpan(s[1..]);
      s[..n] + Minified(s[n..])
    else [s[0]] + Minified(s[1..])
  }

  // ----- minifying twice -----

  /** Whether the literal behind an opening quote ends before the text does. */
  predicate Closed(s: bytes) {
    && s != []
    && (s[0] == QUOTE || Closed(if s[0] == BACKSLASH && |s| > 1 && s[1] == QUOTE then s[2..] else s[1..]))
  }

  /** A literal reads the same whatever stands behind it. */
  lemma {:induction false} SpanStays(s: bytes, t: bytes)
    ensures var n := StringSpan(s);
            if Closed(s) then n > 0 && StringSpan(s[..n] + t) == n else n == |s|
  {
    if s == [] || s[0] == QUOTE {
    } else if s[0] == BACKSLASH && |s| > 1 && s[1] == QUOTE {
      SpanStays(s[2..], t);
      if Closed(s) {
        assert (s[..StringSpan(s)] + t)[2..] == s[2..][..StringSpan(s[2..])] + t;
      }
    } else {
      SpanStays(s[1..], t);
      if Closed(s) {
        assert (s[..StringSpan(s)] + t)[1..] == s[1..][..StringSpan(s[1..])] + t;
      }
    }
  }

  lemma {:induction false} MinifiedPlain(b: byte, s: bytes)
    requires !IsSpace(b) && b != SLASH && b != QUOTE
    ensures Minified([b] + s) == [b] + Minified(s)
  {
    assert ([b] + s)[1..] == s;
  }

  lemma {:induction false} MinifiedQuote(s: bytes)
    requires s != [] && s[0] == QUOTE
    ensures var n := 1 + StringSpan(s[1..]);
            Minified(s) == s[..n] + Minified(s[n..])
  {
    hide StringSpan;
    hide LineRest;
    hide BlockRest;
  }

  lemma {:induction false} MinifiedString(s: bytes, t: bytes)
    requires s != [] && s[0] == QUOTE && |s| == 1 + StringSpan(s[1..] + t)
    ensures Minified(s + t) == s + Minified(t)
  {
    hide StringSpan;
    hide Minified;
    assert (s + t)[1..] == s[1..] + t;
    MinifiedQuote(s + t);
  }

  lemma {:induction false} IdempotentString(s: bytes)
    requires s != [] && s[0] == QUOTE
    ensures Minified(Minified(s)) == Minified(s)
    decreases |s|, 0
  {
    var n := 1 + StringSpan(s[1..]);
    var m := Minified(s[n..]);
    SpanStays(s[1..], m);
    if Closed(s[1..]) {
      assert s[1..][..n - 1] == s[..n][1..];
      MinifiedString(s[..n], m);
      Idempotent(s[n..]);
    } else {
      assert s[..n] + [] == s;
      assert s[n..] == [];
    }
  }

  /** Minifying a minified text changes nothing. */
  lemma {:induction false} Idempotent(s: bytes)
    ensures Minified(Minified(s)) == Minified(s)
    decreases |s|
  {
    if s == [] {
    } else if IsSpace(s[0]) {
      Idempotent(s[1..]);
    } else if s[0] == SLASH {
      if |s| > 1 && s[1] == SLASH {
        Idempotent(LineRest(s[2..]));
      } else if |s| > 1 && s[1] == STAR {
        Idempotent(BlockRest(s[2..]));
      } else {
        Idempotent(s[1..]);
      }
    } else if s[0] == QUOTE {
      IdempotentString(s);
    } else {
      Idempotent(s[1..]);
      MinifiedPlain(s[0], Minified(s[1..]));
    }
  }

  // ----- in place -----

  /** The text from `json` on is as it was, with its terminator, and `n` long in all. */
  ghost predicate Unread(a: array<byte>, text: bytes, json: nat)
    reads a
  {
    && json <= |text| < a.Length && NulFree(text)
    && a[json..|text|] == text[json..] && a[|text|] == 0
  }

  lemma UnreadAt(a: array<byte>, text: bytes, json: nat)
    requires Unread(a, text, json)
    ensures a[json] == 0 <==> json == |text|
    ensures json < |text| ==> a[json] == text[json] && Unread(a, text, json + 1)
  {
    if json < |text| {
      assert a[json] == a[json..|text|][0];
      assert a[json + 1..|text|] == a[json..|text|][1..];
    }
  }

  /** skip_oneline_comment. */
  method SkipOnelineComment(a: array<byte>, json: nat, ghost text: bytes) returns (json': nat)
    requires Unread(a, text, json) && json + 2 <= |text|
    ensures json <= json' && Unread(a, text, json') && text[json'..] == LineRest(text[json + 2..])
  {
    UnreadAt(a, text, json);
    hide Unread;
    UnreadAt(a, text, json + 1);
    json' := json + 2;
    ghost var want := LineRest(text[json'..]);
    while a[json'] != 0
      invariant json <= json' <= |text| < a.Length && Unread(a, text, json') && LineRest(text[json'..]) == want
      decreases |text| - json'
    {
      UnreadAt(a, text, json');
      assert text[json'..][1..] == text[json' + 1..];
      if a[json'] == NEWLINE {
        json' := json' + 1;
        return;
      }
      json' := json' + 1;
    }
    UnreadAt(a, text, json');
  }

  /** skip_multiline_comment. The byte after the last is the terminator, which is no slash. */
  method SkipMultilineComment(a: array<byte>, json: nat, ghost text: bytes) returns (json': nat)
    requires Unread(a, text, json) && json + 2 <= |text|
    ensures json <= json' && Unread(a, text, json') && text[json'..] == BlockRest(text[json + 2..])
  {
    UnreadAt(a, text, json);
    hide Unread;
    UnreadAt(a, text, json + 1);
    json' := json + 2;
    ghost var want := BlockRest(text[json'..]);
    while a[json'] != 0
      invariant json <= json' <= |text| < a.Length && Unread(a, text, json') && BlockRest(text[json'..]) == want
      decreases |text| - json'
    {
      UnreadAt(a, text, json');
      UnreadAt(a, text, json' + 1);
      assert text[json'..][1..] == text[json' + 1..];
      assert json' + 2 <= |text| ==> text[json'..][2..] == text[json' + 2..];
      if a[json'] == STAR && a[json' + 1] == SLASH {
        json' := json' + 2;
        return;
      }
      json' := json' + 1;
    }
    UnreadAt(a, text, json');
  }

  /** The written part, the part still to be read, which the first never overtakes, and what lies behind. */
  ghost predicate InPlace(a: array<byte>, text: bytes, json: nat, into: nat, done: bytes, rest: bytes)
    reads a
  {
    into <= json && Unread(a, text, json) && a[..into] == done && a[|text| + 1..] == rest
  }

  /** The byte to be read and the one behind it. */
  lemma ReadAt(a: array<byte>, text: bytes, json: nat, into: nat, done: bytes, rest: bytes)
    requires InPlace(a, text, json, into, done, rest)
    ensures json <= |text| < a.Length && (a[json] == 0 <==> json == |text|)
    ensures json < |text| ==> a[json] == text[json] && (a[json + 1] == if json + 1 < |text| then text[json + 1] else 0)
  {
    UnreadAt(a, text, json);
    if json < |text| {
      UnreadAt(a, text, json + 1);
    }
  }

  /** One byte is copied down. */
  method Copy(a: array<byte>, json: nat, into: nat, ghost text: bytes, ghost done: bytes, ghost rest: bytes)
    requires InPlace(a, text, json, into, done, rest) && json < |text|
    modifies a
    ensures InPlace(a, text, json + 1, into + 1, done + [text[json]], rest)
  {
    UnreadAt(a, text, json);
    a[into] := a[json];
    assert a[..into + 1] == a[..into] + [a[into]];
  }

  /** What is written when the text from `from` to `to` follows `done`. */
  ghost function Sofar(done: bytes, text: bytes, from: nat, to: nat): bytes
    requires from <= to <= |text|
  {
    done + text[from..to]
  }

  ghost function SpanAt(text: bytes, p: nat): nat
    requires p <= |text|
  {
    StringSpan(text[p..])
  }

  lemma CopyMore(done: bytes, text: bytes, from: nat, to: nat)
    requires from <= to < |text|
    ensures Sofar(done, text, from, to) + [text[to]] == Sofar(done, text, from, to + 1)
  {
    assert text[from..to] + [text[to]] == text[from..to + 1];
  }

  lemma SpanStep(text: bytes, p: nat)
    requires p <= |text|
    ensures p == |text| ==> SpanAt(text, p) == 0
    ensures p < |text| && text[p] == QUOTE ==> SpanAt(text, p) == 1
    ensures p < |text| && text[p] != QUOTE ==>
              var k := if text[p] == BACKSLASH && p + 1 < |text| && text[p + 1] == QUOTE then 2 else 1;
              SpanAt(text, p) == k + SpanAt(text, p + k)
  {
    if p < |text| {
      assert text[p..][1..] == text[p + 1..];
      if p + 1 < |text| {
        assert text[p..][2..] == text[p + 2..];
      }
    }
  }

  /** The next byte of a stretch is copied down. */
  method CopyNext(a: array<byte>, json: nat, into: nat, ghost text: bytes, ghost done: bytes, ghost from: nat,
                  ghost rest: bytes)
    requires from <= json < |text| && InPlace(a, text, json, into, Sofar(done, text, from, json), rest)
    modifies a
    ensures InPlace(a, text, json + 1, into + 1, Sofar(done, text, from, json + 1), rest)
  {
    CopyMore(done, text, from, json);
    Copy(a, json, into, text, Sofar(done, text, from, json), rest);
  }

  /** One round of the loop of minify_string: a byte, or an escaped quote. */
  method CopyUnit(a: array<byte>, json: nat, into: nat, ghost text: bytes, ghost done: bytes, ghost from: nat,
                  ghost rest: bytes)
    returns (json': nat, into': nat, closed: bool)
    requires from <= json < |text| && InPlace(a, text, json, into, Sofar(done, text, from, json), rest)
    modifies a
    ensures json < json' <= |text| && InPlace(a, text, json', into', Sofar(done, text, from, json'), rest)
    ensures json' + (if closed then 0 else SpanAt(text, json')) == json + SpanAt(text, json)
  {
    ReadAt(a, text, json, into, Sofar(done, text, from, json), rest);
    SpanStep(text, json);
    hide InPlace;
    hide Sofar;
    hide SpanAt;
    var b, c := a[json], a[json + 1];
    CopyNext(a, json, into, text, done, from, rest);
    json', into', closed := json + 1, into + 1, b == QUOTE;
    if b == BACKSLASH && c == QUOTE {
      CopyNext(a, json', into', text, done, from, rest);
      json', into' := json' + 1, into' + 1;
    }
  }

  lemma SofarIs(done: bytes, text: bytes, from: nat, to: nat)
    requires from < to <= |text|
    ensures Sofar(done, text, from, to) == done + text[from..to]
    ensures SpanAt(text, from + 1) == StringSpan(text[from + 1..])
  {
  }

  /** minify_string, from the opening quote on. */
  method MinifyString(a: array<byte>, json: nat, into: nat, ghost text: bytes, ghost done: bytes, ghost rest: bytes)
    returns (json': nat, into': nat)
    requires InPlace(a, text, json, into, done, rest) && json < |text| && text[json] == QUOTE
    modifies a
    ensures json' == json + 1 + StringSpan(text[json + 1..])
    ensures InPlace(a, text, json', into', done + text[json..json'], rest)
  {
    ghost var end := json + 1 + SpanAt(text, json + 1);
    assert Sofar(done, text, json, json) == done;
    hide InPlace;
    hide Sofar;
    hide SpanAt;
    CopyNext(a, json, into, text, done, json, rest);
    json', into' := json + 1, into + 1;
    ReadAt(a, text, json', into', Sofar(done, text, json, json'), rest);
    var closed := false;
    while !closed && a[json'] != 0
      invariant json < json' <= |text| < a.Length && (a[json'] == 0 <==> json' == |text|)
      invariant json' + (if closed then 0 else SpanAt(text, json')) == end
      invariant InPlace(a, text, json', into', Sofar(done, text, json, json'), rest)
      decreases |text| - json'
    {
      json', into', closed := CopyUnit(a, json', into', text, done, json, rest);
      ReadAt(a, text, json', into', Sofar(done, text, json, json'), rest);
    }
    SpanStep(text, json');
    SofarIs(done, text, json, json');
  }

  /** What the rest of the text at `p` minifies to, one token at a time. */
  lemma MinifiedStep(text: bytes, p: nat)
    requires p <= |text|
    ensures p == |text| ==> Minified(text[p..]) == []
    ensures p < |text|
            && (IsSpace(text[p]) || (text[p] == SLASH && !(p + 1 < |text| && text[p + 1] in {SLASH, STAR}))) ==>
              Minified(text[p..]) == Minified(text[p + 1..])
    ensures p + 1 < |text| && text[p] == SLASH && text[p + 1] == SLASH ==>
              Minified(text[p..]) == Minified(LineRest(text[p + 2..]))
    ensures p + 1 < |text| && text[p] == SLASH && text[p + 1] == STAR ==>
              Minified(text[p..]) == Minified(BlockRest(text[p + 2..]))
    ensures p < |text| && !IsSpace(text[p]) && text[p] != SLASH && text[p] != QUOTE ==>
              Minified(text[p..]) == [text[p]] + Minified(text[p + 1..])
  {
    if p < |text| {
      assert text[p..][1..] == text[p + 1..];
      if p + 1 < |text| {
        assert text[p..][2..] == text[p + 2..];
      }
    }
  }

  lemma MinifiedStringStep(text: bytes, p: nat)
    requires p < |text| && text[p] == QUOTE
    ensures var q := p + 1 + StringSpan(text[p + 1..]);
            q <= |text| && Minified(text[p..]) == text[p..q] + Minified(text[q..])
  {
    hide StringSpan;
    hide Minified;
    var n := 1 + StringSpan(text[p + 1..]);
    assert text[p..][1..] == text[p + 1..];
    MinifiedQuote(text[p..]);
    assert text[p..][..n] == text[p..p + n];
    assert text[p..][n..] == text[p + n..];
  }

  /** cJSON_Minify: the text in the array becomes the minified text; what lies behind it is not touched. */
  method Minify(a: array<byte>, ghost text: bytes)
    requires NulFree(text) && |text| < a.Length && a[..|text|] == text && a[|text|] == 0
    modifies a
    ensures a[..|Minified(text)|] == Minified(text) && a[|Minified(text)|] == 0
    ensures a[|text| + 1..] == old(a[|text| + 1..])
  {
    hide Minified;
    var json, into: nat := 0, 0;
    ghost var done: bytes, rest := [], a[|text| + 1..];
    ghost var all := Minified(text);
    assert text[0..] == text;
    assert [] + all == all;
    while a[json] != 0
      invariant json <= |text| < a.Length && InPlace(a, text, json, into, done, rest)
      invariant done + Minified(text[json..]) == all
      decreases |text| - json
    {
      UnreadAt(a, text, json);
      UnreadAt(a, text, json + 1);
      MinifiedStep(text, json);
      var b, c := a[json], a[json + 1];
      if b == SPACE || b == TAB || b == RETURN || b == NEWLINE {
        json := json + 1;
      } else if b == SLASH {
        if c == SLASH {
          json := SkipOnelineComment(a, json, text);
        } else if c == STAR {
          json := SkipMultilineComment(a, json, text);
        } else {
          json := json + 1;
        }
      } else if b == QUOTE {
        MinifiedStringStep(text, json);
        ghost var from := json;
        json, into := MinifyString(a, json, into, text, done, rest);
        Right3(done, text[from..json], Minified(text[json..]));
        done := done + text[from..json];
      } else {
        Copy(a, json, into, text, done, rest);
        Right3(done, [text[json]], Minified(text[json + 1..]));
        done := done + [text[json]];
        json, into := json + 1, into + 1;
      }
    }
    UnreadAt(a, text, json);
    MinifiedStep(text, json);
    assert done + [] == done;
    a[into] := 0;
  }
}
