/**
 What the minifier keeps of any text, well-formed or not: the text is cut into pieces, written with the bytes
 themselves, and each piece is kept or dropped as a whole.
 */
module JsonMinifyPieces {
  import opened Bytes
  import opened JsonMinify

  /**
   A space, a comment up to the end of its line or of the text, a comment up to its closing mark or to the end
   of the text, a slash that begins no comment, a string with its closing quote or without, any other byte.
   */
  datatype Piece =
    | Space(b: byte)
    | Line(x: bytes)
    | LastLine(x: bytes)
    | Block(x: bytes)
    | OpenBlock(x: bytes)
    | Slash
    | Str(x: bytes)
    | OpenStr(x: bytes)
    | Other(b: byte)

  function PieceText(p: Piece): bytes {
    match p
    case Space(b) => [b]
    case Line(x) => [0x2f, 0x2f] + x + [0x0a]
    case LastLine(x) => [0x2f, 0x2f] + x
    case Block(x) => [0x2f, 0x2a] + x + [0x2a, 0x2f]
    case OpenBlock(x) => [0x2f, 0x2a] + x
    case Slash => [0x2f]
    case Str(x) => [0x22] + x + [0x22]
    case OpenStr(x) => [0x22] + x
    case Other(b) => [b]
  }

  /** Strings are kept, and so are bytes that are no space and begin no comment. */
  function Kept(p: Piece): bytes {
    if p.Str? || p.OpenStr? || p.Other? then PieceText(p) else []
  }

  /** No closing mark stands in `x`. */
  predicate Unclosed(x: bytes) {
    forall i :: 0 <= i && i + 1 < |x| ==> x[i] != 0x2a || x[i + 1] != 0x2f
  }

  /** Every quote in `x` stands behind a backslash; with `last` a backslash must not come last. */
  predicate Inside(x: bytes, last: bool)
    decreases |x|
  {
    || x == []
    || (|x| >= 2 && x[0] == 0x5c && x[1] == 0x22 && Inside(x[2..], last))
    || (&& x[0] != 0x22 && !(|x| >= 2 && x[0] == 0x5c && x[1] == 0x22)
        && (last && x[0] == 0x5c ==> |x| >= 2) && Inside(x[1..], last))
  }

  /** Which pieces there are in front of a text `t`. */
  predicate Fits(p: Piece, t: bytes) {
    match p
    case Space(b) => b in {0x20, 0x09, 0x0d, 0x0a}
    case Line(x) => 0x0a !in x
    case LastLine(x) => 0x0a !in x && t == []
    case Block(x) => Unclosed(x)
    case OpenBlock(x) => Unclosed(x) && t == []
    case Slash => t == [] || (t[0] != 0x2f && t[0] != 0x2a)
    case Str(x) => Inside(x, true)
    case OpenStr(x) => Inside(x, false) && t == []
    case Other(b) => b !in {0x20, 0x09, 0x0d, 0x0a, 0x2f, 0x22}
  }

  // ----- one piece -----

  lemma {:induction false} LineEnds(x: bytes, t: bytes)
    requires 0x0a !in x
    ensures LineRest(x + ([0x0a] + t)) == t && LineRest(x) == []
  {
    if x == [] {
      assert x + ([0x0a] + t) == [0x0a] + t;
    } else {
      assert (x + ([0x0a] + t))[1..] == x[1..] + ([0x0a] + t);
      LineEnds(x[1..], t);
    }
  }

  lemma {:induction false} BlockEnds(x: bytes, t: bytes)
    requires Unclosed(x)
    ensures BlockRest(x + ([0x2a, 0x2f] + t)) == t && BlockRest(x) == []
  {
    var s := x + ([0x2a, 0x2f] + t);
    if x == [] {
      assert s == [0x2a, 0x2f] + t;
    } else {
      assert s[1..] == x[1..] + ([0x2a, 0x2f] + t);
      assert |x| > 1 ==> s[1] == x[1] == x[0 + 1];
      BlockEnds(x[1..], t);
    }
  }

  lemma {:induction false} StringEnds(x: bytes, t: bytes)
    ensures Inside(x, true) ==> StringSpan(x + ([0x22] + t)) == |x| + 1
    ensures Inside(x, false) ==> StringSpan(x) == |x|
    decreases |x|
  {
    var s := x + ([0x22] + t);
    if x == [] {
      assert s == [0x22] + t;
    } else {
      assert s[1..] == x[1..] + ([0x22] + t);
      StringEnds(x[1..], t);
      if |x| >= 2 {
        assert s[2..] == x[2..] + ([0x22] + t) && s[1] == x[1];
        StringEnds(x[2..], t);
      }
    }
  }

  lemma Dropped(p: Piece, t: bytes)
    requires Fits(p, t) && (p.Space? || p.Slash?)
    ensures Minified(PieceText(p) + t) == Minified(t)
  {
    var s := PieceText(p) + t;
    assert s[1..] == t;
  }

  lemma LineDropped(x: bytes, t: bytes)
    requires 0x0a !in x
    ensures Minified([0x2f, 0x2f] + x + [0x0a] + t) == Minified(t) && Minified([0x2f, 0x2f] + x) == []
  {
    LineEnds(x, t);
    var s, r := [0x2f, 0x2f] + x + [0x0a] + t, [0x2f, 0x2f] + x;
    assert s[2..] == x + ([0x0a] + t) && r[2..] == x;
    hide LineRest;
  }

  lemma BlockDropped(x: bytes, t: bytes)
    requires Unclosed(x)
    ensures Minified([0x2f, 0x2a] + x + [0x2a, 0x2f] + t) == Minified(t) && Minified([0x2f, 0x2a] + x) == []
  {
    BlockEnds(x, t);
    var s, r := [0x2f, 0x2a] + x + [0x2a, 0x2f] + t, [0x2f, 0x2a] + x;
    assert s[2..] == x + ([0x2a, 0x2f] + t) && r[2..] == x;
    hide BlockRest;
    hide Unclosed;
  }

  lemma NothingLeft()
    ensures Minified([]) == []
  {
  }

  lemma StringKept(x: bytes, t: bytes)
    ensures Inside(x, true) ==> Minified([0x22] + x + [0x22] + t) == [0x22] + x + [0x22] + Minified(t)
    ensures Inside(x, false) ==> Minified([0x22] + x) == [0x22] + x
  {
    StringEnds(x, t);
    hide StringSpan;
    hide Minified;
    var a, b := [0x22] + x + [0x22], [0x22] + x;
    var s := a + t;
    assert s[1..] == x + ([0x22] + t) && b[1..] == x;
    MinifiedQuote(s);
    MinifiedQuote(b);
    assert s[..|x| + 2] == a && s[|x| + 2..] == t;
    if Inside(x, false) {
      assert b[..|x| + 1] == b && b[|x| + 1..] == [] && Minified([]) == [] && b + [] == b by {
        NothingLeft();
      }
    }
  }

  /** A piece is kept or dropped, and the rest of the text is minified by itself. */
  lemma PieceMinified(p: Piece, t: bytes)
    requires Fits(p, t)
    ensures Minified(PieceText(p) + t) == Kept(p) + Minified(t)
  {
    hide Minified;
    assert [] + Minified(t) == Minified(t);
    assert t == [] ==> PieceText(p) + t == PieceText(p) && Minified(t) == [] && Kept(p) + [] == Kept(p) by {
      NothingLeft();
    }
    match p
    case Line(x) =>
      LineDropped(x, t);
    case LastLine(x) =>
      LineDropped(x, t);
    case Block(x) =>
      BlockDropped(x, t);
    case OpenBlock(x) =>
      BlockDropped(x, t);
    case Str(x) =>
      StringKept(x, t);
    case OpenStr(x) =>
      StringKept(x, t);
    case Other(b) =>
      MinifiedPlain(b, t);
    case _ =>
      Dropped(p, t);
  }

  // ----- all pieces -----

  function Texts(ps: seq<Piece>): bytes {
    if ps == [] then [] else PieceText(ps[0]) + Texts(ps[1..])
  }

  function Kepts(ps: seq<Piece>): bytes {
    if ps == [] then [] else Kept(ps[0]) + Kepts(ps[1..])
  }

  predicate AllFit(ps: seq<Piece>) {
    ps == [] || (Fits(ps[0], Texts(ps[1..])) && AllFit(ps[1..]))
  }

  /** However a text is cut into pieces, minifying it leaves those that are kept. */
  lemma {:induction false} PiecesMinified(ps: seq<Piece>)
    requires AllFit(ps)
    ensures Minified(Texts(ps)) == Kepts(ps)
  {
    hide Minified;
    if ps == [] {
      NothingLeft();
    } else {
      PieceMinified(ps[0], Texts(ps[1..]));
      PiecesMinified(ps[1..]);
    }
  }

  // ----- every text has pieces -----

  lemma {:induction false} LineOf(s: bytes) returns (x: bytes, closed: bool, t: bytes)
    ensures 0x0a !in x && s == (if closed then x + ([0x0a] + t) else x) && (!closed ==> t == []) && |t| <= |s|
  {
    x, closed, t := [], false, [];
    if s != [] {
      if s[0] == 0x0a {
        closed, t := true, s[1..];
        assert s == [] + ([0x0a] + t);
      } else {
        x, closed, t := LineOf(s[1..]);
        x := [s[0]] + x;
      }
    }
  }

  lemma {:induction false} BlockOf(s: bytes) returns (x: bytes, closed: bool, t: bytes)
    ensures Unclosed(x) && s == (if closed then x + ([0x2a, 0x2f] + t) else x) && (!closed ==> t == []) && |t| <= |s|
  {
    x, closed, t := [], false, [];
    if s != [] {
      if |s| > 1 && s[0] == 0x2a && s[1] == 0x2f {
        closed, t := true, s[2..];
        assert s == [] + ([0x2a, 0x2f] + t);
      } else {
        var y;
        y, closed, t := BlockOf(s[1..]);
        x := [s[0]] + y;
        assert y != [] ==> y[0] == s[1];
      }
    }
  }

  lemma {:induction false} StringOf(s: bytes) returns (x: bytes, closed: bool, t: bytes)
    ensures Inside(x, closed) && s == (if closed then x + ([0x22] + t) else x) && (!closed ==> t == []) && |t| <= |s|
    decreases |s|
  {
    x, closed, t := [], false, [];
    if s != [] {
      if s[0] == 0x22 {
        closed, t := true, s[1..];
        assert s == [] + ([0x22] + t);
      } else if |s| >= 2 && s[0] == 0x5c && s[1] == 0x22 {
        var y;
        y, closed, t := StringOf(s[2..]);
        x := s[..2] + y;
        assert x[2..] == y;
      } else {
        var y;
        y, closed, t := StringOf(s[1..]);
        x := [s[0]] + y;
        assert x[1..] == y;
        assert y != [] ==> y[0] == s[1];
        assert closed && y == [] ==> s[1] == 0x22;
      }
    }
  }

  lemma FirstPiece(s: bytes) returns (p: Piece, t: bytes)
    requires s != []
    ensures Fits(p, t) && s == PieceText(p) + t && |t| < |s|
  {
    var closed, x;
    if s[0] in {0x20, 0x09, 0x0d, 0x0a} {
      p, t := Space(s[0]), s[1..];
    } else if s[0] == 0x22 {
      x, closed, t := StringOf(s[1..]);
      p := if closed then Str(x) else OpenStr(x);
    } else if s[0] != 0x2f {
      p, t := Other(s[0]), s[1..];
    } else if |s| > 1 && s[1] == 0x2f {
      x, closed, t := LineOf(s[2..]);
      p := if closed then Line(x) else LastLine(x);
      assert s == s[..2] + s[2..];
    } else if |s| > 1 && s[1] == 0x2a {
      x, closed, t := BlockOf(s[2..]);
      p := if closed then Block(x) else OpenBlock(x);
      assert s == s[..2] + s[2..];
    } else {
      p, t := Slash, s[1..];
    }
  }

  /** Every text can be cut into such pieces. */
  lemma {:induction false} PiecesOf(s: bytes) returns (ps: seq<Piece>)
    ensures AllFit(ps) && Texts(ps) == s
    decreases |s|
  {
    ps := [];
    if s != [] {
      var p, t := FirstPiece(s);
      var more := PiecesOf(t);
      ps := [p] + more;
      assert ps[1..] == more;
    }
  }
}
