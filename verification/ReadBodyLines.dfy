/**
 The lines of a chunked body that the standard does not have: line feeds without a return, size lines with something
 behind the digits or without any, lines that are too long, and what is taken for the end of the body. And which
 bodies the memory suffices for.
 */
module ReadBodyLines {
  import opened Bytes
  import opened ReadBody
  import ReadBodyEnds
  import Cut = ReadBodyCut

  /** Up to and with the first line feed, but `n` bytes at most. */
  function SkipLine(s: bytes, n: nat): bytes {
    if s == [] || n == 0 then s else if s[0] == 0x0a then s[1..] else SkipLine(s[1..], n - 1)
  }

  lemma {:induction false} LineSkips(s: bytes, buf: bytes, pos: nat, maxLen: nat)
    requires pos <= maxLen < |buf|
    ensures LineFrom(s, buf, pos, maxLen).rest == SkipLine(s, maxLen - pos)
    decreases maxLen - pos
  {
    if pos < maxLen && s != [] && s[0] != LF {
      LineSkips(s[1..], buf[pos := s[0]], pos + 1, maxLen);
    }
  }

  lemma {:induction false} LongLine(s: bytes, buf: bytes, pos: nat, maxLen: nat)
    requires pos <= maxLen < |buf| && |s| >= maxLen - pos && LF !in s[..maxLen - pos]
    ensures LineFrom(s, buf, pos, maxLen).ret == -1
    decreases maxLen - pos
  {
    if pos < maxLen {
      assert s[0] == s[..maxLen - pos][0];
      assert s[1..][..maxLen - pos - 1] == s[..maxLen - pos][1..];
      LongLine(s[1..], buf[pos := s[0]], pos + 1, maxLen);
    }
  }

  lemma LineIs(s: bytes, buf: bytes, maxLen: nat)
    requires maxLen < |buf|
    ensures ReadLine(s, buf, maxLen) == LineFrom(s, buf[0 := 0], 0, maxLen)
  {
  }

  /** A size line of nine bytes or more gets status 414. */
  lemma LineTooLong(s: bytes, data: bytes, memory: nat, hex: bytes, temp: bytes, maxSize: int)
    requires |hex| == 10 && |temp| == 5 && |s| >= 9 && 0x0a !in s[..9]
    ensures Chunked(s, data, memory, hex, temp, maxSize) == Status(414)
  {
    LongLine(s, hex[0 := 0], 0, 9);
    hide ReadLine;
    assert ReadLine(s, hex, 9) == LineFrom(s, hex[0 := 0], 0, 9) by {
      LineIs(s, hex, 9);
    }
    ChunkedStep(s, data, memory, hex, temp, maxSize);
  }

  /** A size line: digits, none perhaps, and something else up to a line feed, eight bytes at most. */
  predicate IsLine(digits: bytes, other: bytes) {
    && AllHex(digits) && |digits| <= 7 && |digits| + |other| <= 8
    && 0x0a !in other && (other != [] ==> !IsHex(other[0]))
  }

  lemma LooseLine(digits: bytes, other: bytes, more: bytes, hex: bytes)
    requires IsLine(digits, other) && |hex| == 10
    ensures var l := ReadLine(digits + other + [0x0a] + more, hex, 9);
            l.ret >= 0 && l.rest == more && HexFrom(l.buf, 0, 0) == Some(HexOf(digits)) && |l.buf| == 10
  {
    var x := digits + other;
    assert forall i :: 0 <= i < |x| ==> x[i] != LF;
    LineRead(x, more, hex[0 := 0], 0, 9);
    LineIs(x + [0x0a] + more, hex, 9);
    var b := ReadLine(x + [0x0a] + more, hex, 9).buf;
    assert b[..|digits|] == digits;
    assert b[|digits|] == if other == [] then LF else other[0];
    HexRead(b, digits, 0);
    assert digits[..0] == [];
  }

  /** A size line that gives zero, or has no digits, ends the body. Up to four bytes of one more line are taken. */
  lemma LooseEnd(digits: bytes, other: bytes, more: bytes, data: bytes, memory: nat, hex: bytes, temp: bytes,
                 maxSize: int)
    requires IsLine(digits, other) && HexOf(digits) == 0 && |hex| == 10 && |temp| == 5
    ensures Chunked(digits + other + [0x0a] + more, data, memory, hex, temp, maxSize) == Body(data, SkipLine(more, 4))
  {
    hide HexFrom;
    hide Chunked;
    hide IsLine;
    hide SkipLine;
    hide LineFrom;
    hide HexOf;
    LooseLine(digits, other, more, hex);
    LineIs(more, temp, 4);
    LineSkips(more, temp[0 := 0], 0, 4);
    hide ReadLine;
    ReadBodyEnds.AfterLine(digits + other + [0x0a] + more, data, memory, hex, temp, maxSize, 0);
  }

  /** The line end behind the data: a line feed with or without a return, and nothing else. */
  lemma LooseEndLine(tail: bytes, temp: bytes)
    requires |temp| == 5 && |tail| >= 2
    ensures var t := ReadLine(tail, temp, 2);
            && (LineEnds(t.buf) <==> tail[0] == 0x0a || (tail[0] == 0x0d && tail[1] == 0x0a))
            && t.rest == (if tail[0] == 0x0a then tail[1..] else tail[2..])
  {
    assert tail[1..][1..] == tail[2..];
    assert tail[1..][0] == tail[1];
    var b := temp[0 := 0][0 := tail[0]];
    assert ReadLine(tail, temp, 2) == LineFrom(tail, temp[0 := 0], 0, 2);
    if tail[0] != LF {
      assert LineFrom(tail, temp[0 := 0], 0, 2) == LineFrom(tail[1..], b, 1, 2);
    }
  }

  /** Any chunk whose memory is there, with at least two bytes behind its data. */
  lemma LooseChunk(digits: bytes, other: bytes, d: bytes, tail: bytes, data: bytes, memory: nat, hex: bytes,
                   temp: bytes, maxSize: int)
    returns (hex': bytes, temp': bytes)
    requires IsLine(digits, other) && HexOf(digits) == |d| > 0 && |tail| >= 2 && |hex| == 10 && |temp| == 5
    requires Cut.Fits(|d|, |data|, memory, maxSize)
    ensures |hex'| == 10 && |temp'| == 5
    ensures Chunked(digits + other + [0x0a] + (d + tail), data, memory, hex, temp, maxSize)
         == if tail[0] == 0x0a then
              Chunked(tail[1..], data + d, Grown(|d|, |data|, memory), hex', temp', maxSize)
            else if tail[0] == 0x0d && tail[1] == 0x0a then
              Chunked(tail[2..], data + d, Grown(|d|, |data|, memory), hex', temp', maxSize)
            else Status(400)
  {
    hide HexFrom;
    hide Chunked;
    hide IsLine;
    hide ReadLine;
    hide LineEnds;
    var more := d + tail;
    LooseLine(digits, other, more, hex);
    ReadBodyEnds.AfterLine(digits + other + [0x0a] + more, data, memory, hex, temp, maxSize, |d|);
    assert more[..|d|] == d && more[|d|..] == tail;
    LooseEndLine(tail, temp);
    hex', temp' := ReadLine(digits + other + [0x0a] + more, hex, 9).buf, ReadLine(tail, temp, 2).buf;
  }

  /**
   The first chunk: up to 1023 bytes need no more memory. A larger one is refused when 1025 bytes more than it has
   pass the limit, and only then.
   */
  lemma OneChunk(c: Chunk, last: bytes, rest: bytes, hex: bytes, temp: bytes, maxSize: int)
    requires GoodChunk(c) && IsSize(last, 0) && |hex| == 10 && |temp| == 5
    ensures Chunked(Encoded([c], last) + rest, [], 1024, hex, temp, maxSize)
         == if |c.data| <= 1023 || |c.data| + 1025 <= maxSize then Body(c.data, rest) else Status(400)
  {
    hide Chunked;
    HexSmall(c.size);
    BodyRead([c], last, rest, [], 1024, hex, temp, maxSize);
    assert [c][1..] == [] && [] + Joined([c]) == c.data;
  }

  lemma {:induction false} SmallFits(cs: seq<Chunk>, total: nat, maxSize: int)
    requires total + |Joined(cs)| <= 1023
    ensures Room(cs, total, 1024, maxSize) == Enough
  {
    if cs != [] {
      SmallFits(cs[1..], total + |cs[0].data|, maxSize);
    }
  }

  lemma {:induction false} LargeGrows(cs: seq<Chunk>, total: nat, grown: nat, maxSize: int)
    requires forall i :: 0 <= i < |cs| ==> |cs[i].data| >= 1024 + grown + i
    requires cs != [] ==> total + |Joined(cs)| + 1024 + grown + |cs| <= 0x7fff_ffff
    ensures Room(cs, total, total + 1024 + grown, maxSize)
         == if cs == [] || total + |Joined(cs)| + 1024 + grown + |cs| <= maxSize then Enough else TooLarge
  {
    if cs != [] {
      var more := cs[1..];
      forall i | 0 <= i < |more|
        ensures |more[i].data| >= 1024 + (grown + 1) + i
      {
        assert more[i] == cs[i + 1];
      }
      LargeGrows(more, total + |cs[0].data|, grown + 1, maxSize);
      assert more == [] ==> Joined(cs) == cs[0].data + [] == cs[0].data;
    }
  }

  /** A body of at most 1023 bytes, in any chunks, is delivered whatever the limit. */
  lemma SmallBody(cs: seq<Chunk>, last: bytes, rest: bytes, hex: bytes, temp: bytes, maxSize: int)
    requires (forall i :: 0 <= i < |cs| ==> GoodChunk(cs[i])) && IsSize(last, 0) && |hex| == 10 && |temp| == 5
    requires |Joined(cs)| <= 1023
    ensures Chunked(Encoded(cs, last) + rest, [], 1024, hex, temp, maxSize) == Body(Joined(cs), rest)
  {
    hide Chunked;
    hide GoodChunk;
    SmallFits(cs, 0, maxSize);
    BodyRead(cs, last, rest, [], 1024, hex, temp, maxSize);
    assert [] + Joined(cs) == Joined(cs);
  }

  /** Where each chunk needs more memory, what counts is 1024 bytes and one more for each chunk than it has. */
  lemma LargeBody(cs: seq<Chunk>, last: bytes, rest: bytes, hex: bytes, temp: bytes, maxSize: int)
    requires (forall i :: 0 <= i < |cs| ==> GoodChunk(cs[i])) && IsSize(last, 0) && |hex| == 10 && |temp| == 5
    requires cs != [] && forall i :: 0 <= i < |cs| ==> |cs[i].data| >= 1024 + i
    requires |Joined(cs)| + 1024 + |cs| <= 0x7fff_ffff
    ensures Chunked(Encoded(cs, last) + rest, [], 1024, hex, temp, maxSize)
         == if |Joined(cs)| + 1024 + |cs| <= maxSize then Body(Joined(cs), rest) else Status(400)
  {
    hide Chunked;
    hide GoodChunk;
    LargeGrows(cs, 0, 0, maxSize);
    BodyRead(cs, last, rest, [], 1024, hex, temp, maxSize);
    assert [] + Joined(cs) == Joined(cs);
  }
}
