/**
 Chunked bodies that break off. For a well-formed body cut anywhere, this module says exactly when the part
 that came is returned as a complete body.
 */
module ReadBodyCut {
  import opened Bytes
  import opened ReadBody
  import ReadBodyEnds

  // ----- where a body breaks off -----

  /** The bytes of a chunk, or of the last lines behind all chunks. */
  function Piece(cs: seq<Chunk>, last: bytes, i: nat): bytes
    requires i <= |cs|
  {
    if i < |cs| then cs[i].size + CRLF + cs[i].data + CRLF else last + CRLF + CRLF
  }

  /** `into` bytes of a piece have come. */
  datatype Place = Place(piece: nat, into: nat)

  /** The place of byte `k` of an encoded body. */
  function PlaceOf(cs: seq<Chunk>, last: bytes, k: nat): (p: Place)
    requires k < |Encoded(cs, last)|
    ensures p.piece <= |cs| && p.into < |Piece(cs, last, p.piece)|
    decreases |cs|
  {
    if cs == [] then Place(0, k)
    else if k < |Piece(cs, last, 0)| then Place(0, k)
    else
      var p := PlaceOf(cs[1..], last, k - |Piece(cs, last, 0)|);
      Place(p.piece + 1, p.into)
  }

  lemma {:induction false} CutAtPlace(cs: seq<Chunk>, last: bytes, k: nat)
    requires k < |Encoded(cs, last)|
    ensures var p := PlaceOf(cs, last, k);
            Encoded(cs, last)[..k] == Sent(cs[..p.piece]) + Piece(cs, last, p.piece)[..p.into]
    decreases |cs|
  {
    var p, all := PlaceOf(cs, last, k), Encoded(cs, last);
    if cs == [] {
      assert Sent(cs[..0]) == [] && all == Piece(cs, last, 0);
    } else {
      var first := Piece(cs, last, 0);
      Right3(first, Sent(cs[1..]), last + CRLF + CRLF);
      if k < |first| {
        assert Sent(cs[..0]) == [];
        assert all[..k] == first[..k];
      } else {
        CutAtPlace(cs[1..], last, k - |first|);
        var q := PlaceOf(cs[1..], last, k - |first|);
        assert cs[..p.piece][1..] == cs[1..][..q.piece];
        assert Sent(cs[..p.piece]) == first + Sent(cs[1..][..q.piece]);
        assert all[..k] == first + Encoded(cs[1..], last)[..k - |first|];
        Right3(first, Sent(cs[1..][..q.piece]), Piece(cs, last, p.piece)[..p.into]);
      }
    }
  }

  /** Whether a size buffer reads as zero: its digits are zeros and something else follows them. */
  predicate ReadsZero(buf: bytes) {
    buf != [] && (!IsHex(buf[0]) || (buf[0] == 0x30 && ReadsZero(buf[1..])))
  }

  /** What a size line that has come to `digits` leaves in a buffer. */
  function Broken(digits: bytes, buf: bytes): bytes {
    Over(if digits == [] then [0] else digits, buf)
  }

  /**
   The part that came is returned with status 200. With `hex` in the size buffer at the start, and a newline
   or not in the second byte of the other, that is at these places: between two pieces; behind the CR after
   the data of a chunk, when the other buffer has that newline, which every chunk leaves; behind the CR of the
   last chunk; and in a size line whose digits so far, with those left in the buffer by earlier lines,
   read as zero.
   */
  predicate Taken(cs: seq<Chunk>, last: bytes, k: nat, hex: bytes, newline: bool)
    requires k < |Encoded(cs, last)|
  {
    var p := PlaceOf(cs, last, k);
    var buf := SizeBuffer(cs[..p.piece], hex);
    if p.piece == |cs| then p.into > |last| || ReadsZero(Broken(last[..p.into], buf))
    else
      var c := cs[p.piece];
      if p.into <= |c.size| then ReadsZero(Broken(c.size[..p.into], buf))
      else p.into == |Piece(cs, last, p.piece)| - 1 && (p.piece > 0 || newline)
  }

  /** The data of the chunks of which all but the last line feed has come. */
  function DataTo(cs: seq<Chunk>, last: bytes, k: nat): bytes
    requires k < |Encoded(cs, last)|
  {
    var p := PlaceOf(cs, last, k);
    Joined(cs[..p.piece])
    + if p.piece < |cs| && p.into == |Piece(cs, last, p.piece)| - 1 then cs[p.piece].data else []
  }

  // ----- lines that break off -----

  lemma {:induction false} LineBreaksOff(x: bytes, buf: bytes, pos: nat, maxLen: nat)
    requires pos + |x| < maxLen < |buf| && forall i :: 0 <= i < |x| ==> x[i] != LF
    ensures LineFrom(x, buf, pos, maxLen) == Line(0, buf[..pos] + x + buf[pos + |x|..], [])
    decreases |x|
  {
    if x == [] {
      assert buf == buf[..pos] + [] + buf[pos..];
    } else {
      var b := buf[pos := x[0]];
      LineBreaksOff(x[1..], b, pos + 1, maxLen);
      assert b[..pos + 1] + x[1..] == buf[..pos] + x;
      assert b[pos + 1 + |x[1..]|..] == buf[pos + |x|..];
    }
  }

  lemma BrokenLine(x: bytes, buf: bytes, maxLen: nat)
    requires |x| < maxLen < |buf| && forall i :: 0 <= i < |x| ==> x[i] != LF
    ensures ReadLine(x, buf, maxLen) == Line(0, Broken(x, buf), [])
  {
    var b := buf[0 := 0];
    LineBreaksOff(x, b, 0, maxLen);
    assert b[..0] + x + b[|x|..] == Broken(x, buf);
  }

  lemma {:induction false} ReadsZeroIs(buf: bytes, i: nat)
    requires i <= |buf|
    ensures HexFrom(buf, i, 0) == Some(0) <==> ReadsZero(buf[i..])
    decreases |buf| - i
  {
    if i < |buf| && IsHex(buf[i]) {
      assert buf[i..][1..] == buf[i + 1..];
      if buf[i] == 0x30 {
        ReadsZeroIs(buf, i + 1);
      } else {
        ReadBodyEnds.HexGrows(buf, i + 1, HexValue(buf[i]));
      }
    }
  }

  /** The stream ends in a size line, in or behind its digits. */
  lemma SizeBreaksOff(x: bytes, data: bytes, memory: nat, hex: bytes, temp: bytes, maxSize: int)
    requires |hex| == 10 && |temp| == 5 && |x| <= 8 && forall i :: 0 <= i < |x| ==> x[i] != LF
    ensures var r := Chunked(x, data, memory, hex, temp, maxSize);
            if ReadsZero(Broken(x, hex)) then r == Body(data, []) else r in {Status(400), Undefined}
  {
    hide HexFrom;
    hide Chunked;
    hide ReadLine;
    BrokenLine(x, hex, 9);
    var buf := Broken(x, hex);
    ReadsZeroIs(buf, 0);
    assert buf[0..] == buf;
    ChunkedStep(x, data, memory, hex, temp, maxSize);
    BrokenLine([], temp, 4);
  }

  // ----- pieces that break off -----

  /** A whole size line without its newline. */
  lemma ReturnReads(size: bytes, n: nat, hex: bytes)
    requires IsSize(size, n) && |hex| == 10
    ensures ReadsZero(Broken(size + [CR], hex)) <==> n == 0
  {
    var b := Broken(size + [CR], hex);
    assert b[..|size|] == size && b[|size|] == CR;
    HexRead(b, size, 0);
    ReadsZeroIs(b, 0);
    assert b[0..] == b && size[..0] == [];
  }

  /** Whether the memory is enough for a chunk of `n` bytes. */
  predicate Fits(n: nat, total: nat, memory: nat, maxSize: int) {
    !ReadBodyEnds.Overflows(n, total, memory) && (n + total + 1 > memory ==> memory + n + 1 <= maxSize)
  }

  /** A chunk that breaks off behind its size line. */
  lemma DataBreaksOff(c: Chunk, d: nat, data: bytes, memory: nat, hex: bytes, temp: bytes, maxSize: int)
    requires GoodChunk(c) && |hex| == 10 && |temp| == 5 && Fits(|c.data|, |data|, memory, maxSize)
    requires d < |c.data| + 2
    ensures var r := Chunked(c.size + CRLF + (c.data + CRLF)[..d], data, memory, hex, temp, maxSize);
            if d == |c.data| + 1 && temp[1] == LF then r == Body(data + c.data, []) else r == Status(400)
  {
    hide HexFrom;
    hide Chunked;
    hide ReadLine;
    var rest, n := (c.data + CRLF)[..d], |c.data|;
    var s := c.size + CRLF + rest;
    SizeLine(c.size, n, rest, hex);
    ReadBodyEnds.AfterLine(s, data, memory, hex, temp, maxSize, n);
    if d >= n {
      assert rest[..n] == c.data && rest[n..] == CRLF[..d - n];
      assert CRLF[..d - n] == if d == n then [] else [CR];
      BrokenLine(rest[n..], temp, 2);
      ReadBodyEnds.EndOfStream(data + c.data, Grown(n, |data|, memory), ReadLine(s, hex, 9).buf,
          Broken(rest[n..], temp), maxSize);
    }
  }

  /** A chunk that breaks off. */
  lemma ChunkBreaksOff(c: Chunk, d: nat, data: bytes, memory: nat, hex: bytes, temp: bytes, maxSize: int)
    requires GoodChunk(c) && |hex| == 10 && |temp| == 5 && Fits(|c.data|, |data|, memory, maxSize)
    requires d < |c.size + CRLF + c.data + CRLF|
    ensures var (all, at) := (c.size + CRLF + c.data + CRLF, |c.size + CRLF + c.data + CRLF| - 1);
            var taken := if d <= |c.size| then ReadsZero(Broken(c.size[..d], hex)) else d == at && temp[1] == LF;
            var r := Chunked(all[..d], data, memory, hex, temp, maxSize);
            if taken then r == Body(if d == at then data + c.data else data, []) else r in {Status(400), Undefined}
  {
    hide Chunked;
    var all := c.size + CRLF + c.data + CRLF;
    if d <= |c.size| {
      assert all[..d] == c.size[..d];
      SizeBreaksOff(c.size[..d], data, memory, hex, temp, maxSize);
    } else if d == |c.size| + 1 {
      assert all[..d] == c.size + [CR];
      ReturnReads(c.size, |c.data|, hex);
      SizeBreaksOff(c.size + [CR], data, memory, hex, temp, maxSize);
    } else {
      Right4(c.size, CRLF, c.data, CRLF);
      var e := d - |c.size| - 2;
      assert all[..d] == c.size + CRLF + (c.data + CRLF)[..e];
      DataBreaksOff(c, e, data, memory, hex, temp, maxSize);
    }
  }

  /** The last lines break off. */
  lemma LastBreaksOff(last: bytes, d: nat, data: bytes, memory: nat, hex: bytes, temp: bytes, maxSize: int)
    requires IsSize(last, 0) && |hex| == 10 && |temp| == 5 && d < |last + CRLF + CRLF|
    ensures var r := Chunked((last + CRLF + CRLF)[..d], data, memory, hex, temp, maxSize);
            if d > |last| || ReadsZero(Broken(last[..d], hex)) then r == Body(data, [])
            else r in {Status(400), Undefined}
  {
    hide HexFrom;
    hide Chunked;
    hide ReadLine;
    var all := last + CRLF + CRLF;
    if d <= |last| {
      assert all[..d] == last[..d];
      SizeBreaksOff(last[..d], data, memory, hex, temp, maxSize);
    } else if d == |last| + 1 {
      assert all[..d] == last + [CR];
      ReturnReads(last, 0, hex);
      SizeBreaksOff(last + [CR], data, memory, hex, temp, maxSize);
    } else {
      var rest := CRLF[..d - |last| - 2];
      assert all[..d] == last + CRLF + rest;
      SizeLine(last, 0, rest, hex);
      ReadBodyEnds.AfterLine(all[..d], data, memory, hex, temp, maxSize, 0);
      BrokenLine(rest, temp, 4);
    }
  }

  // ----- bodies that break off -----

  /** The memory is enough for the chunks in front of a chunk, and for that chunk. */
  lemma {:induction false} RoomAt(cs: seq<Chunk>, i: nat, total: nat, memory: nat, maxSize: int)
    requires i <= |cs| && Room(cs, total, memory, maxSize) == Enough
    ensures Room(cs[..i], total, memory, maxSize) == Enough
    ensures i < |cs| ==> Fits(|cs[i].data|, total + |Joined(cs[..i])|, Memory(cs[..i], total, memory), maxSize)
    decreases i
  {
    if i > 0 {
      var n := |cs[0].data|;
      RoomAt(cs[1..], i - 1, total + n, Grown(n, total, memory), maxSize);
      assert cs[..i][1..] == cs[1..][..i - 1];
    }
  }

  lemma {:induction false} BufferLength(cs: seq<Chunk>, hex: bytes)
    requires |hex| == 10 && forall i :: 0 <= i < |cs| ==> GoodChunk(cs[i])
    ensures |SizeBuffer(cs, hex)| == 10
    decreases |cs|
  {
    if cs != [] {
      assert GoodChunk(cs[0]);
      BufferLength(cs[1..], Over(cs[0].size + CRLF + [0], hex));
    }
  }

  /**
   A well-formed body that breaks off: for every place and every content of the line buffers, whether the
   part that came is returned, and with which data.
   */
  lemma CutIsExact(cs: seq<Chunk>, last: bytes, k: nat, hex: bytes, temp: bytes, maxSize: int)
    requires (forall i :: 0 <= i < |cs| ==> GoodChunk(cs[i])) && IsSize(last, 0) && |hex| == 10 && |temp| == 5
    requires Room(cs, 0, 1024, maxSize) == Enough && k < |Encoded(cs, last)|
    ensures var r := Chunked(Encoded(cs, last)[..k], [], 1024, hex, temp, maxSize);
            if Taken(cs, last, k, hex, temp[1] == LF) then r == Body(DataTo(cs, last, k), [])
            else r in {Status(400), Undefined}
  {
    hide Chunked;
    hide GoodChunk;
    hide Room;
    hide ReadsZero;
    hide Broken;
    CutAtPlace(cs, last, k);
    var p := PlaceOf(cs, last, k);
    var before := cs[..p.piece];
    RoomAt(cs, p.piece, 0, 1024, maxSize);
    BufferLength(before, hex);
    var tail, data, memory := Piece(cs, last, p.piece)[..p.into], Joined(before), Memory(before, 0, 1024);
    var hex', temp' := ChunksRead(before, tail, [], 1024, hex, temp, maxSize);
    assert [] + data == data;
    if p.piece < |cs| {
      assert GoodChunk(cs[p.piece]);
      ChunkBreaksOff(cs[p.piece], p.into, data, memory, hex', temp', maxSize);
    } else {
      LastBreaksOff(last, p.into, data, memory, hex', temp', maxSize);
    }
  }

  // ----- whatever the buffers hold at the start -----

  lemma OverOver(a: bytes, b: bytes, c: bytes)
    requires |a| <= |c| && |b| <= |c|
    ensures Over(a, Over(b, c)) == Over(Over(a, b), c)
  {
  }

  /** What is known of the buffers after the lines of the chunks is the same whatever they held before. */
  lemma {:induction false} BufferOver(cs: seq<Chunk>, known: bytes, hex: bytes)
    requires |known| <= 10 == |hex| && forall i :: 0 <= i < |cs| ==> GoodChunk(cs[i])
    ensures |SizeBuffer(cs, known)| <= 10 && SizeBuffer(cs, Over(known, hex)) == Over(SizeBuffer(cs, known), hex)
    decreases |cs|
  {
    if cs != [] {
      assert GoodChunk(cs[0]);
      var line := cs[0].size + CRLF + [0];
      OverOver(line, known, hex);
      BufferOver(cs[1..], Over(line, known), hex);
    }
  }

  lemma BrokenOver(cs: seq<Chunk>, x: bytes, hex: bytes)
    requires |x| <= 10 == |hex| && forall i :: 0 <= i < |cs| ==> GoodChunk(cs[i])
    ensures Broken(x, SizeBuffer(cs, hex)) == Over(Broken(x, SizeBuffer(cs, [])), hex)
  {
    assert Over([], hex) == hex;
    BufferOver(cs, [], hex);
    OverOver(if x == [] then [0] else x, SizeBuffer(cs, []), hex);
  }

  /** A known zero stays one, an unknown one can be spoiled, and a terminator is the best to hope for. */
  lemma {:induction false} ReadsZeroOver(known: bytes, hex: bytes)
    ensures ReadsZero(known) ==> ReadsZero(known + hex)
    ensures ReadsZero(known + hex) && hex != [] && hex[0] == 0x31 ==> ReadsZero(known)
    ensures ReadsZero(known + hex) && hex == [] ==> ReadsZero(known)
    ensures hex != [] && ReadsZero(known + hex) ==> ReadsZero(known + seq(|hex|, _ => 0))
    decreases |known|
  {
    if known == [] {
      assert known + hex == hex && known + seq(|hex|, _ => 0) == seq(|hex|, _ => 0);
    } else {
      var zeros: bytes := seq(|hex|, _ => 0);
      assert (known + hex)[1..] == known[1..] + hex && (known + zeros)[1..] == known[1..] + zeros;
      ReadsZeroOver(known[1..], hex);
    }
  }

  lemma LineOver(cs: seq<Chunk>, x: bytes, hex: bytes)
    requires |x| <= 10 == |hex| && forall i :: 0 <= i < |cs| ==> GoodChunk(cs[i])
    ensures ReadsZero(Broken(x, SizeBuffer(cs, []))) ==> ReadsZero(Broken(x, SizeBuffer(cs, hex)))
    ensures ReadsZero(Broken(x, SizeBuffer(cs, hex))) && hex == seq(10, _ => 0x31)
            ==> ReadsZero(Broken(x, SizeBuffer(cs, [])))
    ensures ReadsZero(Broken(x, SizeBuffer(cs, hex))) ==> ReadsZero(Broken(x, SizeBuffer(cs, seq(10, _ => 0))))
  {
    hide ReadsZero;
    hide SizeBuffer;
    var known, zeros: bytes := Broken(x, SizeBuffer(cs, [])), seq(10, _ => 0);
    BrokenOver(cs, x, hex);
    BrokenOver(cs, x, zeros);
    BufferOver(cs, [], hex);
    assert |known| <= 10;
    ReadsZeroOver(known, hex[|known|..]);
    assert zeros[|known|..] == seq(10 - |known|, _ => 0);
  }

  lemma TakenOver(cs: seq<Chunk>, last: bytes, k: nat, hex: bytes, newline: bool)
    requires (forall i :: 0 <= i < |cs| ==> GoodChunk(cs[i])) && IsSize(last, 0) && |hex| == 10
    requires k < |Encoded(cs, last)|
    ensures Taken(cs, last, k, [], false) ==> Taken(cs, last, k, hex, newline)
    ensures Taken(cs, last, k, hex, newline) && !newline && hex == seq(10, _ => 0x31) ==> Taken(cs, last, k, [], false)
    ensures Taken(cs, last, k, hex, newline) ==> Taken(cs, last, k, seq(10, _ => 0), true)
  {
    hide ReadsZero;
    hide Broken;
    hide SizeBuffer;
    var p := PlaceOf(cs, last, k);
    var before, x := cs[..p.piece], if p.piece < |cs| then cs[p.piece].size else last;
    if p.into <= |x| {
      assert p.piece < |cs| ==> GoodChunk(cs[p.piece]);
      LineOver(before, x[..p.into], hex);
    }
  }

  /**
   The part that came of a body is returned with status 200 whatever the line buffers hold at the start,
   exactly at the places where what is known of them decides it.
   */
  lemma AlwaysTaken(cs: seq<Chunk>, last: bytes, k: nat, maxSize: int)
    requires (forall i :: 0 <= i < |cs| ==> GoodChunk(cs[i])) && IsSize(last, 0)
    requires Room(cs, 0, 1024, maxSize) == Enough && k < |Encoded(cs, last)|
    ensures (forall hex: bytes, temp: bytes :: |hex| == 10 && |temp| == 5 ==>
               Chunked(Encoded(cs, last)[..k], [], 1024, hex, temp, maxSize).Body?)
       <==> Taken(cs, last, k, [], false)
  {
    hide Chunked;
    hide GoodChunk;
    hide Taken;
    forall hex: bytes, temp: bytes | |hex| == 10 && |temp| == 5
      ensures Taken(cs, last, k, [], false) ==> Chunked(Encoded(cs, last)[..k], [], 1024, hex, temp, maxSize).Body?
    {
      TakenOver(cs, last, k, hex, temp[1] == LF);
      CutIsExact(cs, last, k, hex, temp, maxSize);
    }
    var ones, none: bytes := seq(10, _ => 0x31), seq(5, _ => 0);
    TakenOver(cs, last, k, ones, false);
    CutIsExact(cs, last, k, ones, none, maxSize);
  }

  /** And for some content of the buffers, exactly at the places where nothing known of them excludes it. */
  lemma SometimesTaken(cs: seq<Chunk>, last: bytes, k: nat, maxSize: int)
    requires (forall i :: 0 <= i < |cs| ==> GoodChunk(cs[i])) && IsSize(last, 0)
    requires Room(cs, 0, 1024, maxSize) == Enough && k < |Encoded(cs, last)|
    ensures (exists hex: bytes, temp: bytes :: |hex| == 10 && |temp| == 5 &&
               Chunked(Encoded(cs, last)[..k], [], 1024, hex, temp, maxSize).Body?)
       <==> Taken(cs, last, k, seq(10, _ => 0), true)
  {
    hide Chunked;
    hide GoodChunk;
    hide Taken;
    forall hex: bytes, temp: bytes | |hex| == 10 && |temp| == 5
      ensures Chunked(Encoded(cs, last)[..k], [], 1024, hex, temp, maxSize).Body?
              ==> Taken(cs, last, k, seq(10, _ => 0), true)
    {
      TakenOver(cs, last, k, hex, temp[1] == LF);
      CutIsExact(cs, last, k, hex, temp, maxSize);
    }
    var zeros, lines: bytes := seq(10, _ => 0), seq(5, _ => LF);
    CutIsExact(cs, last, k, zeros, lines, maxSize);
  }
}
