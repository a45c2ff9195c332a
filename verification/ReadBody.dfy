/**
 Reading the body of a request, with `read_body.c`, `socket_io.c` and `hex_utils.c`. However many bytes
 each call of read() returns, the outcome is a function of the bytes the peer sends and of what the two
 line buffers hold at the start, which C leaves indeterminate (ReadBodyEnds says when that matters).
 */
module ReadBody {
  import opened Bytes

  const LF: byte := 0x0a
  const CR: byte := 0x0d
  const CRLF: bytes := [CR, LF]

  /** What read_body comes to: a body and the bytes left, a status, or behaviour C does not define. */
  datatype Outcome = Body(data: bytes, rest: bytes) | Status(code: int) | Undefined

  // ----- lines -----

  /** The return value, the buffer, and the bytes left. */
  datatype Line = Line(ret: int, buf: bytes, rest: bytes)

  /** The loop of readLine at `pos`. At the end of the input it stops without a terminator. */
  function LineFrom(s: bytes, buf: bytes, pos: nat, maxLen: nat): (l: Line)
    requires pos <= maxLen < |buf|
    ensures |l.buf| == |buf| && |l.rest| <= |s|
    decreases maxLen - pos
  {
    if pos == maxLen then Line(-1, buf, s)
    else if s == [] then Line(0, buf, s)
    else if s[0] == LF then Line(pos, buf[pos := LF][pos + 1 := 0], s[1..])
    else LineFrom(s[1..], buf[pos := s[0]], pos + 1, maxLen)
  }

  function ReadLine(s: bytes, buf: bytes, maxLen: nat): (l: Line)
    requires maxLen < |buf|
    ensures |l.buf| == |buf| && |l.rest| <= |s|
  {
    LineFrom(s, buf[0 := 0], 0, maxLen)
  }

  /** chunkHexToInt from position `i` on: nothing when it runs off the buffer or out of the range of int. */
  function HexFrom(buf: bytes, i: nat, value: nat): Option<nat>
    requires i <= |buf|
    decreases |buf| - i
  {
    if i == |buf| then None
    else if !IsHex(buf[i]) then Some(value)
    else if value * 16 + HexValue(buf[i]) > INT_MAX then None
    else HexFrom(buf, i + 1, value * 16 + HexValue(buf[i]))
  }

  // ----- bodies -----

  predicate LineEnds(temp: bytes)
    requires |temp| == 5
  {
    temp[0] == LF || (temp[0] == CR && temp[1] == LF)
  }

  /** The size of the memory after a chunk of `n` bytes, when it may be as large. */
  function Grown(n: nat, total: nat, memory: nat): nat {
    if n + total + 1 > memory then memory + n + 1 else memory
  }

  /** The chunked branch: what is left of the input, the data so far, and the buffers of the two lines. */
  function Chunked(s: bytes, data: bytes, memory: nat, hex: bytes, temp: bytes, maxSize: int): Outcome
    requires |hex| == 10 && |temp| == 5
    decreases |s|
  {
    var l := ReadLine(s, hex, 9);
    if l.ret == -1 then Status(414)
    else
      match HexFrom(l.buf, 0, 0)
      case None => Undefined
      case Some(n) =>
        if n == 0 then Body(data, ReadLine(l.rest, temp, 4).rest)
        else if n + |data| + 1 > INT_MAX then Undefined
        else if n + |data| + 1 > memory && memory + n + 1 > INT_MAX then Undefined
        else if n + |data| + 1 > memory && memory + n + 1 > maxSize then Status(400)
        else if |l.rest| < n then Status(400)
        else
          var t := ReadLine(l.rest[n..], temp, 2);
          if !LineEnds(t.buf) then Status(400)
          else Chunked(t.rest, data + l.rest[..n], Grown(n, |data|, memory), l.buf, t.buf, maxSize)
  }

  // ----- the code -----

  /** A body delivered: the data with a terminator behind them. */
  ghost predicate Returned(fd: Socket, code: int, body: array?<byte>, received: nat, data: bytes, rest: bytes)
    reads fd, if body != null then {body} else {}
  {
    && code == 200 && body != null && received == |data| < body.Length
    && body[..received] == data && body[received] == 0 && fd.stream == rest
  }

  /** The Content-Length branch. */
  method ReadCounted(fd: Socket, contentLength: int, maxSize: int)
    returns (defined: bool, code: int, body: array?<byte>, received: nat)
    modifies fd
    ensures defined <==> contentLength > maxSize || 0 <= contentLength < 0x7fff_ffff
    ensures contentLength > maxSize ==> code == 400 && fd.stream == old(fd.stream)
    ensures 0 <= contentLength <= maxSize && contentLength < 0x7fff_ffff ==>
              if |old(fd.stream)| < contentLength then code == 400
              else
                && code == 200 && body != null && received == contentLength < body.Length
                && body[..contentLength] == old(fd.stream)[..contentLength] && body[contentLength] == 0
                && fd.stream == old(fd.stream)[contentLength..]
  {
    defined, code, body, received := true, 400, null, 0;
    if contentLength > maxSize {
      return;
    }
    if contentLength < 0 || contentLength + 1 > INT_MAX {
      return false, 0, null, 0;
    }
    var memory := new byte[contentLength + 1];
    var ok := Fill(fd, memory, 0, contentLength);
    if !ok {
      return;
    }
    memory[contentLength] := 0;
    code, body, received := 200, memory, contentLength;
    assert memory[..0] + old(fd.stream)[..contentLength] == old(fd.stream)[..contentLength];
  }

  /** The chunked branch. The contents of the two line buffers are indeterminate at the start. */
  method ReadChunked(fd: Socket, maxSize: int)
    returns (defined: bool, code: int, body: array?<byte>, received: nat, ghost hex0: bytes, ghost temp0: bytes)
    modifies fd
    ensures |hex0| == 10 && |temp0| == 5
    ensures match Chunked(old(fd.stream), [], 1024, hex0, temp0, maxSize)
            case Undefined => !defined
            case Status(c) => defined && code == c
            case Body(data, rest) => defined && Returned(fd, code, body, received, data, rest)
  {
    hide LineEnds;
    hide ReadLine;
    hide HexFrom;
    hide Chunked;
    var memorySize, totalRead: nat := 1024, 0;
    var chunkSizeHex, tempBuff := new byte[10], new byte[5];
    var data := new byte[memorySize](_ => 0);
    hex0, temp0 := chunkSizeHex[..], tempBuff[..];
    ghost var want := Chunked(fd.stream, [], 1024, hex0, temp0, maxSize);
    defined, code, body, received := true, 400, null, 0;
    assert data[..0] == [];
    while true
      invariant fresh(chunkSizeHex) && fresh(tempBuff) && fresh(data) && data != tempBuff && data != chunkSizeHex
                && chunkSizeHex != tempBuff
      invariant chunkSizeHex.Length == 10 && tempBuff.Length == 5 && data.Length == memorySize && totalRead < memorySize
      invariant Chunked(fd.stream, data[..totalRead], memorySize, chunkSizeHex[..], tempBuff[..], maxSize) == want
      invariant code == 400 && defined
      decreases |fd.stream|
    {
      ChunkedStep(fd.stream, data[..totalRead], memorySize, chunkSizeHex[..], tempBuff[..], maxSize);
      var ret := ReadLineInto(fd, chunkSizeHex, 9);
      if ret == -1 {
        code := 414;
        return;
      }
      var ok, chunkLength := ChunkHexToInt(chunkSizeHex);
      if !ok {
        defined := false;
        return;
      }
      if chunkLength == 0 {
        break;
      }
      if chunkLength + totalRead + 1 > INT_MAX {
        defined := false;
        return;
      }
      if chunkLength + totalRead + 1 > memorySize {
        if memorySize + chunkLength + 1 > INT_MAX {
          defined := false;
          return;
        }
        if memorySize + chunkLength + 1 > maxSize {
          return;
        }
        ghost var before := data[..totalRead];
        data := Reallocate(data, memorySize + chunkLength + 1);
        memorySize := memorySize + chunkLength + 1;
        assert data[..totalRead] == before;
      }
      ok := ReadData(fd, data, totalRead, chunkLength, tempBuff);
      if !ok {
        return;
      }
      totalRead := totalRead + chunkLength;
    }
    var _ := ReadLineInto(fd, tempBuff, 4);
    data[totalRead] := 0;
    code, body, received := 200, data, totalRead;
  }

  /** read_body; `contentLength` is what atoi makes of the header when there is one. */
  method Read(fd: Socket, contentLength: Option<int>, maxSize: int)
    returns (defined: bool, code: int, body: array?<byte>, received: nat, ghost hex0: bytes, ghost temp0: bytes)
    modifies fd
    ensures |hex0| == 10 && |temp0| == 5
    ensures match contentLength
            case Some(n) =>
              && (defined <==> n > maxSize || 0 <= n < 0x7fff_ffff)
              && (n > maxSize ==> code == 400 && fd.stream == old(fd.stream))
              && (0 <= n <= maxSize && n < 0x7fff_ffff ==>
                    if |old(fd.stream)| < n then code == 400
                    else
                      && code == 200 && body != null && received == n < body.Length
                      && body[..n] == old(fd.stream)[..n] && body[n] == 0 && fd.stream == old(fd.stream)[n..])
            case None =>
              match Chunked(old(fd.stream), [], 1024, hex0, temp0, maxSize)
              case Undefined => !defined
              case Status(c) => defined && code == c
              case Body(data, rest) => defined && Returned(fd, code, body, received, data, rest)
  {
    hide Chunked;
    match contentLength
    case Some(n) =>
      hex0, temp0 := seq(10, _ => 0), seq(5, _ => 0);
      defined, code, body, received := ReadCounted(fd, n, maxSize);
    case None =>
      defined, code, body, received, hex0, temp0 := ReadChunked(fd, maxSize);
  }

  /** A connection: the bytes still to come. A read may return fewer bytes than asked for. */
  class Socket {
    var stream: bytes

    constructor (stream: bytes)
      ensures this.stream == stream
    {
      this.stream := stream;
    }

    method Read(a: array<byte>, at: nat, len: nat) returns (count: nat)
      requires at + len <= a.Length
      modifies this, a
      ensures count <= len && count <= |old(stream)| && (count == 0 <==> len == 0 || old(stream) == [])
      ensures stream == old(stream)[count..]
      ensures a[..at] == old(a[..at]) && a[at..at + count] == old(stream)[..count]
              && a[at + count..] == old(a[at + count..])
    {
      if len == 0 || stream == [] {
        return 0;
      }
      count :| 1 <= count <= len && count <= |stream|;
      forall i | 0 <= i < count {
        a[at + i] := stream[i];
      }
      stream := stream[count..];
    }
  }

  /** readLine. */
  method ReadLineInto(fd: Socket, buffer: array<byte>, maxLen: nat) returns (ret: int)
    requires maxLen < buffer.Length
    modifies fd, buffer
    ensures Line(ret, buffer[..], fd.stream) == ReadLine(old(fd.stream), old(buffer[..]), maxLen)
  {
    ghost var want := ReadLine(fd.stream, buffer[..], maxLen);
    var writePos := 0;
    buffer[0] := 0;
    while writePos < maxLen
      invariant 0 <= writePos <= maxLen
      invariant LineFrom(fd.stream, buffer[..], writePos, maxLen) == want
    {
      ghost var s, b := fd.stream, buffer[..];
      var count := fd.Read(buffer, writePos, 1);
      if count == 0 {
        assert buffer[..] == b;
        return 0;
      }
      assert buffer[..] == b[writePos := s[0]];
      if buffer[writePos] == LF {
        break;
      }
      writePos := writePos + 1;
    }
    if writePos == maxLen {
      return -1;
    }
    buffer[writePos + 1] := 0;
    ret := writePos;
  }

  /** chunkHexToInt, which stops where C leaves the result undefined. */
  method ChunkHexToInt(hexdigits: array<byte>) returns (ok: bool, value: nat)
    ensures match HexFrom(hexdigits[..], 0, 0) case None => !ok case Some(v) => ok && value == v
  {
    value := 0;
    var i := 0;
    while i < hexdigits.Length && IsHex(hexdigits[i])
      invariant 0 <= i <= hexdigits.Length
      invariant HexFrom(hexdigits[..], i, value) == HexFrom(hexdigits[..], 0, 0)
    {
      var b := hexdigits[i];
      var digit;
      if 0x30 <= b <= 0x39 {
        digit := b - 0x30;
      } else if 0x41 <= b <= 0x46 {
        digit := (b - 0x41) + 10;
      } else {
        digit := (b - 0x61) + 10;
      }
      if value * 16 + digit > INT_MAX {
        return false, 0;
      }
      value := value * 16 + digit;
      i := i + 1;
    }
    ok := i < hexdigits.Length;
  }

  lemma NextSlice(s: bytes, i: nat, n: nat)
    requires i + n <= |s|
    ensures s[i..][..n] == s[i..i + n] && s[i..][n..] == s[i + n..] && s[..i + n] == s[..i] + s[i..i + n]
  {
  }

  /** Both loops around read(): until `length` bytes are there, or the connection is closed. */
  method Fill(fd: Socket, body: array<byte>, total: nat, length: nat) returns (ok: bool)
    requires total + length <= body.Length
    modifies fd, body
    ensures ok == (length <= |old(fd.stream)|)
    ensures ok ==> fd.stream == old(fd.stream)[length..]
    ensures ok ==> body[..total + length] == old(body[..total]) + old(fd.stream)[..length]
  {
    ghost var s, before := fd.stream, body[..total];
    var soFar := 0;
    while soFar != length
      invariant 0 <= soFar <= length && soFar <= |s| && fd.stream == s[soFar..]
      invariant body[..total + soFar] == before + s[..soFar]
      decreases length - soFar
    {
      var readLength := fd.Read(body, total + soFar, length - soFar);
      if readLength == 0 {
        return false;
      }
      NextSlice(s, soFar, readLength);
      NextSlice(body[..], total + soFar, readLength);
      Right3(before, s[..soFar], s[soFar..soFar + readLength]);
      soFar := soFar + readLength;
    }
    ok := true;
  }

  /** realloc: a larger block with the same bytes in front. */
  method Reallocate(body: array<byte>, size: nat) returns (larger: array<byte>)
    requires body.Length <= size
    ensures fresh(larger) && larger.Length == size && larger[..body.Length] == body[..]
  {
    larger := new byte[size];
    forall i | 0 <= i < body.Length {
      larger[i] := body[i];
    }
  }

  /** The same when there is space for it. */
  function AfterSpace(s: bytes, data: bytes, memory: nat, hex: bytes, temp: bytes, maxSize: int, n: nat): Outcome
    requires |hex| == 10 && |temp| == 5 && n > 0
  {
    if |s| < n then Status(400)
    else
      var t := ReadLine(s[n..], temp, 2);
      if !LineEnds(t.buf) then Status(400)
      else Chunked(t.rest, data + s[..n], memory, hex, t.buf, maxSize)
  }

  /** What a chunk of `n` bytes leads to, when its size has been read. */
  function AfterSize(s: bytes, data: bytes, memory: nat, hex: bytes, temp: bytes, maxSize: int, n: nat): Outcome
    requires |hex| == 10 && |temp| == 5 && n > 0
  {
    if n + |data| + 1 > INT_MAX then Undefined
    else if n + |data| + 1 > memory && memory + n + 1 > INT_MAX then Undefined
    else if n + |data| + 1 > memory && memory + n + 1 > maxSize then Status(400)
    else AfterSpace(s, data, Grown(n, |data|, memory), hex, temp, maxSize, n)
  }

  lemma ChunkedStep(s: bytes, data: bytes, memory: nat, hex: bytes, temp: bytes, maxSize: int)
    requires |hex| == 10 && |temp| == 5
    ensures var l := ReadLine(s, hex, 9);
            var n := HexFrom(l.buf, 0, 0);
            var want :=
              if l.ret == -1 then Status(414)
              else if n.None? then Undefined
              else if n.value == 0 then Body(data, ReadLine(l.rest, temp, 4).rest)
              else AfterSize(l.rest, data, memory, l.buf, temp, maxSize, n.value);
            Chunked(s, data, memory, hex, temp, maxSize) == want
  {
    hide ReadLine;
    hide HexFrom;
  }

  /** The data of one chunk and the line end behind them. */
  method ReadData(fd: Socket, body: array<byte>, total: nat, n: nat, temp: array<byte>) returns (ok: bool)
    requires total + n <= body.Length && temp.Length == 5 && body != temp
    modifies fd, body, temp
    ensures ok == (n <= |old(fd.stream)| && LineEnds(ReadLine(old(fd.stream)[n..], old(temp[..]), 2).buf))
    ensures ok ==> body[..total + n] == old(body[..total]) + old(fd.stream)[..n]
    ensures ok ==> var t := ReadLine(old(fd.stream)[n..], old(temp[..]), 2); temp[..] == t.buf && fd.stream == t.rest
  {
    hide ReadLine;
    ok := Fill(fd, body, total, n);
    if !ok {
      return;
    }
    var _ := ReadLineInto(fd, temp, 2);
    ok := temp[0] == LF || (temp[0] == CR && temp[1] == LF);
  }

  // ----- well-formed chunked bodies (section 7.1 of RFC 9112) -----

  function HexOf(size: bytes): nat
    requires AllHex(size)
  {
    if size == [] then 0 else HexOf(size[..|size| - 1]) * 16 + HexValue(size[|size| - 1])
  }

  /** A chunk-size of at most seven digits. */
  predicate IsSize(size: bytes, n: nat) {
    1 <= |size| <= 7 && AllHex(size) && HexOf(size) == n
  }

  datatype Chunk = Chunk(size: bytes, data: bytes)

  predicate GoodChunk(c: Chunk) {
    c.data != [] && IsSize(c.size, |c.data|)
  }

  function Sent(cs: seq<Chunk>): bytes {
    if cs == [] then [] else cs[0].size + CRLF + cs[0].data + CRLF + Sent(cs[1..])
  }

  /** chunked-body without extensions and trailers. */
  function Encoded(cs: seq<Chunk>, last: bytes): bytes {
    Sent(cs) + (last + CRLF + CRLF)
  }

  function Joined(cs: seq<Chunk>): bytes {
    if cs == [] then [] else cs[0].data + Joined(cs[1..])
  }

  datatype Space = Enough | TooLarge | Overflow

  /** Whether the memory can grow for all the chunks. */
  function Room(cs: seq<Chunk>, total: nat, memory: nat, maxSize: int): Space {
    if cs == [] then Enough
    else
      var n := |cs[0].data|;
      if n + total + 1 > INT_MAX || (n + total + 1 > memory && memory + n + 1 > INT_MAX) then Overflow
      else if n + total + 1 > memory && memory + n + 1 > maxSize then TooLarge
      else Room(cs[1..], total + n, Grown(n, total, memory), maxSize)
  }

  /** The size of the memory after all the chunks. */
  function Memory(cs: seq<Chunk>, total: nat, memory: nat): nat {
    if cs == [] then memory
    else Memory(cs[1..], total + |cs[0].data|, Grown(|cs[0].data|, total, memory))
  }

  /** The most memory the chunks can ask for. */
  function Demand(cs: seq<Chunk>): nat {
    if cs == [] then 0 else |cs[0].data| + 1 + Demand(cs[1..])
  }

  lemma {:induction false} DemandIsEnough(cs: seq<Chunk>, total: nat, memory: nat, maxSize: int)
    requires total < memory && memory + Demand(cs) <= maxSize <= INT_MAX
    ensures Room(cs, total, memory, maxSize) == Enough
  {
    if cs != [] {
      var n := |cs[0].data|;
      DemandIsEnough(cs[1..], total + n, Grown(n, total, memory), maxSize);
    }
  }

  /** A line that fits is read up to its end. */
  lemma {:induction false} LineRead(x: bytes, more: bytes, buf: bytes, pos: nat, maxLen: nat)
    requires pos + |x| < maxLen < |buf| && forall i :: 0 <= i < |x| ==> x[i] != LF
    ensures LineFrom(x + [LF] + more, buf, pos, maxLen)
         == Line(pos + |x|, buf[..pos] + x + [LF, 0] + buf[pos + |x| + 2..], more)
    decreases |x|
  {
    var s := x + [LF] + more;
    if x == [] {
      assert s[1..] == more;
      assert buf[pos := LF][pos + 1 := 0] == buf[..pos] + [] + [LF, 0] + buf[pos + 2..];
    } else {
      assert s[1..] == x[1..] + [LF] + more;
      var b := buf[pos := x[0]];
      LineRead(x[1..], more, b, pos + 1, maxLen);
      assert b[..pos + 1] + x[1..] == buf[..pos] + x;
      assert b[pos + 1 + |x[1..]| + 2..] == buf[pos + |x| + 2..];
    }
  }

  lemma {:induction false} HexSmall(size: bytes)
    requires AllHex(size) && |size| <= 7
    ensures HexOf(size) < [0x1, 0x10, 0x100, 0x1000, 0x1_0000, 0x10_0000, 0x100_0000, 0x1000_0000][|size|]
  {
    if size != [] {
      HexSmall(size[..|size| - 1]);
    }
  }

  lemma {:induction false} HexRead(buf: bytes, size: bytes, i: nat)
    requires |size| <= 7 && AllHex(size) && i <= |size| < |buf| && buf[..|size|] == size && !IsHex(buf[|size|])
    ensures HexFrom(buf, i, HexOf(size[..i])) == Some(HexOf(size))
    decreases |size| - i
  {
    if i < |size| {
      assert buf[i] == size[i];
      assert size[..i + 1][..i] == size[..i];
      HexSmall(size[..i + 1]);
      HexRead(buf, size, i + 1);
    } else {
      assert size[..i] == size;
    }
  }

  /** A buffer whose front is overwritten. */
  function Over(front: bytes, buf: bytes): bytes {
    front + if |front| <= |buf| then buf[|front|..] else []
  }

  /** The size buffer after the lines of the chunks. */
  function SizeBuffer(cs: seq<Chunk>, hex: bytes): bytes {
    if cs == [] then hex else SizeBuffer(cs[1..], Over(cs[0].size + CRLF + [0], hex))
  }

  lemma SizeOver(size: bytes, buf: bytes)
    requires |size| <= 7 && |buf| == 10
    ensures var (x, b) := (size + [CR], buf[0 := 0]);
            b[..0] + x + [LF, 0] + b[0 + |x| + 2..] == Over(size + CRLF + [0], buf)
  {
    assert buf[0 := 0][|size| + 3..] == buf[|size| + 3..];
    assert [] + (size + [CR]) + [LF, 0] == size + CRLF + [0];
  }

  lemma SizeLineIs(size: bytes, more: bytes, buf: bytes)
    requires AllHex(size) && |size| <= 7 && |buf| == 10
    ensures ReadLine(size + CRLF + more, buf, 9) == Line(|size| + 1, Over(size + CRLF + [0], buf), more)
  {
    var x := size + [CR];
    assert size + CRLF + more == x + [LF] + more by {
      assert CRLF == [CR] + [LF];
      Right3(size, [CR], [LF]);
    }
    LineRead(x, more, buf[0 := 0], 0, 9);
    SizeOver(size, buf);
    hide LineFrom;
    hide Over;
  }

  /** The line of a chunk-size. */
  lemma SizeLine(size: bytes, n: nat, more: bytes, buf: bytes)
    requires IsSize(size, n) && |buf| == 10
    ensures var l := ReadLine(size + CRLF + more, buf, 9);
            && l.ret >= 0 && l.rest == more && HexFrom(l.buf, 0, 0) == Some(n)
            && l.buf == Over(size + CRLF + [0], buf)
  {
    SizeLineIs(size, more, buf);
    hide ReadLine;
    var b := Over(size + CRLF + [0], buf);
    assert b[..|size|] == size && b[|size|] == CR;
    HexRead(b, size, 0);
    assert size[..0] == [];
  }

  lemma EndLine(more: bytes, buf: bytes, maxLen: nat)
    requires 2 <= maxLen < |buf|
    ensures var l := ReadLine(CRLF + more, buf, maxLen);
            l.rest == more && l.buf[0] == CR && l.buf[1] == LF
  {
    assert CRLF + more == [CR] + [LF] + more;
    LineRead([CR], more, buf[0 := 0], 0, maxLen);
  }

  /** One chunk. */
  lemma ChunkRead(c: Chunk, more: bytes, data: bytes, memory: nat, hex: bytes, temp: bytes, maxSize: int)
    returns (hex': bytes, temp': bytes)
    requires GoodChunk(c) && |hex| == 10 && |temp| == 5
    ensures |hex'| == 10 && |temp'| == 5 && hex' == Over(c.size + CRLF + [0], hex) && temp'[1] == LF
    ensures var n, s := |c.data|, c.size + CRLF + c.data + CRLF + more;
            var want :=
              if n + |data| + 1 > INT_MAX || (n + |data| + 1 > memory && memory + n + 1 > INT_MAX) then Undefined
              else if n + |data| + 1 > memory && memory + n + 1 > maxSize then Status(400)
              else Chunked(more, data + c.data, Grown(n, |data|, memory), hex', temp', maxSize);
            Chunked(s, data, memory, hex, temp, maxSize) == want
  {
    hide ReadLine;
    hide HexFrom;
    hide Chunked;
    var n, tail := |c.data|, c.data + (CRLF + more);
    Right5(c.size, CRLF, c.data, CRLF, more);
    Right3(c.size, CRLF, tail);
    SizeLine(c.size, n, tail, hex);
    var s := c.size + CRLF + tail;
    ChunkedStep(s, data, memory, hex, temp, maxSize);
    hex' := ReadLine(s, hex, 9).buf;
    assert tail[..n] == c.data && tail[n..] == CRLF + more;
    EndLine(more, temp, 2);
    temp' := ReadLine(CRLF + more, temp, 2).buf;
  }

  lemma LastRead(last: bytes, rest: bytes, data: bytes, memory: nat, hex: bytes, temp: bytes, maxSize: int)
    requires IsSize(last, 0) && |hex| == 10 && |temp| == 5
    ensures Chunked(last + CRLF + CRLF + rest, data, memory, hex, temp, maxSize) == Body(data, rest)
  {
    hide ReadLine;
    hide HexFrom;
    hide Chunked;
    Right4(last, CRLF, CRLF, rest);
    Right3(last, CRLF, CRLF + rest);
    SizeLine(last, 0, CRLF + rest, hex);
    ChunkedStep(last + CRLF + (CRLF + rest), data, memory, hex, temp, maxSize);
    EndLine(rest, temp, 4);
  }

  /** Many chunks, and what follows them. */
  lemma {:induction false} ChunksRead(cs: seq<Chunk>, tail: bytes,
                                      data: bytes, memory: nat, hex: bytes, temp: bytes, maxSize: int)
    returns (hex': bytes, temp': bytes)
    requires (forall i :: 0 <= i < |cs| ==> GoodChunk(cs[i])) && |hex| == 10 && |temp| == 5
    ensures |hex'| == 10 && |temp'| == 5
    ensures hex' == SizeBuffer(cs, hex) && if cs == [] then temp' == temp else temp'[1] == LF
    ensures Chunked(Sent(cs) + tail, data, memory, hex, temp, maxSize)
         == match Room(cs, |data|, memory, maxSize)
            case Enough => Chunked(tail, data + Joined(cs), Memory(cs, |data|, memory), hex', temp', maxSize)
            case TooLarge => Status(400)
            case Overflow => Undefined
    decreases |cs|
  {
    hide Chunked;
    hide GoodChunk;
    if cs == [] {
      hex', temp' := hex, temp;
      assert [] + tail == tail && data + [] == data;
    } else {
      var c, more := cs[0], Sent(cs[1..]) + tail;
      Right3(c.size + CRLF + c.data + CRLF, Sent(cs[1..]), tail);
      hex', temp' := ChunkRead(c, more, data, memory, hex, temp, maxSize);
      hex', temp' := ChunksRead(cs[1..], tail, data + c.data, Grown(|c.data|, |data|, memory), hex', temp', maxSize);
      Right3(data, c.data, Joined(cs[1..]));
    }
  }

  /**
   A well-formed chunked body is delivered whole, with nothing read beyond it, exactly when the memory for
   it can grow within the limit.
   */
  lemma BodyRead(cs: seq<Chunk>, last: bytes, rest: bytes, data: bytes, memory: nat, hex: bytes, temp: bytes,
                 maxSize: int)
    requires (forall i :: 0 <= i < |cs| ==> GoodChunk(cs[i])) && IsSize(last, 0) && |hex| == 10 && |temp| == 5
    ensures Chunked(Encoded(cs, last) + rest, data, memory, hex, temp, maxSize)
         == match Room(cs, |data|, memory, maxSize)
            case Enough => Body(data + Joined(cs), rest)
            case TooLarge => Status(400)
            case Overflow => Undefined
  {
    hide Chunked;
    hide GoodChunk;
    var tail := last + CRLF + CRLF;
    Right3(Sent(cs), tail, rest);
    var hex', temp' := ChunksRead(cs, tail + rest, data, memory, hex, temp, maxSize);
    LastRead(last, rest, data + Joined(cs), Memory(cs, |data|, memory), hex', temp', maxSize);
  }

  /**
   A body that breaks off between its chunks, before the last-chunk, is not told from a complete one: what
   has come of it is returned, with status 200.
   */
  lemma BrokenOff(cs: seq<Chunk>, data: bytes, memory: nat, hex: bytes, temp: bytes, maxSize: int)
    requires (forall i :: 0 <= i < |cs| ==> GoodChunk(cs[i])) && |hex| == 10 && |temp| == 5
    ensures Chunked(Sent(cs), data, memory, hex, temp, maxSize)
         == match Room(cs, |data|, memory, maxSize)
            case Enough => Body(data + Joined(cs), [])
            case TooLarge => Status(400)
            case Overflow => Undefined
  {
    hide Chunked;
    hide GoodChunk;
    assert Sent(cs) + [] == Sent(cs);
    var hex', temp' := ChunksRead(cs, [], data, memory, hex, temp, maxSize);
    ChunkedStep([], data + Joined(cs), Memory(cs, |data|, memory), hex', temp', maxSize);
  }

  lemma ChunkSize(c: Chunk)
    requires GoodChunk(c)
    ensures IsSize(c.size, |c.data|)
  {
  }

  lemma {:induction false} RoomMore(cs: seq<Chunk>, c: Chunk, total: nat, memory: nat, maxSize: int)
    ensures Room(cs + [c], total, memory, maxSize)
         == if Room(cs, total, memory, maxSize) != Enough then Room(cs, total, memory, maxSize)
            else Room([c], total + |Joined(cs)|, Memory(cs, total, memory), maxSize)
    decreases |cs|
  {
    if cs == [] {
      assert [] + [c] == [c];
    } else {
      var n := |cs[0].data|;
      RoomMore(cs[1..], c, total + n, Grown(n, total, memory), maxSize);
      assert (cs + [c])[1..] == cs[1..] + [c];
    }
  }

  /** A body that breaks off inside the data of a chunk is refused. */
  lemma CutInData(cs: seq<Chunk>, c: Chunk, k: nat, data: bytes, memory: nat, hex: bytes, temp: bytes, maxSize: int)
    requires (forall i :: 0 <= i < |cs| ==> GoodChunk(cs[i])) && GoodChunk(c) && k < |c.data|
    requires |hex| == 10 && |temp| == 5
    ensures Chunked(Sent(cs) + (c.size + CRLF + c.data[..k]), data, memory, hex, temp, maxSize)
         == if Room(cs + [c], |data|, memory, maxSize) == Overflow then Undefined else Status(400)
  {
    hide Chunked;
    hide GoodChunk;
    hide ReadLine;
    hide HexFrom;
    var tail, all := c.size + CRLF + c.data[..k], data + Joined(cs);
    var hex', temp' := ChunksRead(cs, tail, data, memory, hex, temp, maxSize);
    ChunkSize(c);
    SizeLine(c.size, |c.data|, c.data[..k], hex');
    ChunkedStep(tail, all, Memory(cs, |data|, memory), hex', temp', maxSize);
    RoomMore(cs, c, |data|, memory, maxSize);
  }

  /** In particular it is delivered when the limit leaves a byte for each chunk besides its data and 1024 more. */
  lemma BodyDelivered(cs: seq<Chunk>, last: bytes, rest: bytes, hex: bytes, temp: bytes, maxSize: int)
    requires (forall i :: 0 <= i < |cs| ==> GoodChunk(cs[i])) && IsSize(last, 0) && |hex| == 10 && |temp| == 5
    requires 1024 + Demand(cs) <= maxSize <= INT_MAX
    ensures Chunked(Encoded(cs, last) + rest, [], 1024, hex, temp, maxSize) == Body(Joined(cs), rest)
  {
    hide Chunked;
    hide GoodChunk;
    BodyRead(cs, last, rest, [], 1024, hex, temp, maxSize);
    DemandIsEnough(cs, 0, 1024, maxSize);
    assert [] + Joined(cs) == Joined(cs);
  }
}
