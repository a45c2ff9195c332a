/**
 The line buffers of read_body start with indeterminate bytes, and a line that breaks off at the end of
 the stream leaves some of them in place. This module says exactly when the outcome depends on them.
 */
module ReadBodyEnds {
  import opened Bytes
  import opened ReadBody

  ghost predicate Agree(x: bytes, y: bytes, k: nat) {
    |x| == |y| && k <= |x| && x[..k] == y[..k]
  }

  // ----- lines -----

  /** How many bytes of the buffer the loop of readLine has set when it stops. */
  function WrittenFrom(s: bytes, pos: nat, maxLen: nat): (n: nat)
    requires pos <= maxLen
    ensures pos <= n <= maxLen + 1
    decreases maxLen - pos
  {
    if pos == maxLen || s == [] then pos
    else if s[0] == LF then pos + 2
    else WrittenFrom(s[1..], pos + 1, maxLen)
  }

  function Written(s: bytes, maxLen: nat): (n: nat)
    requires 0 < maxLen
    ensures 1 <= n <= maxLen + 1
  {
    var n := WrittenFrom(s, 0, maxLen);
    if n == 0 then 1 else n
  }

  lemma {:induction false} LineFromAgree(s: bytes, x: bytes, y: bytes, pos: nat, maxLen: nat, k: nat)
    requires pos <= maxLen < |x| && pos <= k && Agree(x, y, k)
    ensures var (l, l', n) := (LineFrom(s, x, pos, maxLen), LineFrom(s, y, pos, maxLen), WrittenFrom(s, pos, maxLen));
            l.ret == l'.ret && l.rest == l'.rest && Agree(l.buf, l'.buf, if n < k then k else n)
    decreases maxLen - pos
  {
    if pos < maxLen && s != [] {
      if s[0] == LF {
        var x', y' := x[pos := LF][pos + 1 := 0], y[pos := LF][pos + 1 := 0];
        var n := if pos + 2 < k then k else pos + 2;
        assert forall i :: 0 <= i < k ==> x[i] == x[..k][i] == y[..k][i] == y[i];
        assert x'[..n] == y'[..n];
      } else {
        var x', y' := x[pos := s[0]], y[pos := s[0]];
        var n := if pos < k then k else pos + 1;
        assert forall i :: 0 <= i < k ==> x[i] == x[..k][i] == y[..k][i] == y[i];
        assert x'[..n] == y'[..n];
        LineFromAgree(s[1..], x', y', pos + 1, maxLen, n);
      }
    }
  }

  lemma {:induction false} LineFromKeeps(s: bytes, x: bytes, pos: nat, maxLen: nat)
    requires pos <= maxLen < |x|
    ensures var n := WrittenFrom(s, pos, maxLen); LineFrom(s, x, pos, maxLen).buf[n..] == x[n..]
    decreases maxLen - pos
  {
    if pos < maxLen && s != [] && s[0] != LF {
      LineFromKeeps(s[1..], x[pos := s[0]], pos + 1, maxLen);
    }
  }

  /** Buffers that agree at the front give the same line, and agree on what it sets as well. */
  lemma LineAgree(s: bytes, x: bytes, y: bytes, maxLen: nat, k: nat)
    requires 0 < maxLen < |x| && Agree(x, y, k)
    ensures var (l, l', n) := (ReadLine(s, x, maxLen), ReadLine(s, y, maxLen), Written(s, maxLen));
            l.ret == l'.ret && l.rest == l'.rest && Agree(l.buf, l'.buf, if n < k then k else n)
  {
    var x', y', k' := x[0 := 0], y[0 := 0], if k == 0 then 1 else k;
    assert forall i :: 0 <= i < k ==> x[i] == x[..k][i] == y[..k][i] == y[i];
    assert x'[..k'] == y'[..k'];
    LineFromAgree(s, x', y', 0, maxLen, k');
  }

  lemma LineKeeps(s: bytes, x: bytes, maxLen: nat)
    requires 0 < maxLen < |x|
    ensures var n := Written(s, maxLen); ReadLine(s, x, maxLen).buf[n..] == x[n..]
  {
    LineFromKeeps(s, x[0 := 0], 0, maxLen);
    var b, n := ReadLine(s, x, maxLen).buf, WrittenFrom(s, 0, maxLen);
    if n == 0 {
      assert b[0..][1..] == b[1..] && x[0 := 0][0..][1..] == x[1..];
    }
  }

  /** A line that does not break off has its newline among the bytes set. */
  lemma {:induction false} LineEndsSet(s: bytes, x: bytes, pos: nat, maxLen: nat)
    requires pos <= maxLen < |x|
    requires var l := LineFrom(s, x, pos, maxLen); l.ret != -1 && l.rest != []
    ensures var n := WrittenFrom(s, pos, maxLen); pos + 2 <= n && LineFrom(s, x, pos, maxLen).buf[n - 2] == LF
    decreases maxLen - pos
  {
    if pos < maxLen && s != [] && s[0] != LF {
      LineEndsSet(s[1..], x[pos := s[0]], pos + 1, maxLen);
    }
  }

  // ----- sizes -----

  /** Whether the first `k` bytes of the buffer decide what chunkHexToInt makes of it. */
  predicate Decided(buf: bytes, i: nat, value: nat, k: nat)
    requires i <= k <= |buf|
    decreases k - i
  {
    if i == k then k == |buf|
    else
      || !IsHex(buf[i])
      || value * 16 + HexValue(buf[i]) > INT_MAX
      || Decided(buf, i + 1, value * 16 + HexValue(buf[i]), k)
  }

  /** The value of the digits up to `k`. */
  function DigitsTo(buf: bytes, i: nat, value: nat, k: nat): nat
    requires i <= k <= |buf|
    decreases k - i
  {
    if i == k || !IsHex(buf[i]) then value else DigitsTo(buf, i + 1, value * 16 + HexValue(buf[i]), k)
  }

  lemma AgreeAt(x: bytes, y: bytes, k: nat, i: nat)
    requires Agree(x, y, k) && i < k
    ensures x[i] == y[i]
  {
    assert x[i] == x[..k][i] && y[i] == y[..k][i];
  }

  lemma {:induction false} DecidedAgree(x: bytes, y: bytes, i: nat, value: nat, k: nat)
    requires i <= k && Agree(x, y, k)
    ensures Decided(x, i, value, k) == Decided(y, i, value, k)
    ensures Decided(x, i, value, k) ==> HexFrom(x, i, value) == HexFrom(y, i, value)
    ensures !Decided(x, i, value, k) ==> DigitsTo(x, i, value, k) == DigitsTo(y, i, value, k)
    decreases k - i
  {
    if i < k {
      AgreeAt(x, y, k, i);
      if IsHex(x[i]) && value * 16 + HexValue(x[i]) <= INT_MAX {
        DecidedAgree(x, y, i + 1, value * 16 + HexValue(x[i]), k);
      }
    }
  }

  lemma {:induction false} DecidedBy(x: bytes, i: nat, value: nat, k: nat, j: nat)
    requires i <= j < k <= |x| && !IsHex(x[j])
    ensures Decided(x, i, value, k)
    decreases k - i
  {
    if i < j && IsHex(x[i]) {
      DecidedBy(x, i + 1, value * 16 + HexValue(x[i]), k, j);
    }
  }

  lemma {:induction false} HexGrows(x: bytes, i: nat, value: nat)
    requires i <= |x|
    ensures HexFrom(x, i, value).Some? ==> HexFrom(x, i, value).value >= value
    decreases |x| - i
  {
    if i < |x| && IsHex(x[i]) {
      HexGrows(x, i + 1, value * 16 + HexValue(x[i]));
    }
  }

  lemma {:induction false} HexRunsOff(x: bytes, i: nat, value: nat)
    requires i <= |x| && forall j :: i <= j < |x| ==> IsHex(x[j])
    ensures HexFrom(x, i, value) == None
    decreases |x| - i
  {
    if i < |x| {
      HexRunsOff(x, i + 1, value * 16 + HexValue(x[i]));
    }
  }

  /** Undecided digits: a terminator behind them gives their value, digits to the end of the buffer nothing. */
  lemma {:induction false} UndecidedEnds(x: bytes, i: nat, value: nat, k: nat)
    requires i <= k <= |x| && !Decided(x, i, value, k)
    ensures k < |x|
    ensures !IsHex(x[k]) ==> HexFrom(x, i, value) == Some(DigitsTo(x, i, value, k))
    ensures (forall j :: k <= j < |x| ==> IsHex(x[j])) ==> HexFrom(x, i, value) == None
    ensures HexFrom(x, i, value).Some? ==> HexFrom(x, i, value).value >= DigitsTo(x, i, value, k)
    decreases k - i
  {
    if i < k {
      UndecidedEnds(x, i + 1, value * 16 + HexValue(x[i]), k);
    } else {
      HexGrows(x, i, value);
      if forall j :: k <= j < |x| ==> IsHex(x[j]) {
        HexRunsOff(x, i, value);
      }
    }
  }

  // ----- bodies -----

  /** A chunk of `n` bytes makes a sum in the branch overflow. */
  predicate Overflows(n: nat, total: nat, memory: nat) {
    n + total + 1 > INT_MAX || (n + total + 1 > memory && memory + n + 1 > INT_MAX)
  }

  /**
   The outcome is settled when the first `a` bytes of the size buffer are known and, if `b`, the first two
   of the other. It is not when the stream ends in a size line of digits only, at least as long as what is
   known of the buffer, or in a lone CR behind the data of the first chunk.
   */
  predicate Settled(s: bytes, data: bytes, memory: nat, hex: bytes, temp: bytes, a: nat, b: bool, maxSize: int)
    requires |hex| == 10 && |temp| == 5 && a <= 10
    decreases |s|
  {
    var l := ReadLine(s, hex, 9);
    var k := if a < Written(s, 9) then Written(s, 9) else a;
    if l.ret == -1 then true
    else if !Decided(l.buf, 0, 0, k) then
      var n := DigitsTo(l.buf, 0, 0, k);
      n > 0 && Overflows(n, |data|, memory)
    else
      match HexFrom(l.buf, 0, 0)
      case None => true
      case Some(n) =>
        if || n == 0 || Overflows(n, |data|, memory)
           || (n + |data| + 1 > memory && memory + n + 1 > maxSize) || |l.rest| < n then true
        else
          var rest := l.rest[n..];
          var t := ReadLine(rest, temp, 2);
          if rest == [CR] && !b then false
          else
            || !LineEnds(t.buf)
            || Settled(t.rest, data + l.rest[..n], Grown(n, |data|, memory), l.buf, t.buf, k, true, maxSize)
  }

  /** What a size line that gives `n` leads to. */
  lemma AfterLine(s: bytes, data: bytes, memory: nat, hex: bytes, temp: bytes, maxSize: int, n: nat)
    requires |hex| == 10 && |temp| == 5
    requires var l := ReadLine(s, hex, 9); l.ret != -1 && HexFrom(l.buf, 0, 0) == Some(n)
    ensures var l := ReadLine(s, hex, 9);
            var want :=
              if n == 0 then Body(data, ReadLine(l.rest, temp, 4).rest)
              else if Overflows(n, |data|, memory) then Undefined
              else if n + |data| + 1 > memory && memory + n + 1 > maxSize then Status(400)
              else if |l.rest| < n then Status(400)
              else
                var t := ReadLine(l.rest[n..], temp, 2);
                if !LineEnds(t.buf) then Status(400)
                else Chunked(t.rest, data + l.rest[..n], Grown(n, |data|, memory), l.buf, t.buf, maxSize);
            Chunked(s, data, memory, hex, temp, maxSize) == want
  {
    hide ReadLine;
    hide HexFrom;
    ChunkedStep(s, data, memory, hex, temp, maxSize);
  }

  /** The line end behind the data: known if it is not a lone CR at the end of the stream. */
  lemma SecondLine(s: bytes, x: bytes, y: bytes, b: bool)
    requires |x| == |y| == 5 && (b ==> Agree(x, y, 2)) && (s != [CR] || b)
    ensures var (t, t') := (ReadLine(s, x, 2), ReadLine(s, y, 2));
            t.rest == t'.rest && LineEnds(t.buf) == LineEnds(t'.buf) && (LineEnds(t.buf) ==> Agree(t.buf, t'.buf, 2))
  {
    LineAgree(s, x, y, 2, if b then 2 else 0);
    var (t, t') := (ReadLine(s, x, 2), ReadLine(s, y, 2));
    AgreeAt(t.buf, t'.buf, Written(s, 2), 0);
    if b || |s| >= 2 || (s != [] && s[0] == LF) {
      assert Agree(t.buf, t'.buf, 2);
      AgreeAt(t.buf, t'.buf, 2, 1);
    }
  }

  /** If the digits are undecided, the stream ended in them. */
  lemma UndecidedIsEnd(s: bytes, hex: bytes, k: nat)
    requires |hex| == 10 && Written(s, 9) <= k <= 10
    requires var l := ReadLine(s, hex, 9); l.ret != -1 && !Decided(l.buf, 0, 0, k)
    ensures ReadLine(s, hex, 9).rest == []
  {
    var l := ReadLine(s, hex, 9);
    if l.rest != [] {
      LineEndsSet(s, hex[0 := 0], 0, 9);
      DecidedBy(l.buf, 0, 0, k, Written(s, 9) - 2);
    }
  }

  /** What undecided digits lead to, by the byte that happens to stand behind them. */
  lemma UndecidedLeads(s: bytes, data: bytes, memory: nat, hex: bytes, temp: bytes, k: nat, maxSize: int)
    requires |hex| == 10 && |temp| == 5 && Written(s, 9) <= k <= 10
    requires var l := ReadLine(s, hex, 9); l.ret != -1 && !Decided(l.buf, 0, 0, k)
    ensures k < 10
    ensures var (l, r) := (ReadLine(s, hex, 9), Chunked(s, data, memory, hex, temp, maxSize));
            var n := DigitsTo(l.buf, 0, 0, k);
            && (n > 0 && Overflows(n, |data|, memory) ==> r == Undefined)
            && (!(n > 0 && Overflows(n, |data|, memory)) && !IsHex(l.buf[k]) ==> r != Undefined)
            && ((forall j :: k <= j < 10 ==> IsHex(l.buf[j])) ==> r == Undefined)
  {
    hide ReadLine;
    hide HexFrom;
    hide Decided;
    hide DigitsTo;
    hide Chunked;
    var l := ReadLine(s, hex, 9);
    UndecidedEnds(l.buf, 0, 0, k);
    UndecidedIsEnd(s, hex, k);
    ChunkedStep(s, data, memory, hex, temp, maxSize);
    if HexFrom(l.buf, 0, 0).Some? {
      AfterLine(s, data, memory, hex, temp, maxSize, HexFrom(l.buf, 0, 0).value);
    }
  }

  /** A settled outcome is the same for all buffers that agree on what is known. */
  lemma {:induction false} SettledIsSame(s: bytes, data: bytes, memory: nat, hex: bytes, temp: bytes, a: nat, b: bool,
                                         maxSize: int, hex': bytes, temp': bytes)
    requires |hex| == |hex'| == 10 && |temp| == |temp'| == 5 && a <= 10
    requires Agree(hex, hex', a) && (b ==> Agree(temp, temp', 2))
    requires Settled(s, data, memory, hex, temp, a, b, maxSize)
    ensures Chunked(s, data, memory, hex, temp, maxSize) == Chunked(s, data, memory, hex', temp', maxSize)
    decreases |s|
  {
    hide ReadLine;
    hide HexFrom;
    hide Chunked;
    hide Decided;
    hide DigitsTo;
    var (l, l') := (ReadLine(s, hex, 9), ReadLine(s, hex', 9));
    var k := if a < Written(s, 9) then Written(s, 9) else a;
    LineAgree(s, hex, hex', 9, a);
    DecidedAgree(l.buf, l'.buf, 0, 0, k);
    ChunkedStep(s, data, memory, hex, temp, maxSize);
    ChunkedStep(s, data, memory, hex', temp', maxSize);
    if l.ret != -1 {
      if !Decided(l.buf, 0, 0, k) {
        UndecidedLeads(s, data, memory, hex, temp, k, maxSize);
        UndecidedLeads(s, data, memory, hex', temp', k, maxSize);
      } else if HexFrom(l.buf, 0, 0).Some? {
        var n := HexFrom(l.buf, 0, 0).value;
        AfterLine(s, data, memory, hex, temp, maxSize, n);
        AfterLine(s, data, memory, hex', temp', maxSize, n);
        LineAgree(l.rest, temp, temp', 4, 0);
        if 0 < n <= |l.rest| && (l.rest[n..] != [CR] || b) {
          var rest := l.rest[n..];
          SecondLine(rest, temp, temp', b);
          var (t, t') := (ReadLine(rest, temp, 2), ReadLine(rest, temp', 2));
          if Settled(t.rest, data + l.rest[..n], Grown(n, |data|, memory), l.buf, t.buf, k, true, maxSize)
            && LineEnds(t.buf) {
            SettledIsSame(t.rest, data + l.rest[..n], Grown(n, |data|, memory), l.buf, t.buf, k, true, maxSize,
                l'.buf, t'.buf);
          }
        }
      }
    }
  }

  lemma DropMore(x: bytes, y: bytes, n: nat, k: nat)
    requires n <= k <= |x| == |y| && x[n..] == y[n..]
    ensures x[k..] == y[k..]
  {
    assert x[k..] == x[n..][k - n..] && y[k..] == y[n..][k - n..];
  }

  /** A buffer that agrees with `hex` on `k` bytes and has `tail` behind them, and the line read into it. */
  lemma Completed(s: bytes, hex: bytes, k: nat, tail: bytes)
    requires |hex| == 10 && Written(s, 9) <= k <= 10 && |tail| == 10 - k
    ensures var (l, l') := (ReadLine(s, hex, 9), ReadLine(s, hex[..k] + tail, 9));
            l'.ret == l.ret && l'.rest == l.rest && l'.buf == l.buf[..k] + tail
  {
    hide ReadLine;
    hide Written;
    var hex' := hex[..k] + tail;
    assert hex'[..k] == hex[..k] && hex'[k..] == tail;
    LineAgree(s, hex, hex', 9, k);
    LineKeeps(s, hex', 9);
    var b', n := ReadLine(s, hex', 9).buf, Written(s, 9);
    DropMore(b', hex', n, k);
    assert b' == b'[..k] + b'[k..];
  }

  lemma EndOfStream(data: bytes, memory: nat, hex: bytes, temp: bytes, maxSize: int)
    requires |hex| == 10 && |temp| == 5
    ensures Chunked([], data, memory, hex, temp, maxSize) == Body(data, [])
  {
    ChunkedStep([], data, memory, hex, temp, maxSize);
  }

  lemma UndecidedDiffers(s: bytes, data: bytes, memory: nat, hex: bytes, temp: bytes, k: nat, maxSize: int)
    returns (hex1: bytes, hex2: bytes)
    requires |hex| == 10 && |temp| == 5 && Written(s, 9) <= k <= 10
    requires var l := ReadLine(s, hex, 9);
             l.ret != -1 && !Decided(l.buf, 0, 0, k)
             && !(DigitsTo(l.buf, 0, 0, k) > 0 && Overflows(DigitsTo(l.buf, 0, 0, k), |data|, memory))
    ensures Agree(hex, hex1, k) && Agree(hex, hex2, k)
    ensures Chunked(s, data, memory, hex1, temp, maxSize) != Chunked(s, data, memory, hex2, temp, maxSize)
  {
    hide ReadLine;
    hide HexFrom;
    hide Chunked;
    hide Decided;
    hide DigitsTo;
    hide Written;
    var l := ReadLine(s, hex, 9);
    UndecidedLeads(s, data, memory, hex, temp, k, maxSize);
    var x: bytes, y: bytes := seq(10 - k, _ => 0), seq(10 - k, _ => 0x66);
    hex1, hex2 := hex[..k] + x, hex[..k] + y;
    Completed(s, hex, k, x);
    Completed(s, hex, k, y);
    var (l1, l2) := (ReadLine(s, hex1, 9), ReadLine(s, hex2, 9));
    assert l1.buf[..k] == l.buf[..k] && l2.buf[..k] == l.buf[..k];
    assert forall j :: k <= j < 10 ==> l2.buf[j] == y[j - k] == 0x66;
    assert l1.buf[k] == x[0] == 0;
    DecidedAgree(l.buf, l1.buf, 0, 0, k);
    DecidedAgree(l.buf, l2.buf, 0, 0, k);
    UndecidedLeads(s, data, memory, hex1, temp, k, maxSize);
    UndecidedLeads(s, data, memory, hex2, temp, k, maxSize);
    assert hex1[..k] == hex[..k] && hex2[..k] == hex[..k];
  }

  /** A lone CR behind the data: a newline left in the buffer makes it a line end, anything else does not. */
  lemma LoneReturn(s: bytes, data: bytes, memory: nat, hex: bytes, temp: bytes, maxSize: int, n: nat)
    requires |hex| == 10 && |temp| == 5 && n > 0
    requires var l := ReadLine(s, hex, 9);
             l.ret != -1 && HexFrom(l.buf, 0, 0) == Some(n) && n <= |l.rest| && l.rest[n..] == [CR]
    requires !Overflows(n, |data|, memory) && !(n + |data| + 1 > memory && memory + n + 1 > maxSize)
    ensures Chunked(s, data, memory, hex, temp[1 := LF], maxSize)
            != Chunked(s, data, memory, hex, temp[1 := 0], maxSize)
  {
    hide HexFrom;
    hide Chunked;
    var x: bytes, y: bytes := temp[1 := LF], temp[1 := 0];
    AfterLine(s, data, memory, hex, x, maxSize, n);
    AfterLine(s, data, memory, hex, y, maxSize, n);
    var l := ReadLine(s, hex, 9);
    assert ReadLine([CR], x, 2) == Line(0, x[0 := CR], []) && ReadLine([CR], y, 2) == Line(0, y[0 := CR], []) by {
      assert [CR][1..] == [];
      assert x[0 := 0][0 := CR] == x[0 := CR] && y[0 := 0][0 := CR] == y[0 := CR];
    }
    EndOfStream(data + l.rest[..n], Grown(n, |data|, memory), l.buf, x[0 := CR], maxSize);
  }

  lemma AgreeLess(x: bytes, y: bytes, k: nat, a: nat)
    requires Agree(x, y, k) && a <= k
    ensures Agree(x, y, a)
  {
    assert x[..a] == x[..k][..a];
  }

  /** The buffer that comes to `h` behind the size line, and the rest of the run with it. */
  lemma Continues(s: bytes, data: bytes, memory: nat, hex: bytes, temp: bytes, k: nat, maxSize: int, n: nat, h: bytes)
    requires |hex| == 10 && |temp| == 5 && Written(s, 9) <= k <= 10 && n > 0
    requires var l := ReadLine(s, hex, 9);
             l.ret != -1 && Decided(l.buf, 0, 0, k) && HexFrom(l.buf, 0, 0) == Some(n) && n <= |l.rest|
    requires !Overflows(n, |data|, memory) && !(n + |data| + 1 > memory && memory + n + 1 > maxSize)
    requires LineEnds(ReadLine(ReadLine(s, hex, 9).rest[n..], temp, 2).buf)
    requires Agree(ReadLine(s, hex, 9).buf, h, k)
    ensures var hex' := hex[..k] + h[k..];
            var (l, t) := (ReadLine(s, hex, 9), ReadLine(ReadLine(s, hex, 9).rest[n..], temp, 2));
            && Agree(hex, hex', k)
            && Chunked(s, data, memory, hex', temp, maxSize)
            == Chunked(t.rest, data + l.rest[..n], Grown(n, |data|, memory), h, t.buf, maxSize)
  {
    hide ReadLine;
    hide HexFrom;
    hide Chunked;
    hide Decided;
    hide Written;
    var hex', l := hex[..k] + h[k..], ReadLine(s, hex, 9);
    Completed(s, hex, k, h[k..]);
    assert l.buf[..k] + h[k..] == h;
    DecidedAgree(l.buf, h, 0, 0, k);
    AfterLine(s, data, memory, hex', temp, maxSize, n);
    assert hex'[..k] == hex[..k];
  }

  /** An outcome that is not settled depends on the rest of the buffers. */
  lemma {:induction false} UnsettledDiffers(s: bytes, data: bytes, memory: nat, hex: bytes, temp: bytes,
                                            a: nat, b: bool, maxSize: int)
    returns (hex1: bytes, temp1: bytes, hex2: bytes, temp2: bytes)
    requires |hex| == 10 && |temp| == 5 && a <= 10
    requires !Settled(s, data, memory, hex, temp, a, b, maxSize)
    ensures |temp1| == |temp2| == 5 && (b ==> temp1 == temp2 == temp)
    ensures Agree(hex, hex1, a) && Agree(hex, hex2, a)
    ensures Chunked(s, data, memory, hex1, temp1, maxSize) != Chunked(s, data, memory, hex2, temp2, maxSize)
    decreases |s|
  {
    hide ReadLine;
    hide HexFrom;
    hide Chunked;
    hide Decided;
    hide DigitsTo;
    hide Written;
    var l := ReadLine(s, hex, 9);
    var k := if a < Written(s, 9) then Written(s, 9) else a;
    temp1, temp2 := temp, temp;
    if !Decided(l.buf, 0, 0, k) {
      hex1, hex2 := UndecidedDiffers(s, data, memory, hex, temp, k, maxSize);
    } else {
      var n := HexFrom(l.buf, 0, 0).value;
      var rest := l.rest[n..];
      if rest == [CR] && !b {
        hex1, hex2, temp1, temp2 := hex, hex, temp[1 := LF], temp[1 := 0];
        LoneReturn(s, data, memory, hex, temp, maxSize, n);
      } else {
        var t := ReadLine(rest, temp, 2);
        var h1, t1, h2, t2 :=
          UnsettledDiffers(t.rest, data + l.rest[..n], Grown(n, |data|, memory), l.buf, t.buf, k, true, maxSize);
        hex1, hex2 := hex[..k] + h1[k..], hex[..k] + h2[k..];
        Continues(s, data, memory, hex, temp, k, maxSize, n, h1);
        Continues(s, data, memory, hex, temp, k, maxSize, n, h2);
      }
    }
    AgreeLess(hex, hex1, k, a);
    AgreeLess(hex, hex2, k, a);
  }

  /**
   The outcome of the chunked branch is a function of the stream alone, the same whatever the two line
   buffers hold at the start, if and only if it is settled with nothing known of them.
   */
  lemma SettledIsExact(s: bytes, maxSize: int, hex: bytes, temp: bytes)
    requires |hex| == 10 && |temp| == 5
    ensures Settled(s, [], 1024, hex, temp, 0, false, maxSize)
       <==> forall hex', temp' :: |hex'| == 10 && |temp'| == 5 ==>
              Chunked(s, [], 1024, hex', temp', maxSize) == Chunked(s, [], 1024, hex, temp, maxSize)
  {
    hide Chunked;
    if Settled(s, [], 1024, hex, temp, 0, false, maxSize) {
      hide Settled;
      forall hex', temp' | |hex'| == 10 && |temp'| == 5
        ensures Chunked(s, [], 1024, hex', temp', maxSize) == Chunked(s, [], 1024, hex, temp, maxSize)
      {
        SettledIsSame(s, [], 1024, hex, temp, 0, false, maxSize, hex', temp');
      }
    } else {
      var hex1, temp1, hex2, temp2 := UnsettledDiffers(s, [], 1024, hex, temp, 0, false, maxSize);
    }
  }

  lemma ZeroAlone(hex: bytes)
    requires |hex| == 10
    ensures ReadLine([0x30], hex, 9) == Line(0, hex[0 := 0x30], []) && Written([0x30], 9) == 1
  {
    assert [0x30][1..] == [] && hex[0 := 0][0 := 0x30] == hex[0 := 0x30];
  }

  /** The stream "0" without a line end is not settled: two contents of the buffer give a body and a status. */
  lemma ZeroIsUnsettled(hex: bytes, temp: bytes, maxSize: int)
    requires |hex| == 10 && |temp| == 5
    ensures !Settled([0x30], [], 1024, hex, temp, 0, false, maxSize)
    ensures Chunked([0x30], [], 1024, hex[1 := 0], temp, maxSize) == Body([], [])
    ensures Chunked([0x30], [], 1024, hex[1 := 0x31][2 := 0], temp, maxSize) == Status(400)
  {
    hide ReadLine;
    hide Written;
    hide Chunked;
    var x, y: bytes := hex[1 := 0], hex[1 := 0x31][2 := 0];
    ZeroAlone(hex);
    ZeroAlone(x);
    ZeroAlone(y);
    ChunkedStep([0x30], [], 1024, x, temp, maxSize);
    ChunkedStep([0x30], [], 1024, y, temp, maxSize);
    assert HexFrom(x[0 := 0x30], 1, 0) == Some(0);
    assert HexFrom(y[0 := 0x30], 2, 1) == Some(1);
    assert ReadLine([], temp, 4).rest == [];
  }
}
