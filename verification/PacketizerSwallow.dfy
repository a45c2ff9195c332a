/**
 What happens outside the condition of PacketizerDelivery. Called while one to four bytes of the next
 frame complete a cut-off one, get_packet takes these bytes for the end of the cut-off frame.
 */
module PacketizerSwallow {
  import opened Bytes
  import opened Circular
  import opened PacketizerSpec
  import opened PacketizerDelivery

  /** From the frame in the swallowing state on. */
  function Swallower(c: Config, fs: seq<Frame>, arrived: int): (r: seq<Frame>)
    requires !Safe(c, fs, arrived)
    ensures r != [] && r[0].Cut? && IsSuffix(r, fs)
    decreases |fs|
  {
    if Swallows(c, fs, arrived) then fs else Swallower(c, fs[1..], arrived - 4 - |Body(fs[0])|)
  }

  /** What has arrived of the first frame of `fs` and behind it. */
  function Mixed(c: Config, fs: seq<Frame>, future: bytes): bytes
    requires |c.sync| == 4 && fs != [] && Swallows(c, fs, Arrived(c, future, fs))
  {
    Body(fs[0]) + c.sync[..Arrived(c, future, fs) - 4 - |Body(fs[0])|]
  }

  lemma FrontOf(ahead: bytes, future: bytes, g: bytes, s: bytes, tail: bytes, over: nat)
    requires ahead + future == g + (s + tail) && |ahead| == |g| + over && over <= |s|
    ensures ahead == g + s[..over]
  {
    assert ahead == (ahead + future)[..|ahead|];
    assert (g + (s + tail))[..|g| + over] == g + s[..over];
  }

  lemma MixedArrived(c: Config, fs: seq<Frame>, future: bytes, ahead: bytes)
    requires c.Valid() && fs != [] && Swallows(c, fs, Arrived(c, future, fs))
    requires ahead + future == Rest(c, fs)
    ensures ahead == Mixed(c, fs, future) && fs[1..] != []
  {
    var g, over := Body(fs[0]), Arrived(c, future, fs) - 4 - |Body(fs[0])|;
    StreamSplit(c, fs);
    EmptyStream(c, fs[1..]);
    if fs[1..] != [] {
      StreamSplit(c, fs[1..]);
      var tail := Rest(c, fs[1..]);
      hide Stream;
      hide Rest;
      FrontOf(ahead, future, g, c.sync, tail, over);
    }
  }

  // ----- one call -----

  /**
   From `m` to `m'` the machine took the cut-off first frame together with bytes of the next sync word:
   for a packet that nobody sent, or for a header that it still holds.
   */
  ghost predicate Strayed(c: Config, m: Machine, future: bytes, fs: seq<Frame>, m': Machine)
    requires |c.sync| == 4 && fs != [] && Swallows(c, fs, Arrived(c, future, fs))
  {
    var g, t := Body(fs[0]), Mixed(c, fs, future);
    match m'.phase
    case Ready(p) =>
      && |g| < |p| && p <= t && ProperPacket(c, p)
      && m'.buf == t[|p|..]
      && Delivered(m'.log) == Delivered(m.log) + [p]
    case HaveHeader(h) =>
      && |g| < |h| == c.headerLen && h <= t
      && m'.buf == t[|h|..]
      && Delivered(m'.log) == Delivered(m.log)
    case _ => false
  }

  lemma OccursBehind(c: Config, t: bytes, future: bytes, k: nat, i: nat)
    requires c.Valid() && k <= |t| && OccursAt(t[k..], c.sync, i)
    ensures OccursAt(t + future, c.sync, k + i)
  {
    assert t[k..][i..i + 4] == t[k + i..k + i + 4];
    assert (t + future)[k + i..k + i + 4] == t[k + i..k + i + 4];
  }

  lemma NoneIn(c: Config, t: bytes, future: bytes, n: nat, k: nat)
    requires c.Valid() && NoSyncBelow(c, t + future, n) && k <= |t| <= n + 4
    ensures !Find(t[k..], c.sync).0
  {
    var (found, i) := Find(t[k..], c.sync);
    hide Find;
    if found {
      OccursBehind(c, t, future, k, i);
    }
  }

  /** No sync word is found in what has arrived. */
  lemma NoneSeen(c: Config, fs: seq<Frame>, future: bytes, k: nat)
    requires c.Valid() && fs != [] && Separated(c, fs) && Swallows(c, fs, Arrived(c, future, fs))
    requires Mixed(c, fs, future) + future == Rest(c, fs) && k <= |Mixed(c, fs, future)|
    ensures !Find(Mixed(c, fs, future)[k..], c.sync).0
  {
    SeparatedHead(c, fs);
    hide Rest;
    hide Arrived;
    hide Find;
    hide NoSyncBelow;
    NoneIn(c, Mixed(c, fs, future), future, |Body(fs[0])|, k);
  }

  lemma MessageStrays(c: Config, m: Machine, future: bytes, fs: seq<Frame>)
    requires c.Valid() && m.phase.HaveHeader? && Shaped(c, m) && fs != [] && Separated(c, fs)
    requires Swallows(c, fs, Arrived(c, future, fs))
    requires m.phase.header + m.buf == Mixed(c, fs, future)
    requires Mixed(c, fs, future) + future == Rest(c, fs)
    ensures !UnpackMessage(c, m).1 && Strayed(c, m, future, fs, UnpackMessage(c, m).0)
    ensures c.headerLen <= |Body(fs[0])| ==> UnpackMessage(c, m).0.phase.Ready?
  {
    var h, g, t := m.phase.header, Body(fs[0]), Mixed(c, fs, future);
    assert WellFormed(c, fs[0]);
    NoneSeen(c, fs, future, c.headerLen);
    assert t[c.headerLen..] == m.buf && t[..c.headerLen] == h;
    MessageDelivers(c, m);
    hide Stream;
    hide Rest;
    hide Separated;
    hide Find;
    if c.headerLen <= |g| {
      assert g[..c.headerLen] == t[..c.headerLen];
    }
    var len := c.totalLength(h) - c.headerLen;
    if len <= |m.buf| {
      assert h + m.buf[..len] == t[..c.headerLen + len];
    }
  }

  lemma HeaderFits(c: Config, fs: seq<Frame>, future: bytes)
    requires c.Valid() && fs != [] && Swallows(c, fs, Arrived(c, future, fs))
    ensures c.headerLen <= |Mixed(c, fs, future)|
  {
    var g := Body(fs[0]);
    if c.headerLen <= |g| {
      assert c.headerLen <= c.totalLength(g[..c.headerLen]);
    }
  }

  lemma SyncedStrays(c: Config, m: Machine, future: bytes, fs: seq<Frame>)
    requires c.Valid() && (m.phase.Synced? || m.phase.HaveHeader?) && Tracks(c, m, future, fs)
    requires Swallows(c, fs, Arrived(c, future, fs))
    ensures Shaped(c, m)
    ensures !Round(c, m).1 && Strayed(c, m, future, fs, Round(c, m).0)
    ensures c.headerLen <= |Body(fs[0])| ==> Round(c, m).0.phase.Ready?
  {
    hide Separated;
    hide Rest;
    hide Stream;
    hide Find;
    if m.phase.HaveHeader? {
      Right3(m.phase.header, m.buf, future);
      MixedArrived(c, fs, future, m.phase.header + m.buf);
      MessageStrays(c, m, future, fs);
    } else {
      MixedArrived(c, fs, future, m.buf);
      HeaderFits(c, fs, future);
      NoneSeen(c, fs, future, 0);
      assert m.buf[0..] == m.buf;
      var m2 := m.(buf := m.buf[c.headerLen..], phase := HaveHeader(m.buf[..c.headerLen]));
      assert UnpackHeader(c, m) == (m2, false);
      assert m.buf[..c.headerLen] + m.buf[c.headerLen..] == m.buf;
      MessageStrays(c, m2, future, fs);
    }
  }

  lemma StrayedFrom(c: Config, m: Machine, m1: Machine, future: bytes, fs: seq<Frame>, m': Machine)
    requires |c.sync| == 4 && fs != [] && Swallows(c, fs, Arrived(c, future, fs))
    requires Delivered(m.log) == Delivered(m1.log)
    ensures Strayed(c, m, future, fs, m') == Strayed(c, m1, future, fs, m')
  {
  }

  lemma HeadStrays(c: Config, m: Machine, future: bytes, fs: seq<Frame>)
    requires c.Valid() && !m.phase.Ready? && Tracks(c, m, future, fs)
    requires fs != [] && Swallows(c, fs, Arrived(c, future, fs))
    ensures Shaped(c, m) && Separated(c, fs)
    ensures Strayed(c, m, future, fs, Packetize(c, m))
    ensures c.headerLen <= |Body(fs[0])| ==> Packetize(c, m).phase.Ready?
  {
    hide Separated;
    if m.phase.Searching? {
      LocateTracks(c, m, future, fs);
      LocateDelivers(c, m);
      var m1 := LocateSync(c, m);
      SyncedStrays(c, m1, future, fs);
      hide Strayed;
      hide Tracks;
      assert Round(c, m) == Round(c, m1);
      StrayedFrom(c, m, m1, future, fs, Round(c, m).0);
    } else {
      SyncedStrays(c, m, future, fs);
    }
  }

  lemma SwallowerTail(c: Config, fs: seq<Frame>, arrived: int)
    requires !Safe(c, fs, arrived) && !Swallows(c, fs, arrived)
    ensures var arrived' := arrived - 4 - |Body(fs[0])|;
            !Safe(c, fs[1..], arrived') && Swallower(c, fs[1..], arrived') == Swallower(c, fs, arrived)
  {
  }

  /** A pass over a cut-off frame on the way. */
  lemma PassesCut(c: Config, m: Machine, future: bytes, fs: seq<Frame>)
    requires c.Valid() && !m.phase.Ready? && Tracks(c, m, future, fs)
    requires !Safe(c, fs, Arrived(c, future, fs)) && !Swallows(c, fs, Arrived(c, future, fs))
    ensures Shaped(c, m) && Packets(fs) == Packets(fs[1..])
    ensures var (m1, retry) := Round(c, m);
            && retry && m1.phase.Searching? && Tracks(c, m1, future, fs[1..])
            && Delivered(m1.log) == Delivered(m.log)
    ensures var arrived := Arrived(c, future, fs[1..]);
            && !Safe(c, fs[1..], arrived)
            && Swallower(c, fs[1..], arrived) == Swallower(c, fs, Arrived(c, future, fs))
  {
    hide Advances;
    hide Tracks;
    hide Round;
    hide Arrived;
    hide HeadComplete;
    hide Packets;
    hide Delivered;
    hide Swallows;
    RoundTracks(c, m, future, fs);
    RoundDelivers(c, m);
    AheadStep(c, future, fs);
    ArrivedTail(c, future, fs);
    PacketsHead(fs);
    assert [] + Packets(fs[1..]) == Packets(fs[1..]);
    SwallowerTail(c, fs, Arrived(c, future, fs));
    hide Safe;
    TracksOf(c, m, fs, Round(c, m).0, fs[1..], future);
  }

  /**
   A call outside the condition: it returns a packet that begins with the fragment of a cut-off frame
   and goes on with bytes of the next sync word, always if the fragment holds the whole header; else it
   may also keep such a header.
   */
  lemma {:induction false} UnsafeGet(c: Config, m: Machine, future: bytes, fs: seq<Frame>)
    requires c.Valid() && !m.phase.Ready? && Tracks(c, m, future, fs)
    requires !Safe(c, fs, Arrived(c, future, fs))
    ensures Shaped(c, m)
    ensures var rest := Swallower(c, fs, Arrived(c, future, fs));
            && Swallows(c, rest, Arrived(c, future, rest))
            && Strayed(c, m, future, rest, Packetize(c, m))
            && (c.headerLen <= |Body(rest[0])| ==> Packetize(c, m).phase.Ready?)
            && Packets(rest) == Packets(fs) && Separated(c, rest)
    decreases Measure(m)
  {
    hide Strayed;
    if Swallows(c, fs, Arrived(c, future, fs)) {
      HeadStrays(c, m, future, fs);
    } else {
      PassesCut(c, m, future, fs);
      var m1 := Round(c, m).0;
      var rest := Swallower(c, fs[1..], Arrived(c, future, fs[1..]));
      hide Round;
      hide Tracks;
      hide Arrived;
      hide Separated;
      hide Safe;
      hide Swallower;
      hide Swallows;
      UnsafeGet(c, m1, future, fs[1..]);
      StrayedFrom(c, m, m1, future, rest, Packetize(c, m));
    }
  }

  // ----- the condition is exact -----

  lemma {:induction false} SuffixStream(c: Config, a: seq<Frame>, b: seq<Frame>)
    requires c.Valid() && IsSuffix(a, b)
    ensures |a| == |b| ==> a == b
    ensures |a| < |b| ==> IsSuffix(a, b[1..]) && |Stream(c, a)| + 4 + |Body(b[0])| <= |Stream(c, b)|
    ensures |Packets(a)| <= |Packets(b)|
    decreases |b|
  {
    if |a| < |b| {
      StreamSplit(c, b);
      hide Stream;
      assert a == b[1..][|b| - 1 - |a|..];
      SuffixStream(c, a, b[1..]);
    }
  }

  /** Two ends of one list of frames. */
  lemma SuffixOrder(a: seq<Frame>, b: seq<Frame>, all: seq<Frame>)
    requires IsSuffix(a, all) && IsSuffix(b, all) && |a| <= |b|
    ensures IsSuffix(a, b)
  {
  }

  /** How many bytes of the stream the machine still holds or awaits after an unsafe call. */
  lemma StrayedLength(c: Config, m: Machine, future: bytes, rest: seq<Frame>, m': Machine)
    requires c.Valid() && rest != []
    requires Swallows(c, rest, Arrived(c, future, rest)) && Strayed(c, m, future, rest, m')
    ensures var ahead := |m'.buf| + |future| + if m'.phase.Ready? then |m'.phase.packet| else |m'.phase.header|;
            ahead + 4 == |Stream(c, rest)| == 4 + |Body(rest[0])| + |Stream(c, rest[1..])|
    ensures m'.phase.Ready? ==> |Body(rest[0])| < |m'.phase.packet| <= |Body(rest[0])| + 4
  {
    StreamSplit(c, rest);
  }

  lemma TracksLength(c: Config, m: Machine, future: bytes, fs: seq<Frame>)
    requires c.Valid() && Tracks(c, m, future, fs)
    ensures m.phase.Ready? ==> |m.buf| + |future| == |Stream(c, fs)|
    ensures m.phase.HaveHeader? ==>
              fs != [] && c.headerLen <= |Body(fs[0])| && |m.phase.header| + |m.buf| + |future| + 4 == |Stream(c, fs)|
  {
    if fs != [] {
      StreamSplit(c, fs);
    }
  }

  lemma AdvanceCounts(c: Config, m: Machine, future: bytes, fs: seq<Frame>, rest: seq<Frame>, m': Machine,
                      fs': seq<Frame>)
    requires |c.sync| == 4 && rest != [] && rest[0].Cut?
    requires Swallows(c, rest, Arrived(c, future, rest)) && Strayed(c, m, future, rest, m')
    requires Advances(c, m, fs, m', fs', future) && Packets(rest) == Packets(fs)
    ensures m'.phase.Ready? ==> 1 + |Packets(fs')| == |Packets(rest)| == |Packets(rest[1..])|
  {
    hide Tracks;
    PacketsHead(rest);
    assert |Delivered(m'.log) + Packets(fs')| == |Delivered(m.log) + Packets(fs)|;
  }

  /** After an unsafe call the machine stands nowhere in the stream. */
  lemma Astray(c: Config, m: Machine, future: bytes, fs: seq<Frame>, rest: seq<Frame>, m': Machine, fs': seq<Frame>)
    requires c.Valid() && IsSuffix(rest, fs) && rest != [] && Separated(c, rest) && Packets(rest) == Packets(fs)
    requires Swallows(c, rest, Arrived(c, future, rest)) && Strayed(c, m, future, rest, m')
    ensures !Advances(c, m, fs, m', fs', future)
  {
    if Advances(c, m, fs, m', fs', future) {
      StrayedLength(c, m, future, rest, m');
      TracksLength(c, m', future, fs');
      AdvanceCounts(c, m, future, fs, rest, m', fs');
      SeparatedHead(c, rest);
      if rest[1..] != [] {
        SeparatedHead(c, rest[1..]);
      }
      hide Stream;
      hide Tracks;
      hide Separated;
      hide Strayed;
      hide Swallows;
      if |rest| <= |fs'| {
        SuffixOrder(rest, fs', fs);
        SuffixStream(c, rest, fs');
      } else {
        SuffixOrder(fs', rest, fs);
        SuffixStream(c, fs', rest);
        SuffixStream(c, fs', rest[1..]);
        if |fs'| + 1 < |rest| {
          StreamSplit(c, rest[1..]);
          PacketsHead(rest[1..]);
          SuffixStream(c, fs', rest[2..]);
        }
      }
      assert false;
    }
  }

  /** One call keeps to the stream if and only if Safe says so; otherwise there is no other place either. */
  lemma SafeIsExact(c: Config, m: Machine, future: bytes, fs: seq<Frame>)
    requires c.Valid() && !m.phase.Ready? && Tracks(c, m, future, fs)
    ensures Shaped(c, m)
    ensures Safe(c, fs, Arrived(c, future, fs)) <==> exists fs' :: Advances(c, m, fs, Packetize(c, m), fs', future)
  {
    hide Advances;
    if Safe(c, fs, Arrived(c, future, fs)) {
      PacketizeTracks(c, m, future, fs);
    } else {
      UnsafeGet(c, m, future, fs);
      var rest := Swallower(c, fs, Arrived(c, future, fs));
      var m' := Packetize(c, m);
      hide Strayed;
      hide Tracks;
      hide Swallows;
      forall fs': seq<Frame>
        ensures !Advances(c, m, fs, m', fs', future)
      {
        Astray(c, m, future, fs, rest, m', fs');
      }
    }
  }

  /** After every call of the run the machine stands in the stream, with the packets it passed delivered. */
  ghost predicate Follows(c: Config, capacity: nat, m: Machine, ops: seq<Op>, future: bytes, fs: seq<Frame>)
    requires c.Valid() && Shaped(c, m)
    decreases |ops|
  {
    || ops == []
    || exists fs' ::
         && Advances(c, m, fs, Step(c, capacity, m, ops[0]), fs', PushedBytes(ops[1..]) + future)
         && Follows(c, capacity, Step(c, capacity, m, ops[0]), ops[1..], future, fs')
  }

  lemma JunkEnds(c: Config, ahead: bytes, i: nat, j: nat, a: seq<Frame>, b: seq<Frame>)
    requires c.Valid() && b != [] && JunkThen(c, ahead, i, a) && JunkThen(c, ahead, j, b)
    ensures i <= j && |ahead| == i + |Stream(c, a)| == j + |Stream(c, b)|
  {
    StreamSplit(c, b);
    hide Stream;
    hide Rest;
    assert ahead[j..j + 4] == ahead[j..][..4];
    assert OccursAt(ahead, c.sync, j);
  }

  /** The machine stands in one place at most. */
  lemma OnePlace(c: Config, m: Machine, future: bytes, all: seq<Frame>, a: seq<Frame>, b: seq<Frame>)
    requires c.Valid() && IsSuffix(a, all) && IsSuffix(b, all) && |a| <= |b|
    requires Tracks(c, m, future, a) && Tracks(c, m, future, b)
    ensures a == b
  {
    SuffixOrder(a, b, all);
    SuffixStream(c, a, b);
    TracksLength(c, m, future, a);
    TracksLength(c, m, future, b);
    if |a| < |b| {
      if m.phase.Searching? {
        var ahead := m.buf + future;
        var i: nat :| JunkThen(c, ahead, i, a);
        var j: nat :| JunkThen(c, ahead, j, b);
        JunkEnds(c, ahead, i, j, a, b);
      }
    }
  }

  lemma SeekIs(c: Config, capacity: nat, m: Machine, op: Op)
    requires c.Valid() && Shaped(c, m) && Seeks(m, op)
    ensures Step(c, capacity, m, op) == Packetize(c, m)
  {
  }

  /**
   An orderly run keeps to the stream, call by call, if and only if get_packet is never called in a
   swallowing state.
   */
  lemma {:induction false} PoliteIsExact(c: Config, capacity: nat, m: Machine, ops: seq<Op>, future: bytes,
                                         fs: seq<Frame>)
    requires c.Valid() && Shaped(c, m) && Tracks(c, m, PushedBytes(ops) + future, fs) && Orderly(c, capacity, m, ops)
    ensures Polite(c, capacity, m, ops, fs, Arrived(c, PushedBytes(ops) + future, fs))
       <==> Follows(c, capacity, m, ops, future, fs)
    decreases |ops|
  {
    hide Tracks;
    hide Step;
    hide Safe;
    hide Arrived;
    hide Advances;
    hide Left;
    if ops != [] {
      var later := PushedBytes(ops[1..]) + future;
      var op, m1 := ops[0], Step(c, capacity, m, ops[0]);
      PoliteHead(c, capacity, m, ops, future, fs);
      hide Polite;
      hide PushedBytes;
      var fs1 := Left(c, m, op, fs, Arrived(c, later, fs));
      assert [] + later == later;
      if Seeks(m, op) {
        SeekIs(c, capacity, m, op);
        SafeIsExact(c, m, later, fs);
      }
      if Seeks(m, op) && !Safe(c, fs, Arrived(c, later, fs)) {
        assert !Follows(c, capacity, m, ops, future, fs);
      } else {
        StepTracks(c, capacity, m, op, later, fs);
        TracksOf(c, m, fs, m1, fs1, later);
        PoliteIsExact(c, capacity, m1, ops[1..], future, fs1);
        forall fs' | Advances(c, m, fs, m1, fs', later)
          ensures fs' == fs1
        {
          TracksOf(c, m, fs, m1, fs', later);
          if |fs'| <= |fs1| {
            OnePlace(c, m1, later, fs, fs', fs1);
          } else {
            OnePlace(c, m1, later, fs, fs1, fs');
          }
        }
        assert Follows(c, capacity, m, ops, future, fs) <==> Follows(c, capacity, m1, ops[1..], future, fs1);
      }
    }
  }

  // ----- the frame behind is lost -----

  lemma LogGrows(c: Config, m: Machine, p: Machine)
    requires c.Valid() && Shaped(c, m) && p == Round(c, m).0
    ensures m.log <= p.log
  {
  }

  lemma {:induction false} PacketizeGrows(c: Config, m: Machine)
    requires c.Valid() && Shaped(c, m)
    ensures m.log <= Packetize(c, m).log
    decreases Measure(m)
  {
    LogGrows(c, m, Round(c, m).0);
    if Round(c, m).1 {
      PacketizeGrows(c, Round(c, m).0);
    }
  }

  lemma {:induction false} RunGrows(c: Config, capacity: nat, m: Machine, ops: seq<Op>)
    requires c.Valid() && Shaped(c, m)
    ensures m.log <= Run(c, capacity, m, ops).log
    decreases |ops|
  {
    if ops != [] {
      PacketizeGrows(c, m);
      var m1 := Step(c, capacity, m, ops[0]);
      assert m.log <= m1.log;
      hide Step;
      RunGrows(c, capacity, m1, ops[1..]);
    }
  }

  /** Entry `n` of the log, if there is one, is no sync word and covers `size` bytes at least. */
  predicate Covers(c: Config, log: seq<Piece>, n: nat, size: nat) {
    n < |log| ==> !log[n].SyncWord? && |PieceBytes(c, log[n])| >= size
  }

  /** A held header stays held, or it goes into the next entry of the log. */
  lemma HeaderGoes(c: Config, m: Machine, m1: Machine)
    requires c.Valid() && m.phase.HaveHeader? && Shaped(c, m) && m1 == Packetize(c, m)
    ensures m1 == m || (|m.log| < |m1.log| && Covers(c, m1.log, |m.log|, c.headerLen))
  {
    var (m2, retry) := UnpackMessage(c, m);
    assert Round(c, m) == (m2, retry);
    if m2 != m && retry {
      PacketizeGrows(c, m2);
      assert m2.log[|m.log|] == m1.log[|m.log|];
    }
  }

  lemma {:induction false} HeaderCovers(c: Config, capacity: nat, m: Machine, ops: seq<Op>)
    requires c.Valid() && m.phase.HaveHeader? && Shaped(c, m)
    ensures Covers(c, Run(c, capacity, m, ops).log, |m.log|, c.headerLen)
    decreases |ops|
  {
    if ops != [] {
      var m1 := Step(c, capacity, m, ops[0]);
      if ops[0].Get? {
        HeaderGoes(c, m, m1);
      }
      if |m1.log| == |m.log| {
        HeaderCovers(c, capacity, m1, ops[1..]);
      } else {
        RunGrows(c, capacity, m1, ops[1..]);
        assert m1.log[|m.log|] == Run(c, capacity, m1, ops[1..]).log[|m.log|];
      }
    }
  }

  /** An entry that covers place `q` and is no sync word rules out a packet behind a sync word at `q`. */
  lemma NoPacketBehind(c: Config, log: seq<Piece>, n: nat, q: nat, i: nat)
    requires c.Valid() && WellLogged(c, log) && n <= |log| && i < |log| && log[i].Packet?
    requires Offset(c, log, n) <= q
    requires n < |log| ==> !log[n].SyncWord? && q < Offset(c, log, n) + |PieceBytes(c, log[n])|
    ensures Offset(c, log, i) != q + 4
  {
    assert log[i - 1].SyncWord?;
    hide WellLogged;
    FlattenSingle(c, log[i - 1]);
    SlicesInOrder(c, log, i - 1, i);
    LogSplit(c, log, i - 1);
    assert log[..i - 1 + 1] == log[..i];
    assert Offset(c, log, i) == Offset(c, log, i - 1) + 4;
    if n < i - 1 {
      FlattenSingle(c, log[n]);
      SlicesInOrder(c, log, n, i - 1);
    } else if i - 1 < n {
      SlicesInOrder(c, log, i - 1, n);
    }
  }

  lemma StrayedHeld(c: Config, m: Machine, future: bytes, rest: seq<Frame>, m': Machine)
    requires c.Valid() && rest != []
    requires Swallows(c, rest, Arrived(c, future, rest)) && Strayed(c, m, future, rest, m')
    ensures |future| < |Stream(c, rest[1..])|
    ensures m'.phase.HaveHeader? ==> |Body(rest[0])| < |m'.phase.header| == c.headerLen
  {
    StreamSplit(c, rest);
  }

  /** The entry that holds the fragment, `size` bytes of it before `q`, goes on behind `q`. */
  lemma Blocked(c: Config, m: Machine, last: Machine, input: bytes, size: nat, q: int, i: nat)
    requires c.Valid() && Accounted(c, m, input) && WellLogged(c, last.log) && m.log <= last.log
    requires i < |last.log| && last.log[i].Packet?
    requires m.phase.Ready? || (m.phase.HaveHeader? && Covers(c, last.log, |m.log|, c.headerLen) && size < c.headerLen)
    requires m.phase.Ready? ==> size < |m.phase.packet|
    requires q == |input| - |m.buf| - (if m.phase.Ready? then |m.phase.packet| else |m.phase.header|) + size
    ensures Offset(c, last.log, i) != q + 4
  {
    var n := if m.phase.Ready? then |m.log| - 1 else |m.log|;
    assert last.log[..|m.log|] == m.log;
    hide Covers;
    if m.phase.Ready? {
      LogSplit(c, m.log, n);
      FlattenSingle(c, m.log[n]);
      assert m.log[..n] == last.log[..n];
      assert m.log[n + 1..] == [];
    }
    NoPacketBehind(c, last.log, n, q, i);
  }

  /**
   After a call outside the condition the frame behind the cut-off one is lost. Whatever calls follow
   with whatever bytes, no packet ever returned begins where that frame has its packet.
   */
  lemma NextFrameLost(c: Config, capacity: nat, m: Machine, input: bytes, future: bytes, fs: seq<Frame>, ops: seq<Op>,
                      i: nat)
    requires c.Valid() && Accounted(c, m, input) && !m.phase.Ready? && Tracks(c, m, future, fs)
    requires !Safe(c, fs, Arrived(c, future, fs))
    requires var log := Run(c, capacity, Packetize(c, m), ops).log; i < |log| && log[i].Packet?
    ensures var next := Swallower(c, fs, Arrived(c, future, fs))[1..];
            next != [] && Offset(c, Run(c, capacity, Packetize(c, m), ops).log, i)
              != |input| + |future| - |Stream(c, next)| + 4
  {
    var m' := Packetize(c, m);
    var rest := Swallower(c, fs, Arrived(c, future, fs));
    UnsafeGet(c, m, future, fs);
    PacketizeAccounted(c, m, input);
    RunAccounted(c, capacity, m', ops, input);
    StrayedLength(c, m, future, rest, m');
    StrayedHeld(c, m, future, rest, m');
    EmptyStream(c, rest[1..]);
    var last := Run(c, capacity, m', ops);
    RunGrows(c, capacity, m', ops);
    if m'.phase.HaveHeader? {
      HeaderCovers(c, capacity, m', ops);
    }
    hide Tracks;
    hide Safe;
    hide Swallower;
    hide Strayed;
    hide Run;
    hide Packetize;
    hide WellLogged;
    hide Arrived;
    hide Swallows;
    var q := |input| + |future| - |Stream(c, rest[1..])|;
    Blocked(c, m', last, input, |Body(rest[0])|, q, i);
  }

  // ----- a run that goes wrong -----

  const EXAMPLE := Config([1, 2, 3, 4], 1, _ => 3, 3)

  lemma FindsIn()
    ensures Find([1, 2, 3, 4, 8, 1, 2], EXAMPLE.sync) == (true, 0)
    ensures Find([8, 1, 2], EXAMPLE.sync) == (false, 0) && Find([1, 2], EXAMPLE.sync) == (false, 0)
  {
    var buf: bytes := [1, 2, 3, 4, 8, 1, 2];
    assert buf[0..4] == EXAMPLE.sync;
  }

  lemma FirstPacket(m: Machine)
    requires m == Machine([8, 1, 2], Synced, [Dropped([]), SyncWord])
    ensures Round(EXAMPLE, m) == (Machine([], Ready([8, 1, 2]), [Dropped([]), SyncWord, Packet([8, 1, 2])]), false)
  {
    hide Find;
    FindsIn();
    var p: bytes := [8, 1, 2];
    var m2 := Machine([1, 2], HaveHeader([8]), m.log);
    assert UnpackHeader(EXAMPLE, m) == (m2, false) by {
      assert m.buf[..1] == [8] && m.buf[1..] == [1, 2];
    }
    hide UnpackHeader;
    assert m2.buf[..2] == [1, 2] && m2.buf[2..] == [] && [8] + [1, 2] == p;
    assert m2.log + [Packet(p)] == [Dropped([]), SyncWord, Packet(p)];
  }

  lemma FirstGet()
    ensures Packetize(EXAMPLE, Machine([1, 2, 3, 4, 8, 1, 2], Searching, []))
         == Machine([], Ready([8, 1, 2]), [Dropped([]), SyncWord, Packet([8, 1, 2])])
  {
    hide Find;
    FindsIn();
    var m := Machine([1, 2, 3, 4, 8, 1, 2], Searching, []);
    var m1 := Machine([8, 1, 2], Synced, [Dropped([]), SyncWord]);
    assert LocateSync(EXAMPLE, m) == m1 by {
      assert m.buf[..0] == [] && m.buf[0 + 4..] == [8, 1, 2];
    }
    hide LocateSync;
    FirstPacket(m1);
    hide UnpackMessage;
    hide UnpackHeader;
    assert Round(EXAMPLE, m) == Round(EXAMPLE, m1);
  }

  lemma SecondGet(log: seq<Piece>)
    ensures Packetize(EXAMPLE, Machine([3, 4, 5, 6, 7], Searching, log))
            == Machine([3, 4, 5, 6, 7], Searching, log + [Dropped([])])
  {
    var m := Machine([3, 4, 5, 6, 7], Searching, log);
    assert m.buf[0..4][0] == 3;
    assert !OccursAt(m.buf, EXAMPLE.sync, 0);
    assert Find(m.buf, EXAMPLE.sync) == (false, 0) && m.buf[..0] == [] && m.buf[0..] == m.buf;
  }

  lemma RunHead(c: Config, capacity: nat, m: Machine, op: Op, ops: seq<Op>)
    requires c.Valid() && Shaped(c, m)
    ensures var (all, m1) := ([op] + ops, Step(c, capacity, m, op));
            && Run(c, capacity, m, all) == Run(c, capacity, m1, ops)
            && Returned(c, capacity, m, all)
            == (if op.Get? && !m.phase.Ready? && m1.phase.Ready? then [m1.phase.packet] else [])
              + Returned(c, capacity, m1, ops)
            && Orderly(c, capacity, m, all) == (Fair(capacity, m, op) && Orderly(c, capacity, m1, ops))
  {
    hide Step;
    assert ([op] + ops)[1..] == ops;
  }

  lemma SecondRun(capacity: nat)
    requires capacity >= 14
    ensures var m := Machine([], Ready([8, 1, 2]), [Dropped([]), SyncWord, Packet([8, 1, 2])]);
            var ops := [Push([3, 4, 5, 6, 7]), Pop, Get];
            && Returned(EXAMPLE, capacity, m, ops) == [] && Orderly(EXAMPLE, capacity, m, ops)
            && Run(EXAMPLE, capacity, m, ops).phase.Searching?
  {
    var log := [Dropped([]), SyncWord, Packet([8, 1, 2])];
    var m := Machine([], Ready([8, 1, 2]), log);
    var ops: seq<Op> := [Push([3, 4, 5, 6, 7]), Pop, Get];
    var m1 := Machine([3, 4, 5, 6, 7], Ready([8, 1, 2]), log);
    var m2 := Machine([3, 4, 5, 6, 7], Searching, log + [Dropped([])]);
    var m3 := Machine([3, 4, 5, 6, 7], Searching, m2.log + [Dropped([])]);
    SecondGet(m2.log);
    hide Packetize;
    assert [] + [3, 4, 5, 6, 7] == m1.buf;
    assert Step(EXAMPLE, capacity, m, ops[0]) == m1;
    assert Step(EXAMPLE, capacity, m1, ops[1]) == m2;
    assert Step(EXAMPLE, capacity, m2, ops[2]) == m3;
    hide Step;
    var rest := ops[1..];
    assert rest[0] == ops[1] && rest[1..] == [Get] && [Get][1..] == [];
    assert Returned(EXAMPLE, capacity, m2, [Get]) == [] && Orderly(EXAMPLE, capacity, m2, [Get]);
    assert Run(EXAMPLE, capacity, m2, [Get]) == m3;
    assert Returned(EXAMPLE, capacity, m1, rest) == [] && Orderly(EXAMPLE, capacity, m1, rest);
    assert Run(EXAMPLE, capacity, m1, rest) == m3;
  }

  lemma PushedTwice(ops: seq<Op>)
    requires ops == [Push([1, 2, 3, 4, 8, 1, 2]), Get, Push([3, 4, 5, 6, 7]), Pop, Get]
    ensures PushedBytes(ops) == [1, 2, 3, 4, 8, 1, 2, 3, 4, 5, 6, 7]
  {
    assert PushedBytes(ops[5..]) == [];
    assert PushedBytes(ops[4..]) == [] by { assert ops[4..][1..] == ops[5..]; }
    assert PushedBytes(ops[3..]) == [] by { assert ops[3..][1..] == ops[4..]; }
    assert PushedBytes(ops[2..]) == [3, 4, 5, 6, 7] by { assert ops[2..][1..] == ops[3..]; }
    assert PushedBytes(ops[1..]) == [3, 4, 5, 6, 7] by { assert ops[1..][1..] == ops[2..]; }
  }

  lemma SpuriousInput()
    ensures var fs := [Cut([8]), Whole([5, 6, 7])];
            var ops := [Push([1, 2, 3, 4, 8, 1, 2]), Get, Push([3, 4, 5, 6, 7]), Pop, Get];
            && IsInput(EXAMPLE, PushedBytes(ops), [], fs) && Packets(fs) == [[5, 6, 7]]
  {
    var fs := [Cut([8]), Whole([5, 6, 7])];
    var ops: seq<Op> := [Push([1, 2, 3, 4, 8, 1, 2]), Get, Push([3, 4, 5, 6, 7]), Pop, Get];
    var tail := [Whole([5, 6, 7])];
    assert fs[1..] == tail && tail[1..] == [];
    assert Stream(EXAMPLE, []) == [];
    var rest := [5, 6, 7] + Stream(EXAMPLE, []);
    assert Rest(EXAMPLE, tail) == rest == [5, 6, 7];
    assert Stream(EXAMPLE, tail) == [1, 2, 3, 4, 5, 6, 7];
    assert Rest(EXAMPLE, fs) == [8, 1, 2, 3, 4, 5, 6, 7];
    assert Stream(EXAMPLE, fs) == [1, 2, 3, 4, 8, 1, 2, 3, 4, 5, 6, 7];
    PushedTwice(ops);
    assert Packets(tail) == [[5, 6, 7]] && Packets(fs) == Packets(tail);
    assert Separated(EXAMPLE, tail);
    assert !OccursAt(Rest(EXAMPLE, fs), EXAMPLE.sync, 0) by {
      assert Rest(EXAMPLE, fs)[0..4][0] == 8;
    }
  }

  lemma FirstRun(capacity: nat, late: seq<Op>)
    requires capacity >= 14
    ensures var m2 := Machine([], Ready([8, 1, 2]), [Dropped([]), SyncWord, Packet([8, 1, 2])]);
            var ops := [Push([1, 2, 3, 4, 8, 1, 2])] + ([Get] + late);
            && Run(EXAMPLE, capacity, Initial, ops) == Run(EXAMPLE, capacity, m2, late)
            && Returned(EXAMPLE, capacity, Initial, ops) == [[8, 1, 2]] + Returned(EXAMPLE, capacity, m2, late)
            && Orderly(EXAMPLE, capacity, Initial, ops) == Orderly(EXAMPLE, capacity, m2, late)
  {
    var m1 := Machine([1, 2, 3, 4, 8, 1, 2], Searching, []);
    FirstGet();
    hide Packetize;
    RunHead(EXAMPLE, capacity, m1, Get, late);
    RunHead(EXAMPLE, capacity, Initial, Push(m1.buf), [Get] + late);
    assert [] + m1.buf == m1.buf;
    hide Run;
    hide Returned;
    hide Orderly;
    var m2 := Machine([], Ready([8, 1, 2]), [Dropped([]), SyncWord, Packet([8, 1, 2])]);
    assert Step(EXAMPLE, capacity, Initial, Push(m1.buf)) == m1;
    assert Step(EXAMPLE, capacity, m1, Get) == m2;
    hide Step;
    var r := Returned(EXAMPLE, capacity, m2, late);
    assert [] + ([[8, 1, 2]] + r) == [[8, 1, 2]] + r;
  }

  /**
   A frame cut off after its first byte, then a whole one. Asked for a packet when two bytes of the next
   sync word are there, the machine returns a packet nobody sent, and never the one that was sent.
   */
  lemma SpuriousRun(capacity: nat)
    requires capacity >= 14
    ensures var fs := [Cut([8]), Whole([5, 6, 7])];
            var ops := [Push([1, 2, 3, 4, 8, 1, 2]), Get, Push([3, 4, 5, 6, 7]), Pop, Get];
            && IsInput(EXAMPLE, PushedBytes(ops), [], fs) && Orderly(EXAMPLE, capacity, Initial, ops)
            && Packets(fs) == [[5, 6, 7]] && Returned(EXAMPLE, capacity, Initial, ops) == [[8, 1, 2]]
            && !Run(EXAMPLE, capacity, Initial, ops).phase.Ready?
  {
    hide Run;
    hide Returned;
    hide Orderly;
    hide IsInput;
    hide PushedBytes;
    hide Packets;
    var late: seq<Op> := [Push([3, 4, 5, 6, 7]), Pop, Get];
    FirstRun(capacity, late);
    SecondRun(capacity);
    SpuriousInput();
    assert [[8, 1, 2]] + [] == [[8, 1, 2]];
    assert [Push([1, 2, 3, 4, 8, 1, 2])] + ([Get] + late)
           == [Push([1, 2, 3, 4, 8, 1, 2]), Get, Push([3, 4, 5, 6, 7]), Pop, Get];
  }
}
