/**
 What the frame synchroniser delivers: of any stream of whole and cut-off frames it returns exactly the
 packets of the whole ones, in order, however the bytes arrive and the calls interleave.
 */
module PacketizerDelivery {
  import opened Bytes
  import opened Circular
  import opened PacketizerSpec

  /** A frame is a sync word and then a packet, or the first bytes of a packet cut off somewhere. */
  datatype Frame = Whole(packet: bytes) | Cut(fragment: bytes)

  function Body(f: Frame): bytes {
    match f
    case Whole(p) => p
    case Cut(g) => g
  }

  /** The stream of frames. */
  function Stream(c: Config, fs: seq<Frame>): bytes
    decreases |fs|
  {
    if fs == [] then [] else c.sync + Rest(c, fs)
  }

  /** What follows the first sync word of the stream. */
  function Rest(c: Config, fs: seq<Frame>): bytes
    requires fs != []
    decreases |fs|, 0
  {
    Body(fs[0]) + Stream(c, fs[1..])
  }

  function Packets(fs: seq<Frame>): seq<bytes>
    decreases |fs|
  {
    if fs == [] then [] else (if fs[0].Whole? then [fs[0].packet] else []) + Packets(fs[1..])
  }

  /** How many bytes a cut frame would have to hold before its header, or its packet, looks complete. */
  function Need(c: Config, g: bytes): nat {
    if |g| < c.headerLen then c.headerLen else c.totalLength(g[..c.headerLen])
  }

  ghost predicate WellFormed(c: Config, f: Frame) {
    match f
    case Whole(p) => ProperPacket(c, p)
    case Cut(g) => |g| < Need(c, g)
  }

  ghost predicate NoSyncBelow(c: Config, s: bytes, n: nat) {
    forall i :: 0 <= i < n ==> !OccursAt(s, c.sync, i)
  }

  /** Well-formed frames in which no sync word starts inside a body. */
  ghost predicate Separated(c: Config, fs: seq<Frame>)
    decreases |fs|
  {
    fs != [] ==>
      && WellFormed(c, fs[0])
      && NoSyncBelow(c, Rest(c, fs), |Body(fs[0])|)
      && Separated(c, fs[1..])
  }

  /**
   `arrived` bytes of the stream have been pushed. Of the frame behind a cut one, between one and four
   bytes are there (too few for the search to see its sync word) and yet they complete the header or
   the packet of the cut frame.
   */
  predicate Swallows(c: Config, fs: seq<Frame>, arrived: int)
    requires fs != []
  {
    var over := arrived - 4 - |Body(fs[0])|;
    fs[0].Cut? && 0 < over <= 4 && |fs[0].fragment| + over >= Need(c, fs[0].fragment)
  }

  /**
   Enough of the stream is there to be done with the first frame: a whole one completely; of a cut one
   more than four bytes behind it (so that the search sees the next sync word) and at least a header.
   */
  predicate HeadComplete(c: Config, fs: seq<Frame>, arrived: int)
    requires fs != []
  {
    arrived >= 4 + |Body(fs[0])| + (if fs[0].Whole? then 0 else 5) && arrived >= 4 + c.headerLen
  }

  /**
   get_packet may be called: on its way to the first whole frame, or to where the bytes end, it meets no
   frame in the swallowing state.
   */
  predicate Safe(c: Config, fs: seq<Frame>, arrived: int)
    decreases |fs|
  {
    || fs == []
    || fs[0].Whole?
    || (!Swallows(c, fs, arrived) && (HeadComplete(c, fs, arrived) ==> Safe(c, fs[1..], arrived - 4 - |Body(fs[0])|)))
  }

  /** The frames still ahead after get_packet. */
  function Ahead(c: Config, fs: seq<Frame>, arrived: int): seq<Frame>
    decreases |fs|
  {
    if fs == [] || !HeadComplete(c, fs, arrived) then fs
    else if fs[0].Whole? then fs[1..]
    else Ahead(c, fs[1..], arrived - 4 - |Body(fs[0])|)
  }

  /** Whether get_packet returns a packet. */
  predicate Yields(c: Config, fs: seq<Frame>, arrived: int)
    decreases |fs|
  {
    && fs != []
    && HeadComplete(c, fs, arrived)
    && (fs[0].Whole? || Yields(c, fs[1..], arrived - 4 - |Body(fs[0])|))
  }

  // ----- where the machine stands in the stream -----

  ghost predicate JunkThen(c: Config, s: bytes, j: nat, fs: seq<Frame>) {
    j <= |s| && s[j..] == Stream(c, fs) && NoSyncBelow(c, s, j)
  }

  /** With `future` still to come, the machine has exactly the frames `fs` ahead of it. */
  ghost predicate Tracks(c: Config, m: Machine, future: bytes, fs: seq<Frame>) {
    var ahead := m.buf + future;
    && Separated(c, fs)
    && match m.phase
       case Searching => exists j: nat :: JunkThen(c, ahead, j, fs)
       case Synced => fs != [] && ahead == Rest(c, fs)
       case HaveHeader(h) => fs != [] && |h| == c.headerLen <= |Body(fs[0])| && h + ahead == Rest(c, fs)
       case Ready(p) => ahead == Stream(c, fs)
  }

  lemma OccursInPrefix(c: Config, s: bytes, future: bytes, k: nat)
    requires c.Valid() && k + 4 <= |s|
    ensures OccursAt(s, c.sync, k) == OccursAt(s + future, c.sync, k)
  {
    assert (s + future)[k..k + 4] == s[k..k + 4];
  }

  lemma OccursAtFrame(c: Config, x: bytes, fs: seq<Frame>)
    requires c.Valid() && fs != []
    ensures OccursAt(x + Stream(c, fs), c.sync, |x|)
  {
    var s := x + Stream(c, fs);
    assert s[|x|..|x| + 4] == c.sync;
  }

  /**
   The search on a buffer whose bytes, with the future, are `x` and then the stream: it reports the
   first frame exactly when a byte behind its sync word has arrived, and nothing before.
   */
  lemma FindFrame(c: Config, buf: bytes, future: bytes, x: bytes, fs: seq<Frame>)
    requires c.Valid()
    requires buf + future == x + Stream(c, fs)
    requires NoSyncBelow(c, buf + future, |x|)
    ensures var (found, k) := Find(buf, c.sync);
            && (found ==> fs != [] && k == |x|)
            && (fs != [] && |x| + 4 < |buf| ==> found)
            && (!found ==> k <= |x| && k <= |buf|)
  {
    var (found, k) := Find(buf, c.sync);
    if found {
      OccursInPrefix(c, buf, future, k);
      assert k >= |x|;
      if fs != [] {
        OccursAtFrame(c, x, fs);
        if |x| + 4 <= |buf| {
          OccursInPrefix(c, buf, future, |x|);
        }
      }
    } else {
      if fs != [] && |x| + 4 < |buf| {
        OccursAtFrame(c, x, fs);
        OccursInPrefix(c, buf, future, |x|);
        assert false;
      }
    }
  }

  // ----- one call of get_packet -----

  function Arrived(c: Config, future: bytes, fs: seq<Frame>): int {
    |Stream(c, fs)| - |future|
  }

  lemma StreamSplit(c: Config, fs: seq<Frame>)
    requires c.Valid() && fs != []
    ensures Stream(c, fs) == c.sync + Rest(c, fs)
    ensures |Stream(c, fs)| == 4 + |Body(fs[0])| + |Stream(c, fs[1..])|
    ensures Stream(c, fs)[4..] == Rest(c, fs)
    ensures Rest(c, fs)[|Body(fs[0])|..] == Stream(c, fs[1..])
  {
  }

  lemma DropSome(buf: bytes, future: bytes, k: nat)
    requires k <= |buf|
    ensures buf[k..] + future == (buf + future)[k..]
  {
  }

  lemma NoSyncShift(c: Config, s: bytes, n: nat, k: nat)
    requires c.Valid() && NoSyncBelow(c, s, n) && k <= n && k <= |s|
    ensures NoSyncBelow(c, s[k..], n - k)
  {
    forall i | 0 <= i < n - k
      ensures !OccursAt(s[k..], c.sync, i)
    {
      assert !OccursAt(s, c.sync, k + i);
      if k + i + 4 <= |s| {
        assert s[k..][i..i + 4] == s[k + i..k + i + 4];
      }
    }
  }

  /** A successful search stops right behind the first sync word of the stream. */
  lemma LocateFound(c: Config, m: Machine, future: bytes, fs: seq<Frame>, j: nat)
    requires c.Valid() && Separated(c, fs) && JunkThen(c, m.buf + future, j, fs)
    requires fs != [] && j + 4 <= |m.buf|
    ensures m.buf[j + 4..] + future == Rest(c, fs)
  {
    var ahead := m.buf + future;
    DropSome(m.buf, future, j + 4);
    StreamSplit(c, fs);
    assert ahead[j + 4..] == ahead[j..][4..];
  }

  /** A failed search gives up junk only. */
  lemma LocateMissed(c: Config, m: Machine, future: bytes, fs: seq<Frame>, j: nat, k: nat)
    requires c.Valid() && JunkThen(c, m.buf + future, j, fs) && k <= j && k <= |m.buf|
    ensures JunkThen(c, m.buf[k..] + future, j - k, fs)
  {
    var ahead := m.buf + future;
    DropSome(m.buf, future, k);
    NoSyncShift(c, ahead, j, k);
    assert ahead[k..][j - k..] == ahead[j..];
  }

  lemma LocateTracks(c: Config, m: Machine, future: bytes, fs: seq<Frame>)
    requires c.Valid() && m.phase.Searching? && Tracks(c, m, future, fs)
    ensures Tracks(c, LocateSync(c, m), future, fs)
    ensures LocateSync(c, m).phase.Synced? || LocateSync(c, m).phase.Searching?
    ensures LocateSync(c, m).phase.Searching? ==> fs == [] || Arrived(c, future, fs) <= 4
  {
    var ahead := m.buf + future;
    var j: nat :| JunkThen(c, ahead, j, fs);
    assert ahead == ahead[..j] + Stream(c, fs);
    FindFrame(c, m.buf, future, ahead[..j], fs);
    var (found, k) := Find(m.buf, c.sync);
    if found {
      assert OccursAt(m.buf, c.sync, k);
      LocateFound(c, m, future, fs, j);
    } else {
      LocateMissed(c, m, future, fs, j, k);
      assert JunkThen(c, m.buf[k..] + future, j - k, fs);
    }
  }

  lemma SeparatedHead(c: Config, fs: seq<Frame>)
    requires Separated(c, fs) && fs != []
    ensures WellFormed(c, fs[0]) && NoSyncBelow(c, Rest(c, fs), |Body(fs[0])|) && Separated(c, fs[1..])
  {
  }

  /** The header goes from the buffer to the machine. */
  lemma HeaderKept(c: Config, m: Machine, future: bytes, fs: seq<Frame>)
    requires c.Valid() && Tracks(c, m, future, fs) && m.phase.Synced?
    requires c.headerLen <= |m.buf| && c.headerLen <= |Body(fs[0])|
    ensures Tracks(c, m.(buf := m.buf[c.headerLen..], phase := HaveHeader(m.buf[..c.headerLen])), future, fs)
  {
    hide Separated;
    hide Rest;
    DropSome(m.buf, future, c.headerLen);
    var ahead := m.buf + future;
    assert ahead == m.buf[..c.headerLen] + ahead[c.headerLen..];
  }

  /** The machine gives up the first frame, whose body ends `j` bytes ahead, and searches on. */
  lemma GivesUp(c: Config, m: Machine, future: bytes, fs: seq<Frame>, x: bytes)
    requires fs != [] && Separated(c, fs[1..]) && m.phase.Searching?
    requires m.buf + future == x + Stream(c, fs[1..]) && NoSyncBelow(c, m.buf + future, |x|)
    ensures Tracks(c, m, future, fs[1..])
  {
    hide Separated;
    hide Stream;
    hide NoSyncBelow;
    assert JunkThen(c, m.buf + future, |x|, fs[1..]);
  }

  lemma EmptyStream(c: Config, fs: seq<Frame>)
    ensures fs == [] ==> Stream(c, fs) == []
  {
  }

  lemma {:induction false} HeaderTracks(c: Config, m: Machine, future: bytes, fs: seq<Frame>)
    requires c.Valid() && m.phase.Synced? && Tracks(c, m, future, fs)
    requires !Swallows(c, fs, Arrived(c, future, fs))
    ensures var (m', retry) := UnpackHeader(c, m);
            && m'.log == m.log
            && (retry ==> fs[0].Cut? && m'.phase.Searching? && Tracks(c, m', future, fs[1..]))
            && (retry ==> HeadComplete(c, fs, Arrived(c, future, fs)))
            && (!retry ==> Tracks(c, m', future, fs) && (m'.phase.Synced? || m'.phase.HaveHeader?))
            && (m'.phase.Synced? ==> !HeadComplete(c, fs, Arrived(c, future, fs)))
  {
    hide Separated;
    hide NoSyncBelow;
    hide Find;
    var g := Body(fs[0]);
    StreamSplit(c, fs);
    SeparatedHead(c, fs);
    if c.headerLen <= |m.buf| {
      assert m.buf + future == g + Stream(c, fs[1..]);
      hide Stream;
      hide Rest;
      FindFrame(c, m.buf, future, g, fs[1..]);
      var (found, k) := Find(m.buf, c.sync);
      if found && k < c.headerLen {
        GivesUp(c, m.(phase := Searching), future, fs, g);
      } else {
        assert |m.buf| + |future| == |g| + |Stream(c, fs[1..])|;
        EmptyStream(c, fs[1..]);
        HeaderKept(c, m, future, fs);
      }
      hide Tracks;
    }
  }

  lemma HeadAndTail(h: bytes, ahead: bytes, b: bytes, tail: bytes)
    requires h + ahead == b + tail && |h| <= |b|
    ensures b == h + b[|h|..] && ahead == b[|h|..] + tail && ahead == (b + tail)[|h|..]
  {
    var rest := b + tail;
    assert rest[..|h|] == h && rest[..|h|] == b[..|h|];
    assert rest[|h|..] == ahead && rest[|h|..] == b[|h|..] + tail;
  }

  /** With a header held, the bytes ahead are the rest of the body and then the other frames. */
  lemma BodyAhead(c: Config, m: Machine, future: bytes, fs: seq<Frame>)
    requires c.Valid() && m.phase.HaveHeader? && Tracks(c, m, future, fs)
    ensures var x := Body(fs[0])[c.headerLen..];
            && m.phase.header + x == Body(fs[0])
            && m.buf + future == x + Stream(c, fs[1..])
            && NoSyncBelow(c, m.buf + future, |x|)
  {
    var b := Body(fs[0]);
    var rest := Rest(c, fs);
    var tail := Stream(c, fs[1..]);
    SeparatedHead(c, fs);
    assert rest == b + tail && rest == m.phase.header + (m.buf + future);
    hide *;
    HeadAndTail(m.phase.header, m.buf + future, b, tail);
    NoSyncShift(c, rest, |b|, c.headerLen);
  }

  lemma TakesBody(buf: bytes, future: bytes, x: bytes, tail: bytes)
    requires buf + future == x + tail && |x| <= |buf|
    ensures buf[..|x|] == x && buf[|x|..] + future == tail
  {
    DropSome(buf, future, |x|);
    assert (buf + future)[..|x|] == buf[..|x|];
    assert (x + tail)[..|x|] == x && (x + tail)[|x|..] == tail;
  }

  /** What the search and the buffered bytes say, with a header held. */
  lemma {:induction false} MessageSees(c: Config, m: Machine, future: bytes, fs: seq<Frame>)
    requires c.Valid() && m.phase.HaveHeader? && Tracks(c, m, future, fs)
    requires !Swallows(c, fs, Arrived(c, future, fs))
    ensures var x, len := Body(fs[0])[c.headerLen..], c.totalLength(m.phase.header) - c.headerLen;
            var (found, k) := Find(m.buf, c.sync);
            var done := HeadComplete(c, fs, Arrived(c, future, fs));
            && m.buf + future == x + Stream(c, fs[1..]) && m.phase.header + x == Body(fs[0])
            && NoSyncBelow(c, m.buf + future, |x|)
            && (found && k < len ==> done && fs[0].Cut?)
            && (!(found && k < len) && len <= |m.buf| ==> done && fs[0].Whole? && |x| == len)
            && (!(found && k < len) && len > |m.buf| ==> !done)
  {
    hide Separated;
    hide NoSyncBelow;
    hide Find;
    var h := m.phase.header;
    BodyAhead(c, m, future, fs);
    StreamSplit(c, fs);
    SeparatedHead(c, fs);
    hide Stream;
    hide Rest;
    var x := Body(fs[0])[c.headerLen..];
    assert (h + x)[..c.headerLen] == h;
    FindFrame(c, m.buf, future, x, fs[1..]);
    EmptyStream(c, fs[1..]);
    assert |m.buf| + |future| == |x| + |Stream(c, fs[1..])|;
  }

  /** What the body step does to the stream position, in its three outcomes. */
  lemma {:induction false} MessageTracks(c: Config, m: Machine, future: bytes, fs: seq<Frame>)
    requires c.Valid() && m.phase.HaveHeader? && Tracks(c, m, future, fs)
    requires !Swallows(c, fs, Arrived(c, future, fs))
    ensures var (m', retry) := UnpackMessage(c, m);
            && (retry || m'.phase.Ready? ==> HeadComplete(c, fs, Arrived(c, future, fs)))
            && (retry ==> fs[0].Cut? && m'.phase.Searching? && Tracks(c, m', future, fs[1..]))
            && (m'.phase.Ready? ==> !retry && fs[0] == Whole(m'.phase.packet) && Tracks(c, m', future, fs[1..]))
            && (!retry && !m'.phase.Ready? ==> m' == m && !HeadComplete(c, fs, Arrived(c, future, fs)))
  {
    hide Separated;
    hide NoSyncBelow;
    hide Find;
    hide Stream;
    hide HeadComplete;
    hide Swallows;
    MessageSees(c, m, future, fs);
    SeparatedHead(c, fs);
    hide Rest;
    var h, x := m.phase.header, Body(fs[0])[c.headerLen..];
    var len := c.totalLength(h) - c.headerLen;
    var (found, k) := Find(m.buf, c.sync);
    if found && k < len {
      GivesUp(c, m.(phase := Searching, log := m.log + [Dropped(h)]), future, fs, x);
    } else if len <= |m.buf| {
      TakesBody(m.buf, future, x, Stream(c, fs[1..]));
    }
  }

  /** Some whole frame of the stream has fully arrived. */
  predicate Complete(c: Config, fs: seq<Frame>, arrived: int)
    decreases |fs|
  {
    && fs != []
    && ((fs[0].Whole? && arrived >= 4 + |Body(fs[0])|) || Complete(c, fs[1..], arrived - 4 - |Body(fs[0])|))
  }

  lemma {:induction false} CompleteNeeds(c: Config, fs: seq<Frame>, arrived: int)
    requires Separated(c, fs) && Complete(c, fs, arrived)
    ensures arrived >= 4 + c.headerLen
    decreases |fs|
  {
    if !(fs[0].Whole? && arrived >= 4 + |Body(fs[0])|) {
      CompleteNeeds(c, fs[1..], arrived - 4 - |Body(fs[0])|);
    }
  }

  lemma NotComplete(c: Config, fs: seq<Frame>, arrived: int)
    requires c.Valid() && Separated(c, fs)
    requires fs == [] || arrived < 4 + c.headerLen || !HeadComplete(c, fs, arrived)
    ensures !Complete(c, fs, arrived)
  {
    if Complete(c, fs, arrived) {
      CompleteNeeds(c, fs, arrived);
      if Complete(c, fs[1..], arrived - 4 - |Body(fs[0])|) {
        CompleteNeeds(c, fs[1..], arrived - 4 - |Body(fs[0])|);
      }
    }
  }

  /** `fs'` is `fs` without some frames at its front. */
  predicate IsSuffix(fs': seq<Frame>, fs: seq<Frame>) {
    |fs'| <= |fs| && fs' == fs[|fs| - |fs'|..]
  }

  /** From `m` to `m'` the machine delivered the packets of the frames it moved past. */
  ghost predicate Advances(c: Config, m: Machine, fs: seq<Frame>, m': Machine, fs': seq<Frame>, future: bytes) {
    && IsSuffix(fs', fs)
    && Tracks(c, m', future, fs')
    && Delivered(m'.log) + Packets(fs') == Delivered(m.log) + Packets(fs)
  }

  lemma ArrivedTail(c: Config, future: bytes, fs: seq<Frame>)
    requires c.Valid() && fs != []
    ensures Arrived(c, future, fs[1..]) == Arrived(c, future, fs) - 4 - |Body(fs[0])|
  {
    StreamSplit(c, fs);
  }

  lemma PacketsHead(fs: seq<Frame>)
    requires fs != []
    ensures Packets(fs) == (if fs[0].Whole? then [fs[0].packet] else []) + Packets(fs[1..])
  {
  }

  lemma AdvancesPast(c: Config, m: Machine, fs: seq<Frame>, m': Machine, future: bytes)
    requires fs != [] && Tracks(c, m', future, fs[1..])
    requires Delivered(m'.log) == Delivered(m.log) + if fs[0].Whole? then [fs[0].packet] else []
    ensures Advances(c, m, fs, m', fs[1..], future)
  {
    hide Tracks;
    PacketsHead(fs);
  }

  lemma AdvancesNot(c: Config, m: Machine, fs: seq<Frame>, m': Machine, future: bytes)
    requires Tracks(c, m', future, fs) && Delivered(m'.log) == Delivered(m.log)
    ensures Advances(c, m, fs, m', fs, future)
  {
    hide Tracks;
  }

  /**
   What a pass of the loop comes to: it is done with the first frame exactly when HeadComplete says so,
   with its packet if the frame is whole and asking for another pass if it is cut.
   */
  ghost predicate Outcome(c: Config, m: Machine, future: bytes, fs: seq<Frame>, m': Machine, retry: bool) {
    var done := fs != [] && HeadComplete(c, fs, Arrived(c, future, fs));
    && Advances(c, m, fs, m', if done then fs[1..] else fs, future)
    && m'.phase.Ready? == (done && fs[0].Whole?)
    && retry == (done && fs[0].Cut?)
    && (retry ==> m'.phase.Searching?)
  }

  /** The last step of a pass, with a header held. */
  lemma MessageAdvances(c: Config, m: Machine, future: bytes, fs: seq<Frame>)
    requires c.Valid() && m.phase.HaveHeader? && Tracks(c, m, future, fs)
    requires !Swallows(c, fs, Arrived(c, future, fs))
    ensures var (m', retry) := UnpackMessage(c, m);
            Outcome(c, m, future, fs, m', retry)
  {
    hide Separated;
    hide Advances;
    hide HeadComplete;
    hide Swallows;
    hide Arrived;
    hide Stream;
    hide Rest;
    MessageTracks(c, m, future, fs);
    MessageDelivers(c, m);
    var (m', retry) := UnpackMessage(c, m);
    hide UnpackMessage;
    if retry || m'.phase.Ready? {
      AdvancesPast(c, m, fs, m', future);
    } else {
      AdvancesNot(c, m, fs, m', future);
    }
  }

  lemma SameAdvance(c: Config, m: Machine, m1: Machine, fs: seq<Frame>, m2: Machine, fs': seq<Frame>, future: bytes)
    requires m1.log == m.log
    ensures Advances(c, m1, fs, m2, fs', future) == Advances(c, m, fs, m2, fs', future)
  {
  }

  /** A pass without the search it may begin with. */
  lemma SyncedRoundTracks(c: Config, m: Machine, future: bytes, fs: seq<Frame>)
    requires c.Valid() && (m.phase.Synced? || m.phase.HaveHeader?) && Tracks(c, m, future, fs)
    requires !Swallows(c, fs, Arrived(c, future, fs))
    ensures Shaped(c, m)
    ensures var (m', retry) := Round(c, m);
            Outcome(c, m, future, fs, m', retry)
  {
    hide Separated;
    hide Stream;
    hide Advances;
    hide HeadComplete;
    hide Swallows;
    hide Arrived;
    hide UnpackMessage;
    if m.phase.HaveHeader? {
      MessageAdvances(c, m, future, fs);
    } else {
      HeaderTracks(c, m, future, fs);
      var (m2, retry) := UnpackHeader(c, m);
      if m2.phase.HaveHeader? {
        MessageAdvances(c, m2, future, fs);
        var m' := UnpackMessage(c, m2).0;
        SameAdvance(c, m, m2, fs, m', fs, future);
        SameAdvance(c, m, m2, fs, m', fs[1..], future);
      } else if retry {
        AdvancesPast(c, m, fs, m2, future);
      } else {
        AdvancesNot(c, m, fs, m2, future);
      }
    }
  }

  lemma RoundTracks(c: Config, m: Machine, future: bytes, fs: seq<Frame>)
    requires c.Valid() && !m.phase.Ready? && Tracks(c, m, future, fs)
    requires fs == [] || !Swallows(c, fs, Arrived(c, future, fs))
    ensures Shaped(c, m)
    ensures var (m', retry) := Round(c, m);
            Outcome(c, m, future, fs, m', retry)
  {
    if m.phase.Searching? {
      LocateTracks(c, m, future, fs);
      LocateDelivers(c, m);
      var m1 := LocateSync(c, m);
      if m1.phase.Searching? {
        AdvancesNot(c, m, fs, m1, future);
      } else {
        SyncedRoundTracks(c, m1, future, fs);
        assert Round(c, m) == Round(c, m1);
      }
    } else {
      SyncedRoundTracks(c, m, future, fs);
    }
  }

  lemma AdvancesTrans(c: Config, m: Machine, fs: seq<Frame>, m1: Machine, fs1: seq<Frame>,
                      m2: Machine, fs2: seq<Frame>, future1: bytes, future: bytes)
    requires Advances(c, m, fs, m1, fs1, future1) && Advances(c, m1, fs1, m2, fs2, future)
    ensures Advances(c, m, fs, m2, fs2, future)
  {
    hide Tracks;
  }

  lemma TracksOf(c: Config, m: Machine, fs: seq<Frame>, m': Machine, fs': seq<Frame>, future: bytes)
    requires Advances(c, m, fs, m', fs', future)
    ensures Tracks(c, m', future, fs') && Separated(c, fs') && IsSuffix(fs', fs)
  {
  }

  lemma AheadStep(c: Config, future: bytes, fs: seq<Frame>)
    requires c.Valid()
    ensures var arrived := Arrived(c, future, fs);
            var done := fs != [] && HeadComplete(c, fs, arrived);
            if done && fs[0].Cut? then
              var arrived' := Arrived(c, future, fs[1..]);
              && Ahead(c, fs, arrived) == Ahead(c, fs[1..], arrived')
              && Yields(c, fs, arrived) == Yields(c, fs[1..], arrived')
              && (Safe(c, fs, arrived) <==> !Swallows(c, fs, arrived) && Safe(c, fs[1..], arrived'))
            else
              && Ahead(c, fs, arrived) == (if done then fs[1..] else fs)
              && Yields(c, fs, arrived) == done
              && (Safe(c, fs, arrived) <==> fs == [] || !Swallows(c, fs, arrived))
  {
    if fs != [] {
      hide Arrived;
      ArrivedTail(c, future, fs);
    }
  }

  /** One call of get_packet: the frames it moves past, and when it returns a packet. */
  lemma {:induction false} PacketizeTracks(c: Config, m: Machine, future: bytes, fs: seq<Frame>)
    requires c.Valid() && !m.phase.Ready? && Tracks(c, m, future, fs)
    requires Safe(c, fs, Arrived(c, future, fs))
    ensures Shaped(c, m)
    ensures var (m', arrived) := (Packetize(c, m), Arrived(c, future, fs));
            && Advances(c, m, fs, m', Ahead(c, fs, arrived), future)
            && m'.phase.Ready? == Yields(c, fs, arrived)
    decreases Measure(m)
  {
    RoundTracks(c, m, future, fs);
    var (m1, retry) := Round(c, m);
    hide Round;
    hide Advances;
    hide Tracks;
    AheadStep(c, future, fs);
    hide HeadComplete;
    hide Arrived;
    hide Ahead;
    hide Yields;
    hide Safe;
    if retry {
      TracksOf(c, m, fs, m1, fs[1..], future);
      PacketizeTracks(c, m1, future, fs[1..]);
      AdvancesTrans(c, m, fs, m1, fs[1..], Packetize(c, m), Ahead(c, fs, Arrived(c, future, fs)), future, future);
    }
  }

  /** When get_packet returns nothing, no whole frame has completely arrived. */
  lemma {:induction false} NothingComplete(c: Config, future: bytes, fs: seq<Frame>)
    requires c.Valid() && Separated(c, fs)
    requires !Yields(c, fs, Arrived(c, future, fs))
    ensures var fs' := Ahead(c, fs, Arrived(c, future, fs));
            !Complete(c, fs', Arrived(c, future, fs'))
    decreases |fs|
  {
    hide Arrived;
    if fs == [] || !HeadComplete(c, fs, Arrived(c, future, fs)) {
      NotComplete(c, fs, Arrived(c, future, fs));
    } else {
      ArrivedTail(c, future, fs);
      NothingComplete(c, future, fs[1..]);
    }
  }

  // ----- whole runs -----

  function PushedBytes(ops: seq<Op>): bytes
    decreases |ops|
  {
    if ops == [] then [] else (if ops[0].Push? then ops[0].data else []) + PushedBytes(ops[1..])
  }

  /** A call as a caller should make it: pushes fit the buffer, only a packet is popped, nobody clears. */
  predicate Fair(capacity: nat, m: Machine, op: Op) {
    match op
    case Push(d) => |m.buf| + |d| <= capacity
    case Get => true
    case Pop => m.phase.Ready?
    case Clear => false
  }

  predicate Orderly(c: Config, capacity: nat, m: Machine, ops: seq<Op>)
    requires c.Valid() && Shaped(c, m)
    decreases |ops|
  {
    ops == [] || (Fair(capacity, m, ops[0]) && Orderly(c, capacity, Step(c, capacity, m, ops[0]), ops[1..]))
  }

  /** Whether a call looks for a packet: one that is ready already is returned as it is. */
  predicate Seeks(m: Machine, op: Op) {
    op.Get? && !m.phase.Ready?
  }

  /** The frames ahead after a call. */
  function Left(c: Config, m: Machine, op: Op, fs: seq<Frame>, arrived: int): seq<Frame> {
    if Seeks(m, op) then Ahead(c, fs, arrived) else fs
  }

  /**
   An orderly run in which get_packet never meets a swallowing state. Of the frames `fs` ahead `arrived`
   bytes were pushed before the run.
   */
  predicate Polite(c: Config, capacity: nat, m: Machine, ops: seq<Op>, fs: seq<Frame>, arrived: int)
    requires c.Valid() && Shaped(c, m)
    decreases |ops|
  {
    || ops == []
    || (&& Fair(capacity, m, ops[0])
        && (Seeks(m, ops[0]) ==> Safe(c, fs, arrived))
        && var fs' := Left(c, m, ops[0], fs, arrived);
           var arrived' := arrived + |PushedBytes(ops[..1])| - |Stream(c, fs)| + |Stream(c, fs')|;
           Polite(c, capacity, Step(c, capacity, m, ops[0]), ops[1..], fs', arrived'))
  }

  lemma PushTracks(c: Config, m: Machine, d: bytes, future: bytes, fs: seq<Frame>)
    requires Tracks(c, m, d + future, fs)
    ensures Tracks(c, m.(buf := m.buf + d), future, fs)
  {
    Right3(m.buf, d, future);
  }

  lemma PopTracks(c: Config, m: Machine, future: bytes, fs: seq<Frame>)
    requires Tracks(c, m, future, fs) && m.phase.Ready?
    ensures Tracks(c, m.(phase := Searching, log := m.log + [Dropped(Held(m))]), future, fs)
    ensures Delivered(m.log + [Dropped(Held(m))]) == Delivered(m.log)
  {
    var ahead := m.buf + future;
    assert ahead[0..] == ahead;
    assert JunkThen(c, ahead, 0, fs);
    DeliveredOne(m.log, Dropped(Held(m)));
  }

  /** One call from outside keeps the machine on the stream. */
  lemma StepTracks(c: Config, capacity: nat, m: Machine, op: Op, future: bytes, fs: seq<Frame>)
    requires c.Valid() && Shaped(c, m) && Fair(capacity, m, op)
    requires Tracks(c, m, (if op.Push? then op.data else []) + future, fs)
    requires Seeks(m, op) ==> Safe(c, fs, Arrived(c, future, fs))
    ensures var (m', fs') := (Step(c, capacity, m, op), Left(c, m, op, fs, Arrived(c, future, fs)));
            && Advances(c, m, fs, m', fs', future)
            && (op.Get? && !m'.phase.Ready? ==> !Complete(c, fs', Arrived(c, future, fs')))
  {
    assert [] + future == future;
    match op
    case Push(d) =>
      PushTracks(c, m, d, future, fs);
    case Get =>
      if !m.phase.Ready? {
        PacketizeTracks(c, m, future, fs);
        if !Yields(c, fs, Arrived(c, future, fs)) {
          NothingComplete(c, future, fs);
        }
      }
    case Pop =>
      PopTracks(c, m, future, fs);
    case Clear =>
  }

  /** The first call of a polite run, and the polite run that follows it. */
  lemma {:induction false} PoliteHead(c: Config, capacity: nat, m: Machine, ops: seq<Op>, future: bytes,
      fs: seq<Frame>)
    requires c.Valid() && Shaped(c, m) && ops != []
    ensures var later := PushedBytes(ops[1..]) + future;
            var (op, arrived) := (ops[0], Arrived(c, later, fs));
            var fs' := Left(c, m, op, fs, arrived);
            && PushedBytes(ops) + future == (if op.Push? then op.data else []) + later
            && (Seeks(m, op) ==> arrived == Arrived(c, PushedBytes(ops) + future, fs))
            && (Polite(c, capacity, m, ops, fs, Arrived(c, PushedBytes(ops) + future, fs)) <==>
                  && Fair(capacity, m, op)
                  && (Seeks(m, op) ==> Safe(c, fs, arrived))
                  && Polite(c, capacity, Step(c, capacity, m, op), ops[1..], fs', Arrived(c, later, fs')))
  {
    hide Stream;
    hide Safe;
    hide Ahead;
    hide Step;
    hide Shaped;
    hide Fair;
    Right3(if ops[0].Push? then ops[0].data else [], PushedBytes(ops[1..]), future);
    assert ops[..1] == [ops[0]];
    assert PushedBytes([ops[0]][1..]) == [];
  }

  predicate EndsInGet(ops: seq<Op>) {
    ops != [] && ops[|ops| - 1].Get?
  }

  lemma OneStep(c: Config, capacity: nat, m: Machine, ops: seq<Op>, future: bytes, later: bytes)
    requires c.Valid() && Shaped(c, m) && |ops| == 1 && later == PushedBytes(ops[1..]) + future
    ensures later == future && Run(c, capacity, m, ops) == Step(c, capacity, m, ops[0])
  {
    hide Step;
    assert [] + future == future;
  }

  /** A polite run keeps the machine on the stream. */
  lemma {:induction false} RunTracks(c: Config, capacity: nat, m: Machine, ops: seq<Op>, future: bytes, fs: seq<Frame>)
    returns (fs': seq<Frame>)
    requires c.Valid() && Shaped(c, m)
    requires Tracks(c, m, PushedBytes(ops) + future, fs)
    requires Polite(c, capacity, m, ops, fs, Arrived(c, PushedBytes(ops) + future, fs))
    ensures var m' := Run(c, capacity, m, ops);
            && Advances(c, m, fs, m', fs', future)
            && (EndsInGet(ops) && !m'.phase.Ready? ==> !Complete(c, fs', Arrived(c, future, fs')))
    decreases |ops|
  {
    hide Tracks;
    hide Step;
    hide Safe;
    hide Arrived;
    hide Polite;
    hide Advances;
    hide Left;
    hide Complete;
    if ops == [] {
      assert [] + future == future;
      fs' := fs;
      AdvancesNot(c, m, fs, m, future);
    } else {
      var later := PushedBytes(ops[1..]) + future;
      PoliteHead(c, capacity, m, ops, future, fs);
      hide PushedBytes;
      StepTracks(c, capacity, m, ops[0], later, fs);
      var m1 := Step(c, capacity, m, ops[0]);
      var fs1 := Left(c, m, ops[0], fs, Arrived(c, later, fs));
      TracksOf(c, m, fs, m1, fs1, later);
      hide IsSuffix;
      if |ops| == 1 {
        OneStep(c, capacity, m, ops, future, later);
        fs' := fs1;
      } else {
        fs' := RunTracks(c, capacity, m1, ops[1..], future, fs1);
        AdvancesTrans(c, m, fs, m1, fs1, Run(c, capacity, m, ops), fs', later, future);
      }
    }
  }

  // ----- the theorems -----

  /** The packets of the whole frames among the first `arrived` bytes of the stream. */
  function ArrivedPackets(c: Config, fs: seq<Frame>, arrived: int): seq<bytes>
    decreases |fs|
  {
    if fs == [] || arrived < 4 + |Body(fs[0])| then []
    else
      (if fs[0].Whole? then [fs[0].packet] else [])
      + ArrivedPackets(c, fs[1..], arrived - 4 - |Body(fs[0])|)
  }

  lemma {:induction false} ArrivedArePackets(c: Config, fs: seq<Frame>, arrived: int)
    ensures ArrivedPackets(c, fs, arrived) <= Packets(fs)
    ensures !Complete(c, fs, arrived) ==> ArrivedPackets(c, fs, arrived) == []
    ensures arrived >= |Stream(c, fs)| && |c.sync| == 4 ==> ArrivedPackets(c, fs, arrived) == Packets(fs)
    decreases |fs|
  {
    if fs != [] {
      ArrivedArePackets(c, fs[1..], arrived - 4 - |Body(fs[0])|);
      assert Stream(c, fs) == c.sync + (Body(fs[0]) + Stream(c, fs[1..]));
    }
  }

  lemma {:induction false} SuffixShorter(fs': seq<Frame>, fs: seq<Frame>)
    requires IsSuffix(fs', fs)
    ensures |Packets(fs')| <= |Packets(fs)|
    decreases |fs|
  {
    if |fs'| < |fs| {
      SuffixShorter(fs', fs[1..]);
    }
  }

  lemma {:induction false} ArrivedWerePassed(c: Config, fs: seq<Frame>, fs': seq<Frame>, future: bytes)
    requires c.Valid() && IsSuffix(fs', fs) && !Complete(c, fs', Arrived(c, future, fs'))
    ensures |ArrivedPackets(c, fs, Arrived(c, future, fs))| + |Packets(fs')| <= |Packets(fs)|
    decreases |fs|
  {
    if |fs'| < |fs| {
      ArrivedTail(c, future, fs);
      ArrivedWerePassed(c, fs[1..], fs', future);
      SuffixShorter(fs', fs);
    } else {
      ArrivedArePackets(c, fs, Arrived(c, future, fs));
    }
  }

  /** The stream of a run: junk without a sync word, then separated frames. */
  ghost predicate IsInput(c: Config, input: bytes, junk: bytes, fs: seq<Frame>) {
    input == junk + Stream(c, fs) && NoSyncBelow(c, input, |junk|) && Separated(c, fs)
  }

  lemma ArrivedFirst(c: Config, fs: seq<Frame>, fs': seq<Frame>, future: bytes, returned: seq<bytes>)
    requires c.Valid() && IsSuffix(fs', fs) && !Complete(c, fs', Arrived(c, future, fs'))
    requires Packets(fs) == returned + Packets(fs')
    ensures ArrivedPackets(c, fs, Arrived(c, future, fs)) <= returned
  {
    ArrivedWerePassed(c, fs, fs', future);
    ArrivedArePackets(c, fs, Arrived(c, future, fs));
  }

  /** A run begins before the stream. */
  lemma StartTracks(c: Config, input: bytes, junk: bytes, fs: seq<Frame>)
    requires c.Valid() && IsInput(c, input, junk, fs)
    ensures Tracks(c, Initial, input, fs) && IsSuffix(fs, fs)
    ensures forall pushed: bytes, future: bytes ::
              input == pushed + future ==> |pushed| - |junk| == Arrived(c, future, fs)
    ensures Arrived(c, input, fs) == -|junk|
  {
    hide Separated;
    assert [] + input == input;
    assert input[|junk|..] == Stream(c, fs);
    hide Stream;
    assert JunkThen(c, input, |junk|, fs);
  }

  /** What a whole run returns comes first among the packets. */
  lemma Totals(c: Config, capacity: nat, ops: seq<Op>, fs: seq<Frame>, fs': seq<Frame>, future: bytes)
    requires c.Valid() && Advances(c, Initial, fs, Run(c, capacity, Initial, ops), fs', future)
    ensures var returned := Returned(c, capacity, Initial, ops);
            Packets(fs) == returned + Packets(fs') && returned <= Packets(fs)
  {
    hide Tracks;
    hide Run;
    ReturnedIsDelivered(c, capacity, Initial, ops);
    hide Returned;
    assert Delivered(Initial.log) == [];
    assert [] + Packets(fs) == Packets(fs);
    assert [] + Returned(c, capacity, Initial, ops) == Returned(c, capacity, Initial, ops);
  }

  /**
   Delivery and recovery. However the bytes of a stream of whole and cut-off frames are split over the
   pushes and interleaved with get and pop, the packets returned are the packets of the whole frames in
   order; and when get_packet returns nothing, every frame that has fully arrived was returned.
   */
  lemma {:induction false} Delivery(c: Config, capacity: nat, ops: seq<Op>, future: bytes, junk: bytes, fs: seq<Frame>)
    requires c.Valid() && IsInput(c, PushedBytes(ops) + future, junk, fs)
    requires Polite(c, capacity, Initial, ops, fs, -|junk|)
    ensures var returned := Returned(c, capacity, Initial, ops);
            && returned <= Packets(fs)
            && (EndsInGet(ops) && !Run(c, capacity, Initial, ops).phase.Ready? ==>
                  ArrivedPackets(c, fs, |PushedBytes(ops)| - |junk|) <= returned)
  {
    hide Polite;
    hide Run;
    hide Separated;
    hide Advances;
    hide Tracks;
    hide Returned;
    hide Complete;
    hide Stream;
    hide NoSyncBelow;
    hide IsSuffix;
    hide Packets;
    StartTracks(c, PushedBytes(ops) + future, junk, fs);
    var fs' := RunTracks(c, capacity, Initial, ops, future, fs);
    var m := Run(c, capacity, Initial, ops);
    TracksOf(c, Initial, fs, m, fs', future);
    Totals(c, capacity, ops, fs, fs', future);
    hide IsInput;
    hide PushedBytes;
    hide ArrivedPackets;
    if EndsInGet(ops) && !m.phase.Ready? {
      ArrivedFirst(c, fs, fs', future, Returned(c, capacity, Initial, ops));
    }
  }

  /** Once the whole stream is pushed and get_packet returns nothing, exactly the sent packets were returned. */
  lemma AllDelivered(c: Config, capacity: nat, ops: seq<Op>, junk: bytes, fs: seq<Frame>)
    requires c.Valid() && IsInput(c, PushedBytes(ops), junk, fs)
    requires Polite(c, capacity, Initial, ops, fs, -|junk|)
    requires EndsInGet(ops) && !Run(c, capacity, Initial, ops).phase.Ready?
    ensures Returned(c, capacity, Initial, ops) == Packets(fs)
  {
    hide Polite;
    hide Run;
    hide Separated;
    assert PushedBytes(ops) + [] == PushedBytes(ops);
    Delivery(c, capacity, ops, [], junk, fs);
    ArrivedArePackets(c, fs, |PushedBytes(ops)| - |junk|);
  }

  predicate AllWhole(fs: seq<Frame>) {
    forall i :: 0 <= i < |fs| ==> fs[i].Whole?
  }

  lemma {:induction false} AheadWhole(c: Config, fs: seq<Frame>, arrived: int)
    requires AllWhole(fs)
    ensures AllWhole(Ahead(c, fs, arrived))
  {
  }

  /** With no cut-off frame in the stream, get_packet may be called at any time. */
  lemma {:induction false} WholeFramesAreSafe(c: Config, capacity: nat, m: Machine, ops: seq<Op>, fs: seq<Frame>,
                                              arrived: int)
    requires c.Valid() && Shaped(c, m) && AllWhole(fs)
    ensures Polite(c, capacity, m, ops, fs, arrived) <==> Orderly(c, capacity, m, ops)
    decreases |ops|
  {
    if ops != [] {
      AheadWhole(c, fs, arrived);
      var fs' := Left(c, m, ops[0], fs, arrived);
      var arrived' := arrived + |PushedBytes(ops[..1])| - |Stream(c, fs)| + |Stream(c, fs')|;
      hide Step;
      hide Ahead;
      WholeFramesAreSafe(c, capacity, Step(c, capacity, m, ops[0]), ops[1..], fs', arrived');
    }
  }

  // ----- calls between frames -----

  /** The first `arrived` bytes of the stream end with a frame, and not right behind its sync word. */
  predicate EndsFrame(c: Config, fs: seq<Frame>, arrived: int)
    decreases |fs|
  {
    && fs != []
    && ((arrived == 4 + |Body(fs[0])| && Body(fs[0]) != []) || EndsFrame(c, fs[1..], arrived - 4 - |Body(fs[0])|))
  }

  /** Before the stream, or between two frames. */
  predicate Between(c: Config, fs: seq<Frame>, arrived: int) {
    arrived <= 0 || EndsFrame(c, fs, arrived)
  }

  lemma {:induction false} EndsFrameNeeds(c: Config, fs: seq<Frame>, arrived: int)
    requires EndsFrame(c, fs, arrived)
    ensures arrived >= 5
    decreases |fs|
  {
    if !(arrived == 4 + |Body(fs[0])| && Body(fs[0]) != []) {
      EndsFrameNeeds(c, fs[1..], arrived - 4 - |Body(fs[0])|);
    }
  }

  /** Whichever frames are cut off, get_packet may be called between frames. */
  lemma {:induction false} BetweenFramesIsSafe(c: Config, fs: seq<Frame>, arrived: int)
    requires Between(c, fs, arrived)
    ensures Safe(c, fs, arrived)
    decreases |fs|
  {
    if fs != [] && fs[0].Cut? {
      var arrived' := arrived - 4 - |Body(fs[0])|;
      if arrived' > 0 {
        EndsFrameNeeds(c, fs[1..], arrived');
      }
      BetweenFramesIsSafe(c, fs[1..], arrived');
    }
  }

  /** A schedule of calls, whatever they return: get_packet is called between frames only. */
  predicate GetsBetween(c: Config, ops: seq<Op>, fs: seq<Frame>, arrived: int)
    decreases |ops|
  {
    || ops == []
    || ((ops[0].Get? ==> Between(c, fs, arrived))
        && GetsBetween(c, ops[1..], fs, arrived + |PushedBytes(ops[..1])|))
  }

  /** What is between the frames of a stream is between those of its rest. */
  lemma {:induction false} BetweenTail(c: Config, ops: seq<Op>, fs: seq<Frame>, arrived: int)
    requires fs != [] && GetsBetween(c, ops, fs, arrived)
    ensures GetsBetween(c, ops, fs[1..], arrived - 4 - |Body(fs[0])|)
    decreases |ops|
  {
    if ops != [] {
      BetweenTail(c, ops[1..], fs, arrived + |PushedBytes(ops[..1])|);
    }
  }

  lemma {:induction false} BetweenAhead(c: Config, ops: seq<Op>, fs: seq<Frame>, arrived: int, now: int)
    requires c.Valid() && GetsBetween(c, ops, fs, arrived)
    ensures var fs' := Ahead(c, fs, now);
            GetsBetween(c, ops, fs', arrived - |Stream(c, fs)| + |Stream(c, fs')|)
    decreases |fs|
  {
    hide GetsBetween;
    if fs != [] && HeadComplete(c, fs, now) {
      StreamSplit(c, fs);
      BetweenTail(c, ops, fs, arrived);
      hide Stream;
      if fs[0].Cut? {
        BetweenAhead(c, ops, fs[1..], arrived - 4 - |Body(fs[0])|, now - 4 - |Body(fs[0])|);
      }
    }
  }

  /** Such a schedule meets the condition of Delivery, whichever frames are cut off. */
  lemma {:induction false} BetweenFramesIsPolite(c: Config, capacity: nat, m: Machine, ops: seq<Op>, fs: seq<Frame>,
                                                 arrived: int)
    requires c.Valid() && Shaped(c, m) && Orderly(c, capacity, m, ops) && GetsBetween(c, ops, fs, arrived)
    ensures Polite(c, capacity, m, ops, fs, arrived)
    decreases |ops|
  {
    hide Step;
    hide Safe;
    hide Ahead;
    hide Between;
    hide Fair;
    if ops != [] {
      var op, pushed := ops[0], |PushedBytes(ops[..1])|;
      var fs' := Left(c, m, op, fs, arrived);
      if op.Get? {
        BetweenFramesIsSafe(c, fs, arrived);
        BetweenAhead(c, ops[1..], fs, arrived + pushed, arrived);
      }
      hide PushedBytes;
      BetweenFramesIsPolite(c, capacity, Step(c, capacity, m, op), ops[1..], fs',
          arrived + pushed - |Stream(c, fs)| + |Stream(c, fs')|);
    }
  }

  /**
   Recovery under a schedule that a caller can keep: when get_packet is called between frames only, no cut-off
   frame costs more than itself.
   */
  lemma BetweenFramesDelivers(c: Config, capacity: nat, ops: seq<Op>, junk: bytes, fs: seq<Frame>)
    requires c.Valid() && IsInput(c, PushedBytes(ops), junk, fs)
    requires Orderly(c, capacity, Initial, ops) && GetsBetween(c, ops, fs, -|junk|)
    requires EndsInGet(ops) && !Run(c, capacity, Initial, ops).phase.Ready?
    ensures Returned(c, capacity, Initial, ops) == Packets(fs)
  {
    hide Polite;
    hide Orderly;
    hide GetsBetween;
    hide Run;
    hide IsInput;
    hide Returned;
    BetweenFramesIsPolite(c, capacity, Initial, ops, fs, -|junk|);
    AllDelivered(c, capacity, ops, junk, fs);
  }
}
