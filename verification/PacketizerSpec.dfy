/**
 The frame synchroniser of `Packetizer.hpp` as a state machine over the bytes still buffered, with a
 log that says what became of every byte taken out of the buffer.
 */
module PacketizerSpec {
  import opened Bytes
  import opened Circular

  /** The sync word in memory order, the header size, and the total length a header announces. */
  datatype Config = Config(sync: bytes, headerLen: nat, totalLength: bytes -> nat, maxLen: nat) {
    ghost predicate Valid() {
      && |sync| == 4
      && 0 < headerLen
      && forall h: bytes :: |h| == headerLen ==> headerLen <= totalLength(h) <= maxLen
    }
  }

  datatype Phase =
    | Searching
    | Synced
    | HaveHeader(header: bytes)
    | Ready(packet: bytes)

  /** What a stretch of consumed input turned out to be. */
  datatype Piece = Dropped(data: bytes) | SyncWord | Packet(packet: bytes)

  datatype Machine = Machine(buf: bytes, phase: Phase, log: seq<Piece>)

  const Initial := Machine([], Searching, [])

  /** The search of the buffer, from offset `k` on. */
  function FindFrom(s: bytes, pat: bytes, k: nat): (r: (bool, nat))
    requires k <= Stop(s, pat)
    requires forall j :: 0 <= j < k ==> !OccursAt(s, pat, j)
    ensures Finds(s, pat, r.0, r.1)
    decreases Stop(s, pat) - k
  {
    if k == Stop(s, pat) then (false, if k > 1 then k - 1 else 0)
    else if OccursAt(s, pat, k) then (true, k)
    else FindFrom(s, pat, k + 1)
  }

  function Find(s: bytes, pat: bytes): (r: (bool, nat))
    ensures Finds(s, pat, r.0, r.1)
  {
    FindFrom(s, pat, 0)
  }

  // ----- one call of get_packet -----

  function LocateSync(c: Config, m: Machine): Machine
    requires c.Valid()
  {
    var (found, k) := Find(m.buf, c.sync);
    if found then
      Machine(m.buf[k + 4..], Synced, m.log + [Dropped(m.buf[..k]), SyncWord])
    else
      Machine(m.buf[k..], Searching, m.log + [Dropped(m.buf[..k])])
  }

  /** Takes the header off the buffer, or asks for another round when a sync word starts inside it. */
  function UnpackHeader(c: Config, m: Machine): (Machine, bool)
    requires c.Valid()
  {
    if c.headerLen > |m.buf| then (m, false)
    else
      var (found, k) := Find(m.buf, c.sync);
      if found && k < c.headerLen then (m.(phase := Searching), true)
      else (m.(buf := m.buf[c.headerLen..], phase := HaveHeader(m.buf[..c.headerLen])), false)
  }

  /** Takes the body off the buffer, or drops the header when a sync word starts inside the body. */
  function UnpackMessage(c: Config, m: Machine): (Machine, bool)
    requires c.Valid() && m.phase.HaveHeader? && |m.phase.header| == c.headerLen
  {
    var h := m.phase.header;
    var len := c.totalLength(h) - c.headerLen;
    var (found, k) := Find(m.buf, c.sync);
    if found && k < len then (m.(phase := Searching, log := m.log + [Dropped(h)]), true)
    else if len <= |m.buf| then
      (Machine(m.buf[len..], Ready(h + m.buf[..len]), m.log + [Packet(h + m.buf[..len])]), false)
    else (m, false)
  }

  /** A held header has the header size. */
  predicate Shaped(c: Config, m: Machine) {
    m.phase.HaveHeader? ==> |m.phase.header| == c.headerLen
  }

  function Measure(m: Machine): nat {
    2 * |m.buf| + if m.phase.Searching? then 0 else 1
  }

  /** One pass of the loop in packetize, and whether it asks for another. */
  function Round(c: Config, m: Machine): (r: (Machine, bool))
    requires c.Valid() && Shaped(c, m)
    ensures Shaped(c, r.0)
    ensures r.1 ==> Measure(r.0) < Measure(m)
  {
    if m.phase.Ready? then (m, false)
    else
      var m1 := if m.phase.Searching? then LocateSync(c, m) else m;
      var (m2, retry) := if m1.phase.Synced? then UnpackHeader(c, m1) else (m1, false);
      if m2.phase.HaveHeader? then UnpackMessage(c, m2) else (m2, retry)
  }

  /** The retry loop: it ends because every retry shrinks Measure. */
  function Packetize(c: Config, m: Machine): (m': Machine)
    requires c.Valid() && Shaped(c, m)
    ensures Shaped(c, m')
    decreases Measure(m)
  {
    var (m', retry) := Round(c, m);
    if retry then Packetize(c, m') else m'
  }

  // ----- runs -----

  datatype Op = Push(data: bytes) | Get | Pop | Clear

  /** The bytes already taken off the buffer that no log entry covers yet. */
  function Held(m: Machine): bytes {
    if m.phase.HaveHeader? then m.phase.header else []
  }

  /** One call from outside. A push that does not fit is refused and changes nothing. */
  function Step(c: Config, capacity: nat, m: Machine, op: Op): (m': Machine)
    requires c.Valid() && Shaped(c, m)
    ensures Shaped(c, m')
  {
    match op
    case Push(data) => if |m.buf| + |data| <= capacity then m.(buf := m.buf + data) else m
    case Get => Packetize(c, m)
    case Pop => m.(phase := Searching, log := m.log + [Dropped(Held(m))])
    case Clear => Machine([], Searching, m.log + [Dropped(Held(m) + m.buf)])
  }

  function Run(c: Config, capacity: nat, m: Machine, ops: seq<Op>): (m': Machine)
    requires c.Valid() && Shaped(c, m)
    ensures Shaped(c, m')
    decreases |ops|
  {
    if ops == [] then m else Run(c, capacity, Step(c, capacity, m, ops[0]), ops[1..])
  }

  /** The bytes accepted by the pushes of a run. */
  function Accepted(c: Config, capacity: nat, m: Machine, ops: seq<Op>): bytes
    requires c.Valid() && Shaped(c, m)
    decreases |ops|
  {
    if ops == [] then []
    else
      Gain(capacity, m, ops[0]) + Accepted(c, capacity, Step(c, capacity, m, ops[0]), ops[1..])
  }

  /** The packets of a log, in order. */
  function Delivered(log: seq<Piece>): seq<bytes>
    decreases |log|
  {
    if log == [] then []
    else (if log[0].Packet? then [log[0].packet] else []) + Delivered(log[1..])
  }

  lemma {:induction false} DeliveredConcat(a: seq<Piece>, b: seq<Piece>)
    ensures Delivered(a + b) == Delivered(a) + Delivered(b)
    decreases |a|
  {
    if a == [] {
      assert a + b == b;
    } else {
      assert (a + b)[1..] == a[1..] + b;
      DeliveredConcat(a[1..], b);
    }
  }

  lemma DeliveredOne(log: seq<Piece>, p: Piece)
    ensures Delivered(log + [p]) == Delivered(log) + if p.Packet? then [p.packet] else []
  {
    DeliveredConcat(log, [p]);
    assert Delivered([p][1..]) == [];
  }

  lemma LocateDelivers(c: Config, m: Machine)
    requires c.Valid() && m.phase.Searching?
    ensures Delivered(LocateSync(c, m).log) == Delivered(m.log)
  {
    var (found, k) := Find(m.buf, c.sync);
    DeliveredOne(m.log, Dropped(m.buf[..k]));
    DeliveredOne(m.log + [Dropped(m.buf[..k])], SyncWord);
    assert m.log + [Dropped(m.buf[..k])] + [SyncWord] == m.log + [Dropped(m.buf[..k]), SyncWord];
  }

  lemma MessageDelivers(c: Config, m: Machine)
    requires c.Valid() && m.phase.HaveHeader? && Shaped(c, m)
    ensures var m' := UnpackMessage(c, m).0;
            Delivered(m'.log) == Delivered(m.log) + if m'.phase.Ready? then [m'.phase.packet] else []
  {
    var h := m.phase.header;
    var len := c.totalLength(h) - c.headerLen;
    DeliveredOne(m.log, Dropped(h));
    if len <= |m.buf| {
      DeliveredOne(m.log, Packet(h + m.buf[..len]));
    }
  }

  // ----- what get_packet returns -----

  /** The packets get_packet returns on a run. One asked for again before it is popped counts once. */
  function Returned(c: Config, capacity: nat, m: Machine, ops: seq<Op>): seq<bytes>
    requires c.Valid() && Shaped(c, m)
    decreases |ops|
  {
    if ops == [] then []
    else
      var m1 := Step(c, capacity, m, ops[0]);
      (if ops[0].Get? && !m.phase.Ready? && m1.phase.Ready? then [m1.phase.packet] else [])
      + Returned(c, capacity, m1, ops[1..])
  }

  lemma RoundDelivers(c: Config, m: Machine)
    requires c.Valid() && Shaped(c, m)
    ensures var (m', retry) := Round(c, m);
            && (retry ==> m'.phase.Searching?)
            && (!m.phase.Ready? ==>
                  Delivered(m'.log) == Delivered(m.log) + if m'.phase.Ready? then [m'.phase.packet] else [])
  {
    hide Delivered;
    hide Find;
    if !m.phase.Ready? {
      if m.phase.Searching? {
        LocateDelivers(c, m);
      }
      var m1 := if m.phase.Searching? then LocateSync(c, m) else m;
      var m2 := if m1.phase.Synced? then UnpackHeader(c, m1).0 else m1;
      if m2.phase.HaveHeader? {
        MessageDelivers(c, m2);
      }
    }
  }

  /** A call that finds a packet logs that packet and no other; one that finds a packet ready changes nothing. */
  lemma {:induction false} PacketizeDelivers(c: Config, m: Machine)
    requires c.Valid() && Shaped(c, m)
    ensures var m' := Packetize(c, m);
            && (m.phase.Ready? ==> m' == m)
            && (!m.phase.Ready? ==>
                  Delivered(m'.log) == Delivered(m.log) + if m'.phase.Ready? then [m'.phase.packet] else [])
    decreases Measure(m)
  {
    RoundDelivers(c, m);
    var (m1, retry) := Round(c, m);
    if retry {
      PacketizeDelivers(c, m1);
    }
  }

  /** What a run returns is what it adds to the packets of the log. */
  lemma {:induction false} ReturnedIsDelivered(c: Config, capacity: nat, m: Machine, ops: seq<Op>)
    requires c.Valid() && Shaped(c, m)
    ensures Delivered(Run(c, capacity, m, ops).log) == Delivered(m.log) + Returned(c, capacity, m, ops)
    decreases |ops|
  {
    hide Delivered;
    if ops != [] {
      var m1 := Step(c, capacity, m, ops[0]);
      match ops[0] {
        case Push(_) =>
        case Get => PacketizeDelivers(c, m);
        case Pop => DeliveredOne(m.log, Dropped(Held(m)));
        case Clear => DeliveredOne(m.log, Dropped(Held(m) + m.buf));
      }
      hide Step;
      ReturnedIsDelivered(c, capacity, m1, ops[1..]);
    }
  }

  /** Which entries of a log are packets. */
  function Places(log: seq<Piece>): (at: seq<nat>)
    ensures forall j :: 0 <= j < |at| ==> at[j] < |log| && log[at[j]].Packet?
    ensures forall j, k :: 0 <= j < k < |at| ==> at[j] < at[k]
    decreases |log|
  {
    if log == [] then []
    else
      var n := |log| - 1;
      Places(log[..n]) + if log[n].Packet? then [n] else []
  }

  lemma {:induction false} PlacesDeliver(log: seq<Piece>)
    ensures |Places(log)| == |Delivered(log)|
    ensures forall j :: 0 <= j < |Places(log)| ==> log[Places(log)[j]].packet == Delivered(log)[j]
    decreases |log|
  {
    if log != [] {
      var n := |log| - 1;
      PlacesDeliver(log[..n]);
      DeliveredOne(log[..n], log[n]);
      assert log[..n] + [log[n]] == log;
    }
  }

  function PieceBytes(c: Config, p: Piece): bytes {
    match p
    case Dropped(d) => d
    case SyncWord => c.sync
    case Packet(x) => x
  }

  /** The input bytes a log stands for. */
  function Flatten(c: Config, log: seq<Piece>): bytes
    decreases |log|
  {
    if log == [] then [] else PieceBytes(c, log[0]) + Flatten(c, log[1..])
  }

  lemma {:induction false} FlattenConcat(c: Config, a: seq<Piece>, b: seq<Piece>)
    ensures Flatten(c, a + b) == Flatten(c, a) + Flatten(c, b)
    decreases |a|
  {
    if a == [] {
      assert a + b == b;
    } else {
      assert (a + b)[1..] == a[1..] + b;
      FlattenConcat(c, a[1..], b);
    }
  }

  // ----- every byte is accounted for -----

  /** Every packet of the log stands directly behind a sync word and is as long as its header says. */
  ghost predicate WellLogged(c: Config, log: seq<Piece>) {
    forall i :: 0 <= i < |log| && log[i].Packet? ==>
      && 0 < i && log[i - 1].SyncWord?
      && |log[i].packet| >= c.headerLen
      && |log[i].packet| == c.totalLength(log[i].packet[..c.headerLen])
  }

  predicate EndsInSync(log: seq<Piece>) {
    log != [] && log[|log| - 1].SyncWord?
  }

  predicate EndsInPacket(log: seq<Piece>, p: bytes) {
    log != [] && log[|log| - 1] == Packet(p)
  }

  /** The input is what the log stands for, then the held header, then the buffer. */
  predicate Conserved(c: Config, m: Machine, input: bytes) {
    input == Flatten(c, m.log) + (Held(m) + m.buf)
  }

  ghost predicate Accounted(c: Config, m: Machine, input: bytes) {
    && Shaped(c, m)
    && WellLogged(c, m.log)
    && Conserved(c, m, input)
    && (m.phase.Synced? || m.phase.HaveHeader? ==> EndsInSync(m.log))
    && (m.phase.Ready? ==> EndsInPacket(m.log, m.phase.packet))
  }

  lemma FlattenSingle(c: Config, p: Piece)
    ensures Flatten(c, [p]) == PieceBytes(c, p)
  {
    assert Flatten(c, [p][1..]) == [];
  }

  lemma FlattenOne(c: Config, log: seq<Piece>, p: Piece)
    ensures Flatten(c, log + [p]) == Flatten(c, log) + PieceBytes(c, p)
  {
    FlattenConcat(c, log, [p]);
    FlattenSingle(c, p);
  }

  ghost predicate ProperPacket(c: Config, p: bytes) {
    c.headerLen <= |p| == c.totalLength(p[..c.headerLen])
  }

  lemma WellLoggedOne(c: Config, log: seq<Piece>, p: Piece)
    requires WellLogged(c, log)
    requires p.Packet? ==> EndsInSync(log) && ProperPacket(c, p.packet)
    ensures WellLogged(c, log + [p])
  {
  }

  /** Taking bytes off the front of what is held or buffered and logging them as `p` keeps the balance. */
  lemma Logs(c: Config, m: Machine, input: bytes, p: Piece, m': Machine)
    requires Conserved(c, m, input)
    requires m'.log == m.log + [p]
    requires Held(m) + m.buf == PieceBytes(c, p) + (Held(m') + m'.buf)
    ensures Conserved(c, m', input)
  {
    FlattenOne(c, m.log, p);
    var f := Flatten(c, m.log);
    assert f + (PieceBytes(c, p) + (Held(m') + m'.buf)) == (f + PieceBytes(c, p)) + (Held(m') + m'.buf);
  }

  lemma LocateSyncAccounted(c: Config, m: Machine, input: bytes)
    requires c.Valid() && Accounted(c, m, input) && m.phase.Searching?
    ensures Accounted(c, LocateSync(c, m), input)
  {
    hide WellLogged;
    hide Conserved;
    var (found, k) := Find(m.buf, c.sync);
    var m1 := Machine(m.buf[k..], Searching, m.log + [Dropped(m.buf[..k])]);
    assert m.buf == m.buf[..k] + m.buf[k..];
    Logs(c, m, input, Dropped(m.buf[..k]), m1);
    WellLoggedOne(c, m.log, Dropped(m.buf[..k]));
    if found {
      var m2 := LocateSync(c, m);
      assert m2.log == m1.log + [SyncWord];
      assert m.buf[k..] == c.sync + m.buf[k + 4..];
      Logs(c, m1, input, SyncWord, m2);
      WellLoggedOne(c, m1.log, SyncWord);
    }
  }

  lemma UnpackHeaderAccounted(c: Config, m: Machine, input: bytes)
    requires c.Valid() && Accounted(c, m, input) && m.phase.Synced?
    ensures Accounted(c, UnpackHeader(c, m).0, input)
  {
    hide WellLogged;
    if c.headerLen <= |m.buf| {
      assert m.buf == m.buf[..c.headerLen] + m.buf[c.headerLen..];
      assert [] + m.buf == m.buf;
    }
  }

  lemma DeliverAccounted(c: Config, m: Machine, input: bytes, len: nat)
    requires c.Valid() && Accounted(c, m, input) && m.phase.HaveHeader?
    requires len == c.totalLength(m.phase.header) - c.headerLen && len <= |m.buf|
    ensures var p := m.phase.header + m.buf[..len];
            Accounted(c, Machine(m.buf[len..], Ready(p), m.log + [Packet(p)]), input)
  {
    hide WellLogged;
    hide Conserved;
    var h := m.phase.header;
    var p := h + m.buf[..len];
    var m' := Machine(m.buf[len..], Ready(p), m.log + [Packet(p)]);
    assert h + m.buf == p + ([] + m.buf[len..]);
    assert p[..c.headerLen] == h;
    Logs(c, m, input, Packet(p), m');
    WellLoggedOne(c, m.log, Packet(p));
  }

  lemma UnpackMessageAccounted(c: Config, m: Machine, input: bytes)
    requires c.Valid() && Accounted(c, m, input) && m.phase.HaveHeader?
    ensures Accounted(c, UnpackMessage(c, m).0, input)
  {
    hide WellLogged;
    hide Conserved;
    hide Finds;
    var h := m.phase.header;
    var len := c.totalLength(h) - c.headerLen;
    var m' := UnpackMessage(c, m).0;
    var (found, k) := Find(m.buf, c.sync);
    if found && k < len {
      assert h + m.buf == h + ([] + m.buf);
      Logs(c, m, input, Dropped(h), m');
      WellLoggedOne(c, m.log, Dropped(h));
    } else if len <= |m.buf| {
      DeliverAccounted(c, m, input, len);
    }
  }

  lemma RoundAccounted(c: Config, m: Machine, input: bytes)
    requires c.Valid() && Accounted(c, m, input)
    ensures Accounted(c, Round(c, m).0, input)
  {
    if !m.phase.Ready? {
      if m.phase.Searching? {
        LocateSyncAccounted(c, m, input);
      }
      var m1 := if m.phase.Searching? then LocateSync(c, m) else m;
      if m1.phase.Synced? {
        UnpackHeaderAccounted(c, m1, input);
      }
      var m2 := if m1.phase.Synced? then UnpackHeader(c, m1).0 else m1;
      if m2.phase.HaveHeader? {
        UnpackMessageAccounted(c, m2, input);
      }
    }
  }

  lemma {:induction false} PacketizeAccounted(c: Config, m: Machine, input: bytes)
    requires c.Valid() && Accounted(c, m, input)
    ensures Accounted(c, Packetize(c, m), input)
    decreases Measure(m)
  {
    RoundAccounted(c, m, input);
    if Round(c, m).1 {
      PacketizeAccounted(c, Round(c, m).0, input);
    }
  }

  /** What a step adds to the accepted input. */
  function Gain(capacity: nat, m: Machine, op: Op): bytes {
    if op.Push? && |m.buf| + |op.data| <= capacity then op.data else []
  }

  lemma StepAccounted(c: Config, capacity: nat, m: Machine, op: Op, input: bytes)
    requires c.Valid() && Accounted(c, m, input)
    ensures Accounted(c, Step(c, capacity, m, op), input + Gain(capacity, m, op))
  {
    hide WellLogged;
    var m' := Step(c, capacity, m, op);
    assert input + [] == input;
    match op
    case Push(data) =>
      if |m.buf| + |data| <= capacity {
        Right4(Flatten(c, m.log), Held(m), m.buf, data);
        Right3(Flatten(c, m.log), Held(m), m.buf);
        hide Flatten;
      }
    case Get =>
      PacketizeAccounted(c, m, input);
    case Pop =>
      assert [] + m.buf == m.buf;
      Logs(c, m, input, Dropped(Held(m)), m');
      WellLoggedOne(c, m.log, Dropped(Held(m)));
    case Clear =>
      assert Held(m) + m.buf + ([] + []) == Held(m) + m.buf;
      Logs(c, m, input, Dropped(Held(m) + m.buf), m');
      WellLoggedOne(c, m.log, Dropped(Held(m) + m.buf));
  }

  /** On every run over arbitrary bytes, each accepted byte is logged, held or still buffered. */
  lemma {:induction false} RunAccounted(c: Config, capacity: nat, m: Machine, ops: seq<Op>, input: bytes)
    requires c.Valid() && Accounted(c, m, input)
    ensures Accounted(c, Run(c, capacity, m, ops), input + Accepted(c, capacity, m, ops))
    decreases |ops|
  {
    hide WellLogged;
    hide Conserved;
    hide Step;
    if ops == [] {
      assert input + [] == input;
    } else {
      var m1 := Step(c, capacity, m, ops[0]);
      var gain := Gain(capacity, m, ops[0]);
      StepAccounted(c, capacity, m, ops[0], input);
      RunAccounted(c, capacity, m1, ops[1..], input + gain);
      assert input + (gain + Accepted(c, capacity, m1, ops[1..])) == input + gain + Accepted(c, capacity, m1, ops[1..]);
    }
  }

  /** Where log entry `i` begins in the input. */
  function Offset(c: Config, log: seq<Piece>, i: nat): nat
    requires i <= |log|
  {
    |Flatten(c, log[..i])|
  }

  lemma LogSplit(c: Config, log: seq<Piece>, i: nat)
    requires i < |log|
    ensures Flatten(c, log) == Flatten(c, log[..i]) + Flatten(c, [log[i]]) + Flatten(c, log[i + 1..])
    ensures Flatten(c, log[..i + 1]) == Flatten(c, log[..i]) + Flatten(c, [log[i]])
  {
    assert log == log[..i] + ([log[i]] + log[i + 1..]);
    FlattenConcat(c, log[..i], [log[i]] + log[i + 1..]);
    FlattenConcat(c, [log[i]], log[i + 1..]);
    assert log[..i + 1] == log[..i] + [log[i]];
    FlattenConcat(c, log[..i], [log[i]]);
  }

  /** `p` stands in the input at `at`, directly behind a sync word, and its header announces its length. */
  ghost predicate IsSlice(c: Config, input: bytes, at: nat, p: bytes) {
    && |c.sync| == 4 <= at && at + |p| <= |input|
    && input[at - 4..at] == c.sync
    && input[at..at + |p|] == p
    && ProperPacket(c, p)
  }

  lemma ThreeSlices(a: bytes, s: bytes, p: bytes, z: bytes)
    ensures var all := (a + s) + p + z;
            && all[|a|..|a| + |s|] == s
            && all[|a| + |s|..|a| + |s| + |p|] == p
  {
  }

  /** A log cut around a packet and the sync word before it. */
  lemma CutAround(c: Config, log: seq<Piece>, i: nat)
    requires 0 < i < |log| && log[i].Packet? && log[i - 1].SyncWord?
    ensures var before := Flatten(c, log[..i - 1]);
            && Flatten(c, log[..i]) == before + c.sync
            && Flatten(c, log) == (before + c.sync) + log[i].packet + Flatten(c, log[i + 1..])
  {
    LogSplit(c, log, i);
    LogSplit(c, log, i - 1);
    FlattenSingle(c, log[i]);
    FlattenSingle(c, log[i - 1]);
    assert log[..i - 1 + 1] == log[..i];
  }

  /** A packet of an accounted log, in terms of the input. */
  lemma SliceOf(c: Config, m: Machine, input: bytes, i: nat)
    requires c.Valid() && Accounted(c, m, input) && i < |m.log| && m.log[i].Packet?
    ensures IsSlice(c, input, Offset(c, m.log, i), m.log[i].packet)
  {
    var p := m.log[i].packet;
    assert ProperPacket(c, p);
    CutAround(c, m.log, i);
    var before := Flatten(c, m.log[..i - 1]);
    var z := Flatten(c, m.log[i + 1..]);
    var rest := Held(m) + m.buf;
    hide WellLogged;
    hide Flatten;
    Right3((before + c.sync) + p, z, rest);
    ThreeSlices(before, c.sync, p, z + rest);
  }

  /** The stretches of different log entries are disjoint and in stream order. */
  lemma {:induction false} SlicesInOrder(c: Config, log: seq<Piece>, i: nat, j: nat)
    requires i < j <= |log|
    ensures Offset(c, log, i) + |Flatten(c, [log[i]])| <= Offset(c, log, j)
  {
    LogSplit(c, log, i);
    assert log[..j] == log[..i + 1] + log[i + 1..j];
    FlattenConcat(c, log[..i + 1], log[i + 1..j]);
  }

  /** Where the `j`-th packet returned on a run from the start begins in the accepted input. */
  function Start(c: Config, capacity: nat, ops: seq<Op>, j: nat): nat
    requires c.Valid() && j < |Places(Run(c, capacity, Initial, ops).log)|
  {
    var log := Run(c, capacity, Initial, ops).log;
    Offset(c, log, Places(log)[j])
  }

  lemma ReturnedAt(c: Config, capacity: nat, ops: seq<Op>)
    requires c.Valid()
    ensures var log := Run(c, capacity, Initial, ops).log;
            var ps := Returned(c, capacity, Initial, ops);
            && |Places(log)| == |ps|
            && forall j :: 0 <= j < |ps| ==> log[Places(log)[j]] == Packet(ps[j])
  {
    ReturnedIsDelivered(c, capacity, Initial, ops);
    assert [] + Returned(c, capacity, Initial, ops) == Returned(c, capacity, Initial, ops);
    PlacesDeliver(Run(c, capacity, Initial, ops).log);
  }

  lemma InitialAccounted(c: Config)
    ensures Accounted(c, Initial, [])
  {
  }

  /**
   Each packet get_packet returns on any run is a contiguous slice of the accepted input, directly
   behind a sync word, of the length its own header announces.
   */
  lemma PacketIsSlice(c: Config, capacity: nat, ops: seq<Op>, j: nat)
    requires c.Valid() && j < |Returned(c, capacity, Initial, ops)|
    ensures j < |Places(Run(c, capacity, Initial, ops).log)|
    ensures IsSlice(c, Accepted(c, capacity, Initial, ops), Start(c, capacity, ops, j),
              Returned(c, capacity, Initial, ops)[j])
  {
    hide WellLogged;
    hide Places;
    hide IsSlice;
    hide Run;
    var input := Accepted(c, capacity, Initial, ops);
    ReturnedAt(c, capacity, ops);
    assert [] + input == input;
    InitialAccounted(c);
    RunAccounted(c, capacity, Initial, ops, []);
    var m := Run(c, capacity, Initial, ops);
    SliceOf(c, m, input, Places(m.log)[j]);
  }

  lemma PacketsApart(c: Config, m: Machine, input: bytes, i: nat, k: nat)
    requires c.Valid() && Accounted(c, m, input)
    requires i < k < |m.log| && m.log[i].Packet? && m.log[k].Packet?
    ensures Offset(c, m.log, i) + |m.log[i].packet| + 4 <= Offset(c, m.log, k)
  {
    assert m.log[k - 1].SyncWord?;
    hide WellLogged;
    hide Flatten;
    hide Conserved;
    FlattenSingle(c, m.log[i]);
    FlattenSingle(c, m.log[k - 1]);
    SlicesInOrder(c, m.log, i, k - 1);
    SlicesInOrder(c, m.log, k - 1, k);
  }

  /** The slices of the packets and of the sync words before them are disjoint and in stream order. */
  lemma PacketsInOrder(c: Config, capacity: nat, ops: seq<Op>, j: nat, k: nat)
    requires c.Valid() && j < k < |Returned(c, capacity, Initial, ops)|
    ensures k < |Places(Run(c, capacity, Initial, ops).log)|
    ensures Start(c, capacity, ops, j) + |Returned(c, capacity, Initial, ops)[j]| + 4 <= Start(c, capacity, ops, k)
  {
    hide WellLogged;
    hide Places;
    hide Run;
    hide Offset;
    ReturnedAt(c, capacity, ops);
    var input := Accepted(c, capacity, Initial, ops);
    assert [] + input == input;
    InitialAccounted(c);
    RunAccounted(c, capacity, Initial, ops, []);
    var m := Run(c, capacity, Initial, ops);
    PacketsApart(c, m, input, Places(m.log)[j], Places(m.log)[k]);
  }

  // ----- a failed search keeps every byte that may still matter -----

  /** A byte given up by a failed search starts no sync word, whatever arrives later. */
  lemma NothingLost(c: Config, m: Machine, later: bytes, k: nat)
    requires c.Valid() && m.phase.Searching? && !Find(m.buf, c.sync).0
    requires k < |m.buf| - |LocateSync(c, m).buf|
    ensures !OccursAt(m.buf + later, c.sync, k)
  {
    assert k + 4 <= |m.buf|;
    assert (m.buf + later)[k..k + 4] == m.buf[k..k + 4];
    assert !OccursAt(m.buf, c.sync, k);
  }
}
