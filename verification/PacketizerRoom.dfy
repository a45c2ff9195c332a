/**
 That the frame synchroniser never runs full of junk: what a call of get_packet that returns nothing leaves in
 the buffer, and that clear() forgets everything.
 */
module PacketizerRoom {
  import opened Bytes
  import opened PacketizerSpec

  // ----- junk leaves the buffer -----

  /** A search that finds nothing keeps the last five bytes, or all when there are no more. */
  lemma SearchKeeps(c: Config, m: Machine)
    requires c.Valid() && LocateSync(c, m).phase.Searching?
    ensures var n := if |m.buf| < 5 then |m.buf| else 5;
            LocateSync(c, m).buf == m.buf[|m.buf| - n..]
  {
  }

  /**
   What get_packet leaves when it returns nothing: five bytes in which no sync word is found; less than a header
   behind a sync word; or less than the rest of a packet behind its header.
   */
  predicate Waiting(c: Config, m: Machine) {
    match m.phase
    case Searching => |m.buf| <= 5
    case Synced => |m.buf| < c.headerLen
    case HaveHeader(h) => |h| == c.headerLen && |h| + |m.buf| < c.totalLength(h)
    case Ready(_) => true
  }

  lemma RoundWaits(c: Config, m: Machine)
    requires c.Valid() && Shaped(c, m)
    ensures var (m', retry) := Round(c, m); retry || Waiting(c, m')
  {
    hide Find;
    if m.phase.Searching? && LocateSync(c, m).phase.Searching? {
      SearchKeeps(c, m);
    }
  }

  lemma {:induction false} CallWaits(c: Config, m: Machine)
    requires c.Valid() && Shaped(c, m)
    ensures Waiting(c, Packetize(c, m))
    decreases Measure(m)
  {
    RoundWaits(c, m);
    var (m', retry) := Round(c, m);
    if retry {
      CallWaits(c, m');
    }
  }

  lemma {:induction false} RunSplit(c: Config, capacity: nat, m: Machine, ops: seq<Op>, op: Op)
    requires c.Valid() && Shaped(c, m)
    ensures Run(c, capacity, m, ops + [op]) == Step(c, capacity, Run(c, capacity, m, ops), op)
    decreases |ops|
  {
    hide Step;
    if ops == [] {
      assert [] + [op] == [op] && [op][1..] == [];
    } else {
      assert (ops + [op])[1..] == ops[1..] + [op];
      RunSplit(c, capacity, Step(c, capacity, m, ops[0]), ops[1..], op);
    }
  }

  /**
   After any run and a call of get_packet that returns nothing there is room for more: while it searches, for all
   but five bytes of the capacity; and in any case for all but the longest packet, or those five bytes.
   */
  lemma RoomAfterGet(c: Config, capacity: nat, m: Machine, ops: seq<Op>, data: bytes)
    requires c.Valid() && Shaped(c, m)
    ensures var m1 := Run(c, capacity, m, ops + [Get]);
            && (m1.phase.Searching? && |data| + 5 <= capacity ==>
                  Step(c, capacity, m1, Push(data)).buf == m1.buf + data)
            && (!m1.phase.Ready? && |data| + 5 <= capacity && |data| + c.maxLen <= capacity ==>
                  Step(c, capacity, m1, Push(data)).buf == m1.buf + data)
  {
    hide Packetize;
    RunSplit(c, capacity, m, ops, Get);
    var m0 := Run(c, capacity, m, ops);
    var m1 := Packetize(c, m0);
    CallWaits(c, m0);
    hide Run;
    if m1.phase.HaveHeader? {
      assert c.totalLength(m1.phase.header) <= c.maxLen;
    } else if m1.phase.Synced? {
      var h: bytes := seq(c.headerLen, _ => 0);
      assert c.headerLen <= c.totalLength(h) <= c.maxLen;
    }
  }

  // ----- clear -----

  /** Two machines that differ in what they have logged only. */
  predicate Alike(m: Machine, m': Machine) {
    m.buf == m'.buf && m.phase == m'.phase
  }

  lemma LocateAlike(c: Config, m: Machine, m': Machine)
    requires c.Valid() && Alike(m, m')
    ensures Alike(LocateSync(c, m), LocateSync(c, m'))
  {
    hide Find;
  }

  lemma HeaderAlike(c: Config, m: Machine, m': Machine)
    requires c.Valid() && Alike(m, m')
    ensures Alike(UnpackHeader(c, m).0, UnpackHeader(c, m').0) && UnpackHeader(c, m).1 == UnpackHeader(c, m').1
  {
    hide Find;
  }

  lemma MessageAlike(c: Config, m: Machine, m': Machine)
    requires c.Valid() && Alike(m, m') && m.phase.HaveHeader? && Shaped(c, m)
    ensures Alike(UnpackMessage(c, m).0, UnpackMessage(c, m').0) && UnpackMessage(c, m).1 == UnpackMessage(c, m').1
  {
    hide Find;
  }

  lemma HeaderShaped(c: Config, m: Machine)
    requires c.Valid() && m.phase.Synced?
    ensures Shaped(c, UnpackHeader(c, m).0)
  {
    hide Find;
  }

  lemma LocatePhase(c: Config, m: Machine)
    requires c.Valid()
    ensures var m1 := LocateSync(c, m); m1.phase.Searching? || m1.phase.Synced?
  {
    hide Find;
  }

  lemma RoundAlike(c: Config, m: Machine, m': Machine)
    requires c.Valid() && Shaped(c, m) && Alike(m, m')
    ensures Shaped(c, m') && Alike(Round(c, m).0, Round(c, m').0) && Round(c, m).1 == Round(c, m').1
  {
    LocateAlike(c, m, m');
    LocatePhase(c, m);
    hide LocateSync;
    var (m1, n1) := if m.phase.Searching? then (LocateSync(c, m), LocateSync(c, m')) else (m, m');
    if m1.phase.Synced? {
      HeaderAlike(c, m1, n1);
      HeaderShaped(c, m1);
    }
    hide UnpackHeader;
    var (m2, n2) := if m1.phase.Synced? then (UnpackHeader(c, m1).0, UnpackHeader(c, n1).0) else (m1, n1);
    if m2.phase.HaveHeader? {
      MessageAlike(c, m2, n2);
    }
    hide UnpackMessage;
  }

  lemma {:induction false} CallAlike(c: Config, m: Machine, m': Machine)
    requires c.Valid() && Shaped(c, m) && Alike(m, m')
    ensures Shaped(c, m') && Alike(Packetize(c, m), Packetize(c, m'))
    decreases Measure(m)
  {
    RoundAlike(c, m, m');
    hide Round;
    if Round(c, m).1 {
      CallAlike(c, Round(c, m).0, Round(c, m').0);
    }
  }

  lemma StepAlike(c: Config, capacity: nat, m: Machine, m': Machine, op: Op)
    requires c.Valid() && Shaped(c, m) && Alike(m, m')
    ensures Shaped(c, m') && Alike(Step(c, capacity, m, op), Step(c, capacity, m', op))
  {
    hide Packetize;
    CallAlike(c, m, m');
  }

  lemma {:induction false} RunAlike(c: Config, capacity: nat, m: Machine, m': Machine, ops: seq<Op>)
    requires c.Valid() && Shaped(c, m) && Alike(m, m')
    ensures Shaped(c, m') && Alike(Run(c, capacity, m, ops), Run(c, capacity, m', ops))
    ensures Returned(c, capacity, m, ops) == Returned(c, capacity, m', ops)
    decreases |ops|
  {
    hide Step;
    if ops != [] {
      StepAlike(c, capacity, m, m', ops[0]);
      RunAlike(c, capacity, Step(c, capacity, m, ops[0]), Step(c, capacity, m', ops[0]), ops[1..]);
    }
  }

  /** After clear() every run returns what it returns from the start. */
  lemma ClearForgets(c: Config, capacity: nat, m: Machine, ops: seq<Op>)
    requires c.Valid() && Shaped(c, m)
    ensures var cleared := Step(c, capacity, m, Clear);
            && Alike(Run(c, capacity, cleared, ops), Run(c, capacity, Initial, ops))
            && Returned(c, capacity, cleared, ops) == Returned(c, capacity, Initial, ops)
  {
    hide Run;
    hide Returned;
    RunAlike(c, capacity, Step(c, capacity, m, Clear), Initial, ops);
  }

  /** After pop_packet every run returns what it returns from a search of the bytes that are buffered. */
  lemma PopRestarts(c: Config, capacity: nat, m: Machine, ops: seq<Op>)
    requires c.Valid() && Shaped(c, m)
    ensures Returned(c, capacity, Step(c, capacity, m, Pop), ops)
         == Returned(c, capacity, Machine(m.buf, Searching, []), ops)
  {
    hide Run;
    hide Returned;
    RunAlike(c, capacity, Step(c, capacity, m, Pop), Machine(m.buf, Searching, []), ops);
  }

  /** A push that does not fit changes nothing that any run returns, one that fits is the push of its bytes in order. */
  lemma PushedWhole(c: Config, capacity: nat, m: Machine, data: bytes, more: bytes)
    requires c.Valid() && Shaped(c, m)
    ensures |m.buf| + |data| > capacity ==> Step(c, capacity, m, Push(data)) == m
    ensures |m.buf| + |data| + |more| <= capacity ==>
              Step(c, capacity, Step(c, capacity, m, Push(data)), Push(more))
              == Step(c, capacity, m, Push(data + more))
  {
    Right3(m.buf, data, more);
  }
}
