/**
 The class of `Packetizer.hpp`: flags, a packet buffer and a circular buffer changed in place. Every
 method is proved to take the abstract machine of PacketizerSpec one step.
 */
module Packetizer {
  import opened Bytes
  import C = Circular
  import opened PacketizerSpec

  class Packetizer {
    const c: Config
    const buffer: C.Circular<byte>
    const packet: array<byte>
    var headerRdy: bool
    var packetRdy: bool
    var syncFound: bool
    ghost var log: seq<Piece>

    ghost predicate Valid()
      reads this, buffer
    {
      && c.Valid()
      && buffer.Valid()
      && packet.Length == c.maxLen
      && c.headerLen <= c.maxLen
      && packet != buffer.buffer
      && (packetRdy ==> headerRdy)
      && (headerRdy ==> syncFound)
    }

    ghost function Header(): bytes
      reads packet
      requires c.headerLen <= packet.Length
    {
      packet[..c.headerLen]
    }

    ghost function CurrentPhase(): Phase
      reads this, buffer, packet
      requires Valid()
    {
      if packetRdy then Ready(packet[..c.totalLength(Header())])
      else if headerRdy then HaveHeader(Header())
      else if syncFound then Synced
      else Searching
    }

    /** The abstract machine this object is in. */
    ghost function State(): (m: Machine)
      reads this, buffer, buffer.buffer, packet
      requires Valid()
      ensures Shaped(c, m)
    {
      Machine(buffer.Contents(), CurrentPhase(), log)
    }

    constructor (config: Config, capacity: nat)
      requires config.Valid() && 0 < capacity
      ensures Valid() && c == config && buffer.n == capacity && State() == Initial
      ensures fresh(buffer) && fresh(buffer.buffer) && fresh(packet)
    {
      c := config;
      buffer := new C.Circular(capacity);
      var anyHeader := seq(config.headerLen, _ => 0);
      assert config.headerLen <= config.totalLength(anyHeader) <= config.maxLen;
      packet := new byte[config.maxLen];
      headerRdy, packetRdy, syncFound := false, false, false;
      log := [];
    }

    method PushBytes(data: bytes) returns (ok: bool)
      requires Valid()
      modifies buffer, buffer.buffer
      ensures Valid()
      ensures State() == Step(c, buffer.n, old(State()), Push(data))
      ensures ok == (|old(State()).buf| + |data| <= buffer.n)
    {
      ok := buffer.PushBack(data);
    }

    /** The packet at the front of the line, or nothing; asking again returns the same packet. */
    method GetPacket() returns (out: Option<bytes>)
      requires Valid()
      modifies this, buffer, packet
      ensures Valid()
      ensures State() == Step(c, buffer.n, old(State()), Get)
      ensures out == if State().phase.Ready? then Some(State().phase.packet) else None
    {
      Packetize();
      if headerRdy && packetRdy {
        var len := c.totalLength(packet[..c.headerLen]);
        out := Some(packet[..len]);
      } else {
        out := None;
      }
    }

    method PopPacket()
      requires Valid()
      modifies this, packet
      ensures Valid()
      ensures State() == Step(c, buffer.n, old(State()), Pop)
    {
      log := log + [Dropped(Held(State()))];
      forall i | 0 <= i < packet.Length {
        packet[i] := 0;
      }
      syncFound := false;
      headerRdy := false;
      packetRdy := false;
    }

    method Clear()
      requires Valid()
      modifies this, buffer, buffer.buffer
      ensures Valid()
      ensures State() == Step(c, buffer.n, old(State()), PacketizerSpec.Clear)
    {
      log := log + [Dropped(Held(State()) + State().buf)];
      buffer.Clear(0);
      headerRdy := false;
      packetRdy := false;
      syncFound := false;
    }

    method Packetize()
      requires Valid()
      modifies this, buffer, packet
      ensures Valid()
      ensures State() == PacketizerSpec.Packetize(c, old(State()))
    {
      hide PacketizerSpec.UnpackMessage;
      var retry := true;
      while retry
        invariant Valid()
        invariant retry ==> PacketizerSpec.Packetize(c, State()) == PacketizerSpec.Packetize(c, old(State()))
        invariant !retry ==> State() == PacketizerSpec.Packetize(c, old(State()))
        decreases if retry then 1 + Measure(State()) else 0
      {
        ghost var m := State();
        retry := false;
        if packetRdy {
          assert PacketizerSpec.Packetize(c, m) == m;
          return;
        }
        if !syncFound {
          LocateSync();
        }
        if !headerRdy && syncFound {
          retry := UnpackHeader();
        }
        if headerRdy {
          retry := UnpackMessage();
        }
        assert (State(), retry) == Round(c, m);
      }
    }

    method FindSync() returns (found: bool, syncLoc: nat)
      requires Valid()
      ensures (found, syncLoc) == Find(State().buf, c.sync)
    {
      ghost var r := Find(buffer.Contents(), c.sync);
      found, syncLoc := buffer.FindPattern(c.sync);
      C.FindsUnique(buffer.Contents(), c.sync, found, syncLoc, r.0, r.1);
    }

    method LocateSync()
      requires Valid() && State().phase.Searching?
      modifies this, buffer
      ensures Valid()
      ensures State() == PacketizerSpec.LocateSync(c, old(State()))
    {
      ghost var m := State();
      var found, syncLoc := FindSync();
      syncFound := found;
      if syncFound {
        buffer.Remove(syncLoc);
        buffer.Remove(|c.sync|);
        log := log + [Dropped(m.buf[..syncLoc]), SyncWord];
      } else {
        if syncLoc > 0 {
          buffer.Remove(syncLoc);
        }
        log := log + [Dropped(m.buf[..syncLoc])];
      }
    }

    method UnpackHeader() returns (retry: bool)
      requires Valid() && State().phase.Synced?
      modifies this, buffer, packet
      ensures Valid()
      ensures (State(), retry) == PacketizerSpec.UnpackHeader(c, old(State()))
    {
      ghost var m := State();
      retry := false;
      if c.headerLen <= buffer.Size() {
        var found, syncLoc := FindSync();
        if found && syncLoc < c.headerLen {
          retry := true;
          syncFound := false;
        } else {
          var ok := buffer.PopFront(packet, 0, c.headerLen);
          assert packet[..c.headerLen] == m.buf[..c.headerLen];
          headerRdy := true;
        }
      }
    }

    method TakeBody(len: nat)
      requires Valid() && State().phase.HaveHeader?
      requires len == c.totalLength(State().phase.header) - c.headerLen && len <= |State().buf|
      modifies this, buffer, packet
      ensures Valid()
      ensures var m := old(State());
              var p := m.phase.header + m.buf[..len];
              State() == Machine(m.buf[len..], Ready(p), m.log + [Packet(p)])
    {
      ghost var m := State();
      var ok := buffer.PopFront(packet, c.headerLen, len);
      assert packet[..c.headerLen] == m.phase.header;
      assert packet[..c.headerLen + len] == m.phase.header + m.buf[..len];
      packetRdy := true;
      log := log + [Packet(m.phase.header + m.buf[..len])];
    }

    method DropHeader()
      requires Valid() && State().phase.HaveHeader?
      modifies this
      ensures Valid()
      ensures State()
              == old(State()).(phase := Searching, log := old(State()).log + [Dropped(old(State()).phase.header)])
    {
      log := log + [Dropped(State().phase.header)];
      syncFound := false;
      headerRdy := false;
    }

    method UnpackMessage() returns (retry: bool)
      requires Valid() && State().phase.HaveHeader?
      modifies this, buffer, packet
      ensures Valid()
      ensures (State(), retry) == PacketizerSpec.UnpackMessage(c, old(State()))
    {
      ghost var m := State();
      retry := false;
      var msgLen := c.totalLength(packet[..c.headerLen]);
      var len := msgLen - c.headerLen;
      var found, syncLoc := FindSync();
      hide Find;
      if found && syncLoc < len {
        DropHeader();
        retry := true;
      } else if len <= buffer.Size() {
        TakeBody(len);
      }
    }
  }
}
