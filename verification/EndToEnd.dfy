/** From a command at the sender to the parser of the peer: midi_sender.c, rtp_packet.c,
    midi_payload.c and midi_state.c together, in the order net_socket.c calls them. */
module EndToEnd {
  import opened Bytes
  import opened MidiCommand
  import opened MidiParser
  import opened MidiPrinter
  import opened RealTime
  import opened Folds
  import MidiPayload
  import MidiSender
  import RtpPacket

  /** What the peer's parser makes of a packet: the parser and the commands queued. `None` stands
      for the packets that the peer reads past their end, or whose payload it does not unpack
      and then uses all the same. */
  function Received(packet: seq<byte>, p: Parser): Option<(Parser, seq<Command>)> {
    var rtp := RtpPacket.Unpacked(packet);
    if rtp.None? then None
    else
      var pl := MidiPayload.Unpacked(rtp.value.payload);
      if pl.None? then None else Some(Send(Rtp, p, pl.value.z, pl.value.buffer))
  }

  /** The peer queues exactly these commands. */
  predicate Queues(packet: seq<byte>, p: Parser, cs: seq<Command>) {
    var r := Received(packet, p);
    r.Some? && r.value.1 == cs
  }

  /** A whole command: channel voice with its status octet, real-time, or SysEx from F0 to F7. */
  predicate Whole(i: Item) {
    && Legal(Memory(0, false), i)
    && (i.Voice? ==> !i.omitted)
    && (i.SysEx? ==> i.first == 0xF0 && i.last == 0xF7)
  }

  function PacketFor(header: RtpPacket.Header, c: Command, journal: seq<byte>): seq<byte> {
    MidiSender.Wire(header, MidiPayload.FromCommand(c), journal)
  }

  lemma PrintedIsPayload(i: Item, delta: u64)
    requires Whole(i)
    ensures [AsCommand(i, delta).status] + AsCommand(i, delta).data == Print(i)
    ensures AsCommand(i, delta).status >= 0x80
  {
  }

  lemma WholeParses(p: Parser, m: Memory, i: Item)
    requires Idle(p, m) && Whole(i)
    ensures Send(Rtp, p, false, Print(i)).1 == [AsCommand(i, 0)]
    ensures Send(Rtp, p, false, Print(i)).0.hold == []
  {
    var c := Config(p.(status := WaitCommand, delta := 0), false);
    var s := Print(i);
    assert s == [s[0]] + s[1..];
    RunCons(Rtp, Config(p, false), s[0], s[1..]);
    RunCons(Rtp, c, s[0], s[1..]);
    assert Begin(c) == Begin(Config(p, false));
    match i {
      case Voice(_, _, _) => VoiceParses(Rtp, c, m, i);
      case SysEx(_, _, _) => SysexParses(Rtp, c, m, i);
      case SystemRealTime(status) => RunOne(Rtp, c, status);
    }
  }

  /** Octets in the commands. */
  function Size(cs: seq<Command>): nat {
    if cs == [] then 0 else 1 + |cs[0].data| + Size(cs[1..])
  }

  lemma {:induction false} SizeConcat(a: seq<Command>, b: seq<Command>)
    ensures Size(a + b) == Size(a) + Size(b)
  {
    if a == [] {
      assert a + b == b;
    } else {
      assert (a + b)[1..] == a[1..] + b;
      SizeConcat(a[1..], b);
    }
  }

  lemma StepBounded(mode: Mode, c: Config, b: byte)
    ensures var o := Step(mode, c, b);
            |o.out| <= 1 && (if o.out == [] then 0 else 1 + |o.out[0].data|) + |o.c.p.hold| <= |c.p.hold| + 2
  {
  }

  /** The parser adds at most one octet, a remembered status, to each octet it reads. */
  lemma {:induction false} OutputBounded(mode: Mode, c: Config, s: seq<byte>)
    ensures Size(Run(mode, c, s).out) + |Run(mode, c, s).c.p.hold| <= |c.p.hold| + 2 * |s|
    decreases |s|
  {
    if s != [] {
      var first := Step(mode, c, s[0]);
      assert s == [s[0]] + s[1..];
      RunCons(mode, c, s[0], s[1..]);
      StepBounded(mode, c, s[0]);
      OutputBounded(mode, first.c, s[1..]);
      SizeConcat(first.out, Run(mode, first.c, s[1..]).out);
      if first.out != [] {
        assert first.out == [first.out[0]] && first.out[1..] == [];
      }
    }
  }

  /** With the B flag clear the receiver takes at most fifteen octets, and none of a command of
      16 to 255. */
  lemma ClearFlagTakes(pl: MidiPayload.Payload, journal: seq<byte>)
    requires MidiPayload.Valid(pl) && !pl.b
    ensures var r := MidiPayload.Unpacked(MidiPayload.Packed(pl) + journal);
            r.Some? ==> |r.value.buffer| <= 15 && r.value.z == pl.z && (16 <= pl.len < 256 ==> r.value.buffer == [])
  {
    MidiPayload.FlagsBits(pl, if pl.len <= 15 then pl.len else pl.len / 256 % 16);
  }

  /** Too few octets to make the command of. */
  lemma TooLittle(p: Parser, s: seq<byte>, i: Item)
    requires Whole(i) && p.hold == [] && |s| <= 15 && |Print(i)| > 15 && (|Print(i)| < 256 ==> s == [])
    ensures Send(Rtp, p, false, s).1 != [AsCommand(i, 0)]
  {
    PrintedIsPayload(i, 0);
    OutputBounded(Rtp, Config(p, false), s);
    SizeOfOne(AsCommand(i, 0));
  }

  /** The command section of the packet for a command, and what follows it. */
  function Section(c: Command, journal: seq<byte>): seq<byte> {
    MidiPayload.Packed(MidiPayload.FromCommand(c).(j := journal != [])) + journal
  }

  lemma SectionArrives(header: RtpPacket.Header, c: Command, journal: seq<byte>, p: Parser)
    ensures Received(PacketFor(header, c, journal), p) ==
            var pl := MidiPayload.Unpacked(Section(c, journal));
            if pl.None? then None else Some(Send(Rtp, p, pl.value.z, pl.value.buffer))
  {
    RtpPacket.RoundTrip(RtpPacket.Packet(header, Section(c, journal)));
  }

  lemma ShortArrives(c: Command, journal: seq<byte>)
    requires c.status >= 0x80 && |c.data| < 15
    ensures var pl := MidiPayload.Unpacked(Section(c, journal));
            pl.Some? && !pl.value.z && pl.value.buffer == [c.status] + c.data
  {
    MidiPayload.RoundTripExact(MidiPayload.FromCommand(c).(j := journal != []), journal);
  }

  lemma LongIsCut(c: Command, journal: seq<byte>)
    requires c.status >= 0x80 && |c.data| >= 15
    ensures var pl := MidiPayload.Unpacked(Section(c, journal));
            pl.Some? ==> |pl.value.buffer| <= 15 && !pl.value.z && (|c.data| < 255 ==> pl.value.buffer == [])
  {
    ClearFlagTakes(MidiPayload.FromCommand(c).(j := journal != []), journal);
  }

  /** A command crosses the wire unchanged, whatever journal travels with it: a peer between
      commands gets exactly that command, with delta time 0. It does so exactly when the
      command has at most fifteen octets, because the sender never sets the B flag that a
      longer one needs. */
  lemma CommandCrosses(header: RtpPacket.Header, i: Item, delta: u64, journal: seq<byte>, p: Parser, m: Memory)
    requires Whole(i) && Idle(p, m)
    ensures Queues(PacketFor(header, AsCommand(i, delta), journal), p, [AsCommand(i, 0)]) <==> |Print(i)| <= 15
  {
    var c := AsCommand(i, delta);
    PrintedIsPayload(i, delta);
    SectionArrives(header, c, journal, p);
    if |Print(i)| <= 15 {
      ShortArrives(c, journal);
      WholeParses(p, m, i);
    } else {
      LongIsCut(c, journal);
      LongIsLost(Section(c, journal), p, i);
    }
  }

  lemma LongIsLost(s: seq<byte>, p: Parser, i: Item)
    requires Whole(i) && p.hold == [] && |Print(i)| > 15
    requires var r := MidiPayload.Unpacked(s);
             r.Some? ==> |r.value.buffer| <= 15 && !r.value.z && (|Print(i)| < 256 ==> r.value.buffer == [])
    ensures var r := MidiPayload.Unpacked(s);
            r.Some? ==> Send(Rtp, p, r.value.z, r.value.buffer).1 != [AsCommand(i, 0)]
  {
    var r := MidiPayload.Unpacked(s);
    if r.Some? {
      TooLittle(p, r.value.buffer, i);
    }
  }

  /** So a receiver applies to its controllers and programs what the sender records of them. */
  lemma EventCrosses(header: RtpPacket.Header, i: Item, delta: u64, journal: seq<byte>, p: Parser, m: Memory,
                     there: MidiSender.Host, here: MidiSender.Host)
    requires Whole(i) && Idle(p, m) && i.Voice? && there.stray == here.stray
    ensures exists c :: Queues(PacketFor(header, AsCommand(i, delta), journal), p, [c]) &&
                        MidiSender.EventOf(c, there) == MidiSender.EventOf(AsCommand(i, delta), here)
  {
    CommandCrosses(header, i, delta, journal, p, m);
    assert Complete(AsCommand(i, delta));
  }

  lemma SizeOfOne(c: Command)
    ensures Size([c]) == 1 + |c.data|
  {
    assert [c][1..] == [];
  }
}
