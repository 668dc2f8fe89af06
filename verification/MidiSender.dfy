/** Sending one command to every connection (midi_sender.c). */
module MidiSender {
  import opened Bytes
  import opened MidiCommand
  import opened Connection
  import opened Recovery
  import Journal
  import JournalHistory
  import JournalWire
  import MidiPayload
  import RtpPacket

  /** The packet for one connection: header, command section with the J flag telling whether a
      journal follows, journal. */
  function Wire(header: RtpPacket.Header, pl: MidiPayload.Payload, journal: seq<byte>): seq<byte>
    requires MidiPayload.Valid(pl)
  {
    RtpPacket.Packed(RtpPacket.Packet(header, MidiPayload.Packed(pl.(j := journal != [])) + journal))
  }

  /** The packet is built in one buffer by code repeated from `rtp_packet_pack` and
      `midi_payload_pack`. It is the same packet, and as many octets are written as were
      allocated. */
  method BuildPacket(header: RtpPacket.Header, pl: MidiPayload.Payload, journal: seq<byte>)
    returns (packet: array<byte>, written: nat)
    requires MidiPayload.Valid(pl)
    ensures fresh(packet) && packet[..] == Wire(header, pl, journal) && written == packet.Length
  {
    var len := pl.len;
    var packedLen := 1 + len + (if len > 15 then 1 else 0);
    packet := new byte[RtpPacket.HEADER_SIZE + packedLen + |journal|](_ => 0);
    written := PutRtpHeader(packet, header);
    ghost var rtp := packet[..written];
    written := PutPayloadHeader(packet, written, pl, |journal| > 0);
    written := Put(packet, written, pl.buffer[..len]);
    if |journal| > 0 {
      written := Put(packet, written, journal);
    }
    ghost var head := MidiPayload.PackedHeader(pl.(j := journal != []));
    assert packet[..written] == rtp + head + pl.buffer[..len] + journal;
    Regroup(rtp, head, pl.buffer[..len], journal);
    assert packet[..written] == packet[..];
  }

  lemma Regroup(a: seq<byte>, b: seq<byte>, c: seq<byte>, d: seq<byte>)
    ensures a + b + c + d == a + ((b + c) + d)
  {
  }

  method PutPayloadHeader(packet: array<byte>, p: nat, pl: MidiPayload.Payload, hasJournal: bool) returns (q: nat)
    requires p + (if pl.len > 15 then 2 else 1) <= packet.Length
    modifies packet
    ensures q == p + (if pl.len > 15 then 2 else 1)
    ensures packet[..q] == old(packet[..p]) + MidiPayload.PackedHeader(pl.(j := hasJournal))
  {
    var flags: nat := 0;
    if pl.b { flags := flags + 0x80; }
    if hasJournal { flags := flags + 0x40; }
    if pl.z { flags := flags + 0x20; }
    if pl.p { flags := flags + 0x10; }
    assert flags == MidiPayload.Flags(pl.(j := hasJournal));
    if pl.len <= 15 {
      q := Put(packet, p, [flags + pl.len]);
    } else {
      q := Put(packet, p, [flags + pl.len / 256 % 16]);
      q := Put(packet, q, [pl.len % 256]);
    }
  }

  method PutRtpHeader(packet: array<byte>, h: RtpPacket.Header) returns (p: nat)
    requires packet.Length >= RtpPacket.HEADER_SIZE
    modifies packet
    ensures p == RtpPacket.HEADER_SIZE && packet[..p] == RtpPacket.PackedHeader(h)
  {
    p := PutUint(packet, 0, RtpPacket.HeaderWord(h), SIZEOF_U16);
    p := PutUint(packet, p, h.seqNo, SIZEOF_U16);
    p := PutUint(packet, p, h.timestamp, SIZEOF_U32);
    p := PutUint(packet, p, h.ssrc, SIZEOF_U32);
  }

  /** What the C language leaves to the machine: the bit set by a shift out of range, if any,
      and the octet behind the end of a command's data. */
  datatype Host = Host(stray: nibble, beyond: byte)

  /** Data octet `k` as the journal's records read it. As soon as there is any data the second
      octet is read too, which is behind the end when there is only one. */
  function Data(c: Command, k: nat, host: Host): (r: byte)
    ensures r < 0x80
  {
    if c.data == [] then 0 else if k < |c.data| then c.data[k] % 128 else host.beyond % 128
  }

  /** What the journal will be told of a command. */
  function EventOf(c: Command, host: Host): Event {
    if c.status < 0x80 || c.status >= 0xF0 then SendOther
    else
      var message, channel := c.status / 16, c.status % 16;
      if message == 0x8 then SendNoteOff(channel, Data(c, 0, host), host.stray)
      else if message == 0x9 then SendNoteOn(channel, Data(c, 0, host), Data(c, 1, host))
      else if message == 0xB then SendControl(channel, Data(c, 0, host), Data(c, 1, host))
      else if message == 0xC then SendProgram(channel, Data(c, 0, host))
      else SendOther
  }

  /** The journal is told something that depends on the octet behind the end exactly by a NoteOn
      or a controller with one data octet. A complete command is none. */
  lemma BeyondMatters(c: Command, stray: nibble)
    ensures (forall a: byte, b: byte :: EventOf(c, Host(stray, a)) == EventOf(c, Host(stray, b))) <==>
            !(c.status / 16 in {0x9, 0xB} && |c.data| == 1)
    ensures Complete(c) ==> !(c.status / 16 in {0x9, 0xB} && |c.data| == 1)
  {
    if c.status / 16 in {0x9, 0xB} && |c.data| == 1 {
      assert Data(c, 1, Host(stray, 0)) != Data(c, 1, Host(stray, 1));
      assert EventOf(c, Host(stray, 0)) != EventOf(c, Host(stray, 1));
    }
  }

  function Recorded(j: Journal.State, e: Event, seqNo: u32): (r: Journal.State)
    requires Journal.Valid(j)
    ensures Journal.Valid(r)
  {
    if e.SendOther? then j else JournalHistory.Do(j, AsOp(e, seqNo))
  }

  method RecordEvent(ctx: Context, e: Event)
    requires ctx.Valid()
    modifies ctx.journal
    ensures ctx.Valid() && ctx.journal.View() == Recorded(old(ctx.journal.View()), e, ctx.seqNo)
  {
    match e {
      case SendNoteOff(i, note, stray) => ctx.journal.AddNote(ctx.seqNo, i, true, note, 0, stray);
      case SendNoteOn(i, note, velocity) => ctx.journal.AddNote(ctx.seqNo, i, false, note, velocity, 0);
      case SendControl(i, number, value) => ctx.journal.AddControl(ctx.seqNo, i, number, value);
      case SendProgram(i, program) => ctx.journal.AddProgram(ctx.seqNo, i, program);
      case SendOther =>
    }
  }

  function SendHeader(sendSsrc: u32, seqNo: u32, timestamp: u32): RtpPacket.Header {
    RtpPacket.Header(RtpPacket.VERSION, 0, 0, 0, 0, RtpPacket.DYNAMIC_PAYLOAD_97, seqNo % 0x1_0000, timestamp, sendSsrc)
  }

  /** A connection after its turn, and the packet it was sent. */
  datatype Turn = Turn(after: Snapshot, packet: Option<seq<byte>>)

  /** One turn of the loop: pack, number, send, record. A connection is not sent its own
      command. */
  function TurnOf(was: Snapshot, c: Command, originator: u32, timestamp: u32, journalEnabled: bool, host: Host): (r: Turn)
    requires Journal.Valid(was.journal)
    ensures Journal.Valid(r.after.journal) && r.after.session == was.session
  {
    if was.session.ssrc == originator then Turn(was, None)
    else
      var seqNo := (was.seqNo + 1) % 0x1_0000_0000;
      Turn(Snapshot(was.session, seqNo, if journalEnabled then Recorded(was.journal, EventOf(c, host), seqNo) else was.journal),
           Some(Wire(SendHeader(was.session.sendSsrc, seqNo, timestamp), MidiPayload.FromCommand(c),
                     JournalWire.Packed(was.journal))))
  }

  method SendTo(ctx: Context, c: Command, originator: u32, timestamp: u32, journalEnabled: bool, host: Host)
    returns (packet: Option<seq<byte>>)
    requires ctx.Valid()
    modifies ctx`seqNo, ctx.journal
    ensures ctx.Valid()
    ensures Turn(ctx.View(), packet) == TurnOf(old(ctx.View()), c, originator, timestamp, journalEnabled, host)
  {
    if ctx.session.ssrc == originator {
      return None;
    }
    var journal := ctx.PackJournal();
    ctx.IncrementSeq();
    var buffer, written := BuildPacket(SendHeader(ctx.session.sendSsrc, ctx.seqNo, timestamp), MidiPayload.FromCommand(c), journal);
    packet := Some(buffer[..written]);
    assert buffer[..written] == buffer[..];
    if journalEnabled {
      RecordEvent(ctx, EventOf(c, host));
    }
  }

  /** The three sending steps of the recovery protocol. */
  function SendSteps(s: System, e: Event): (r: System)
    requires ValidState(s) && s.phase.Idle?
    ensures ValidState(r) && |r.sent| == |s.sent| + 1
  {
    Next(Next(Next(s, Begin(e)), Transmit), Record)
  }

  /** One turn with the journal on is what the sending steps do to a connection in that state,
      and its packet is the one sent: it has the number, and the journal's octets, that the
      protocol gives it. */
  lemma TurnIsSendSteps(s: System, was: Snapshot, c: Command, originator: u32, timestamp: u32, host: Host)
    requires ValidState(s) && s.phase.Idle? && was.journal == s.journal && was.seqNo == s.seqNo
    requires was.session.ssrc != originator
    ensures var turn, r := TurnOf(was, c, originator, timestamp, true, host), SendSteps(s, EventOf(c, host));
            var p := r.sent[|s.sent|];
            && turn.after == Snapshot(was.session, r.seqNo, r.journal)
            && turn.packet == Some(Wire(RtpPacket.Header(RtpPacket.VERSION, 0, 0, 0, 0, RtpPacket.DYNAMIC_PAYLOAD_97,
                                                         p.wireSeq, timestamp, was.session.sendSsrc),
                                        MidiPayload.FromCommand(c), p.wire))
            && p.event == EventOf(c, host)
  {
    var e := EventOf(c, host);
    var transmitted := Next(Next(s, Begin(e)), Transmit);
    assert Next(transmitted, Record).journal == Recorded(s.journal, e, transmitted.seqNo);
  }

  /** One `Context.Feedback` is what the two responder steps do. */
  lemma FeedbackIsTwoSteps(s: System, ack: u16)
    requires ValidState(s) && Enabled(s, Judge(ack))
    ensures var judged := Next(s, Judge(ack));
            (if judged.decided then Next(judged, ClearJournal).journal else judged.journal) ==
              if ack >= s.seqNo then Journal.Cleared(s.journal) else s.journal
  {
  }

  /** `midi_sender_send_single`: every connection but the one the command came from gets the
      command with its own journal and number, used or not, and no other state changes. */
  method SendSingle(ctxs: seq<Context>, c: Command, originator: u32, timestamps: seq<u32>, journalEnabled: bool,
                    host: Host)
    returns (packets: seq<Option<seq<byte>>>)
    requires Distinct(ctxs) && |timestamps| == |ctxs|
    requires forall i :: 0 <= i < |ctxs| ==> Journal.Valid(ctxs[i].View().journal)
    modifies set i | 0 <= i < |ctxs| :: ctxs[i]
    modifies set i | 0 <= i < |ctxs| :: ctxs[i].journal
    ensures |packets| == |ctxs| && forall i :: 0 <= i < |ctxs| ==> Journal.Valid(ctxs[i].View().journal)
    ensures forall i :: 0 <= i < |ctxs| ==>
              Turn(ctxs[i].View(), packets[i]) == TurnOf(old(ctxs[i].View()), c, originator, timestamps[i], journalEnabled, host)
  {
    packets := [];
    for i := 0 to |ctxs|
      invariant |packets| == i && forall k :: 0 <= k < |ctxs| ==> Journal.Valid(ctxs[k].View().journal)
      invariant forall k :: 0 <= k < i ==>
                  Turn(ctxs[k].View(), packets[k]) == TurnOf(old(ctxs[k].View()), c, originator, timestamps[k], journalEnabled, host)
      invariant forall k :: i <= k < |ctxs| ==> ctxs[k].View() == old(ctxs[k].View())
    {
      label before:
      var packet := SendTo(ctxs[i], c, originator, timestamps[i], journalEnabled, host);
      forall k | 0 <= k < |ctxs| && k != i
        ensures ctxs[k].View() == old@before(ctxs[k].View())
      {
        assert if k < i then ctxs[k] != ctxs[i] && ctxs[k].journal != ctxs[i].journal
               else ctxs[i] != ctxs[k] && ctxs[i].journal != ctxs[k].journal;
      }
      packets := packets + [packet];
    }
  }
}
