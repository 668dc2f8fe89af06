/** What a turn of the sender does, in the octets of the command alone: what the journal of the
    connection holds afterwards, and what the packet consists of. */
module SenderTurn {
  import opened Bytes
  import opened MidiCommand
  import opened Connection
  import opened JournalHistory
  import opened MidiSender
  import ChapterN
  import Journal
  import JournalWire
  import MidiPayload
  import Recovery
  import RtpPacket

  /** The first two data octets, cut to seven bits: zeros if there are none, and the octet behind
      the end for a second that is missing. */
  predicate Says(c: Command, host: Host, first: seven, second: seven) {
    || (|c.data| >= 2 && first == c.data[0] % 128 && second == c.data[1] % 128)
    || (|c.data| == 1 && first == c.data[0] % 128 && second == host.beyond % 128)
    || (c.data == [] && first == 0 && second == 0)
  }

  /** Nothing that was recorded of a channel has changed. */
  predicate Untouched(was: Journal.State, now: Journal.State, i: nibble)
    requires Journal.Valid(was) && Journal.Valid(now)
  {
    && ControlsOf(now, i) == ControlsOf(was, i) && ProgramOf(now, i) == ProgramOf(was, i)
    && ChapterN.NoteList(NotesOf(now, i)) == ChapterN.NoteList(NotesOf(was, i))
    && ChapterN.Released(NotesOf(now, i).offbits) == ChapterN.Released(NotesOf(was, i).offbits)
  }

  /** The A flag is set, the checkpoint is the number of the packet, and a channel other than the
      last is in use from now on. */
  predicate Checkpointed(now: Journal.State, ch: nibble, seqNo: u32)
    requires Journal.Valid(now)
  {
    now.header.active && now.header.seqNo == seqNo % 0x1_0000 && (ch < 15 ==> Marked(now, ch))
  }

  /** The journal of a connection after a turn. */
  function JournalAfter(was: Snapshot, c: Command, originator: u32, timestamp: u32, host: Host): (j: Journal.State)
    requires Journal.Valid(was.journal)
    ensures Journal.Valid(j)
  {
    TurnOf(was, c, originator, timestamp, true, host).after.journal
  }

  lemma OthersUntouched(j: Journal.State, op: Op, i: nibble)
    requires Journal.Valid(j) && !op.Clear? && op.channel != i
    ensures Untouched(j, Do(j, op), i)
  {
    DoControls(j, op, i);
    DoProgram(j, op, i);
    DoNotes(j, op, i);
  }

  /** What every add does besides. */
  lemma AddBesides(j: Journal.State, op: Op)
    requires Journal.Valid(j) && Adds(op)
    ensures Checkpointed(Do(j, op), op.channel, op.seqNo)
    ensures forall i: nibble :: i != op.channel ==> Untouched(j, Do(j, op), i)
  {
    DoHeader(j, op);
    DoMarks(j, op, op.channel);
    forall i: nibble | i != op.channel
      ensures Untouched(j, Do(j, op), i)
    {
      OthersUntouched(j, op, i);
    }
  }

  /** The operation that a channel voice status, a channel and two data octets ask for. */
  predicate AsksFor(status: byte, first: seven, second: seven, host: Host, op: Op) {
    match op
    case NoteOff(ch, note, stray, _) => status == 0x80 + ch && note == first && stray == host.stray
    case NoteOn(ch, note, velocity, _) => status == 0x90 + ch && note == first && velocity == second
    case Control(ch, number, value, _) => status == 0xB0 + ch && number == first && value == second
    case Program(ch, program, _) => status == 0xC0 + ch && program == first
    case Clear => false
  }

  lemma StatusParts(message: nibble, ch: nibble)
    ensures (message * 16 + ch) / 16 == message && (message * 16 + ch) % 16 == ch
  {
  }

  lemma EventIs(c: Command, host: Host, op: Op, first: seven, second: seven)
    requires Says(c, host, first, second) && AsksFor(c.status, first, second, host, op)
    ensures var e := EventOf(c, host); !e.SendOther? && Recovery.AsOp(e, op.seqNo) == op
  {
    StatusParts(if op.NoteOff? then 0x8 else if op.NoteOn? then 0x9 else if op.Control? then 0xB else 0xC, op.channel);
  }

  /** The journal operation of a turn. */
  lemma TurnDoes(was: Snapshot, c: Command, originator: u32, timestamp: u32, host: Host, op: Op, first: seven, second: seven)
    requires Journal.Valid(was.journal) && was.session.ssrc != originator
    requires Says(c, host, first, second) && AsksFor(c.status, first, second, host, op)
    requires op.seqNo == (was.seqNo + 1) % 0x1_0000_0000
    ensures JournalAfter(was, c, originator, timestamp, host) == Do(was.journal, op)
  {
    EventIs(c, host, op, first, second);
  }

  /** Bn: a controller. */
  lemma ControlTurn(was: Snapshot, c: Command, originator: u32, timestamp: u32, host: Host, ch: nibble, number: seven, value: seven)
    requires Journal.Valid(was.journal) && was.session.ssrc != originator
    requires c.status == 0xB0 + ch && Says(c, host, number, value)
    ensures var j := JournalAfter(was, c, originator, timestamp, host);
            && ControlsOf(j, ch) == ControlsOf(was.journal, ch)[number := value]
            && ProgramOf(j, ch) == ProgramOf(was.journal, ch) && NotesOf(j, ch) == NotesOf(was.journal, ch)
            && Checkpointed(j, ch, (was.seqNo + 1) % 0x1_0000_0000)
            && forall i: nibble :: i != ch ==> Untouched(was.journal, j, i)
  {
    var op := Control(ch, number, value, (was.seqNo + 1) % 0x1_0000_0000);
    TurnDoes(was, c, originator, timestamp, host, op, number, value);
    DoControls(was.journal, op, ch);
    DoProgram(was.journal, op, ch);
    DoNotes(was.journal, op, ch);
    AddBesides(was.journal, op);
  }

  /** Cn: a program. */
  lemma ProgramTurn(was: Snapshot, c: Command, originator: u32, timestamp: u32, host: Host, ch: nibble, program: seven, second: seven)
    requires Journal.Valid(was.journal) && was.session.ssrc != originator
    requires c.status == 0xC0 + ch && Says(c, host, program, second)
    ensures var j := JournalAfter(was, c, originator, timestamp, host);
            && ProgramOf(j, ch) == Some(program)
            && ControlsOf(j, ch) == ControlsOf(was.journal, ch) && NotesOf(j, ch) == NotesOf(was.journal, ch)
            && Checkpointed(j, ch, (was.seqNo + 1) % 0x1_0000_0000)
            && forall i: nibble :: i != ch ==> Untouched(was.journal, j, i)
  {
    var op := Program(ch, program, (was.seqNo + 1) % 0x1_0000_0000);
    TurnDoes(was, c, originator, timestamp, host, op, program, second);
    DoControls(was.journal, op, ch);
    DoProgram(was.journal, op, ch);
    DoNotes(was.journal, op, ch);
    AddBesides(was.journal, op);
  }

  /** 9n: a NoteOn, logged while there is room. */
  lemma NoteOnTurn(was: Snapshot, c: Command, originator: u32, timestamp: u32, host: Host, ch: nibble, note: seven, velocity: seven)
    requires Journal.Valid(was.journal) && was.session.ssrc != originator
    requires c.status == 0x90 + ch && Says(c, host, note, velocity)
    ensures var j := JournalAfter(was, c, originator, timestamp, host);
            var before, after := NotesOf(was.journal, ch), NotesOf(j, ch);
            && ChapterN.NoteList(after) ==
                 (if before.numNotes < 127 then ChapterN.NoteList(before) + [ChapterN.Note(0, note, 0, velocity)]
                  else ChapterN.NoteList(before))
            && after.offbits == before.offbits
            && ControlsOf(j, ch) == ControlsOf(was.journal, ch) && ProgramOf(j, ch) == ProgramOf(was.journal, ch)
            && Checkpointed(j, ch, (was.seqNo + 1) % 0x1_0000_0000)
            && forall i: nibble :: i != ch ==> Untouched(was.journal, j, i)
  {
    var op := NoteOn(ch, note, velocity, (was.seqNo + 1) % 0x1_0000_0000);
    TurnDoes(was, c, originator, timestamp, host, op, note, velocity);
    DoControls(was.journal, op, ch);
    DoProgram(was.journal, op, ch);
    DoNotes(was.journal, op, ch);
    AddBesides(was.journal, op);
  }

  /** The note that a reader finds released on account of a NoteOff: its mirror image in the octet,
      or what the machine makes of the first of an octet. */
  function Mirrored(note: seven, stray: nibble): set<int> {
    if note % 8 != 0 then {note / 8 * 16 + 8 - note} else if stray < 8 then {note + 7 - stray} else {}
  }

  /** 8n: a NoteOff. */
  lemma NoteOffTurn(was: Snapshot, c: Command, originator: u32, timestamp: u32, host: Host, ch: nibble, note: seven, second: seven)
    requires Journal.Valid(was.journal) && was.session.ssrc != originator
    requires c.status == 0x80 + ch && Says(c, host, note, second)
    ensures var j := JournalAfter(was, c, originator, timestamp, host);
            var before, after := NotesOf(was.journal, ch), NotesOf(j, ch);
            && ChapterN.NoteList(after) == ChapterN.NoteList(before)
            && ChapterN.Released(after.offbits) == ChapterN.Released(before.offbits) + Mirrored(note, host.stray)
            && ControlsOf(j, ch) == ControlsOf(was.journal, ch) && ProgramOf(j, ch) == ProgramOf(was.journal, ch)
            && Checkpointed(j, ch, (was.seqNo + 1) % 0x1_0000_0000)
            && forall i: nibble :: i != ch ==> Untouched(was.journal, j, i)
  {
    var op := NoteOff(ch, note, host.stray, (was.seqNo + 1) % 0x1_0000_0000);
    TurnDoes(was, c, originator, timestamp, host, op, note, second);
    NoteOffDoes(was.journal, op);
  }

  lemma NoteOffDoes(j: Journal.State, op: Op)
    requires Journal.Valid(j) && op.NoteOff?
    ensures var before, after := NotesOf(j, op.channel), NotesOf(Do(j, op), op.channel);
            && ChapterN.NoteList(after) == ChapterN.NoteList(before)
            && ChapterN.Released(after.offbits) == ChapterN.Released(before.offbits) + Mirrored(op.note, op.stray)
    ensures ControlsOf(Do(j, op), op.channel) == ControlsOf(j, op.channel) && ProgramOf(Do(j, op), op.channel) == ProgramOf(j, op.channel)
    ensures Checkpointed(Do(j, op), op.channel, op.seqNo)
    ensures forall i: nibble :: i != op.channel ==> Untouched(j, Do(j, op), i)
  {
    NoteOffHeld(j, op.channel, op.note, op.stray, op.seqNo);
    DoControls(j, op, op.channel);
    DoProgram(j, op, op.channel);
    AddBesides(j, op);
  }

  lemma NoteOffHeld(j: Journal.State, ch: nibble, note: seven, stray: nibble, seqNo: u32)
    requires Journal.Valid(j)
    ensures var before, after := NotesOf(j, ch), NotesOf(Do(j, NoteOff(ch, note, stray, seqNo)), ch);
            && ChapterN.NoteList(after) == ChapterN.NoteList(before)
            && ChapterN.Released(after.offbits) == ChapterN.Released(before.offbits) + Mirrored(note, stray)
  {
    DoNotes(j, NoteOff(ch, note, stray, seqNo), ch);
    NoteOffStep(NotesOf(j, ch), note, stray);
    ChapterN.RecordOffReleases(NotesOf(j, ch), note, stray);
    ReadAsNumber(note, stray);
  }

  lemma ReadAsNumber(note: seven, stray: nibble)
    ensures var r := ChapterN.ReadAs(note, stray);
            if note % 8 != 0 then r == Some(note / 8 * 16 + 8 - note) else r == if stray < 8 then Some(note + 7 - stray) else None
  {
    assert note == note / 8 * 8 + note % 8;
  }

  /** Every other status leaves the journal as it was; so does any with the journal switched off. */
  lemma OtherTurn(was: Snapshot, c: Command, originator: u32, timestamp: u32, journalEnabled: bool, host: Host)
    requires Journal.Valid(was.journal)
    requires !journalEnabled || c.status < 0x80 || 0xA0 <= c.status < 0xB0 || c.status >= 0xD0
    ensures TurnOf(was, c, originator, timestamp, journalEnabled, host).after.journal == was.journal
  {
  }

  /** The number goes up by one with every packet. A connection's own command changes nothing of
      it, and is not sent to it. */
  lemma TurnNumbers(was: Snapshot, c: Command, originator: u32, timestamp: u32, journalEnabled: bool, host: Host)
    requires Journal.Valid(was.journal)
    ensures var t := TurnOf(was, c, originator, timestamp, journalEnabled, host);
            if was.session.ssrc == originator then t == Turn(was, None)
            else t.packet.Some? && t.after.session == was.session &&
                 t.after.seqNo == if was.seqNo == 0xFFFF_FFFF then 0 else was.seqNo + 1
  {
  }

  lemma PackedNotEmpty(j: Journal.State)
    requires Journal.Valid(j)
    ensures JournalWire.Packed(j) != [] <==> j.header.totchan > 0
  {
  }

  /** The octets of the packet: version 2 and payload type 97, number, timestamp and identifier;
      the command section with J set just when a journal follows and B, Z and P clear; the
      command; and the journal as it was before the command. */
  lemma TurnOctets(was: Snapshot, c: Command, originator: u32, timestamp: u32, journalEnabled: bool, host: Host)
    requires Journal.Valid(was.journal) && was.session.ssrc != originator && c.status >= 0x80 && |c.data| < 0xFFFF
    ensures var t := TurnOf(was, c, originator, timestamp, journalEnabled, host);
            t.packet.Some? &&
            var p, len, j := t.packet.value, 1 + |c.data|, if was.journal.header.totchan > 0 then 0x40 else 0;
            var k: nat := if len <= 15 then 13 else 14;
            && |p| >= k + len && p[0] == 0x80 && p[1] == 0x61
            && GetU16(p, 2) == t.after.seqNo % 0x1_0000 && GetU32(p, 4) == timestamp && GetU32(p, 8) == was.session.sendSsrc
            && (if len <= 15 then p[12] == j + len else p[12] == j + len / 256 % 16 && p[13] == len % 256)
            && p[k..k + len] == [c.status] + c.data && p[k + len..] == JournalWire.Packed(was.journal)
  {
    var journal := JournalWire.Packed(was.journal);
    var seqNo := (was.seqNo + 1) % 0x1_0000_0000;
    PackedNotEmpty(was.journal);
    WireOctets(SendHeader(was.session.sendSsrc, seqNo, timestamp), MidiPayload.FromCommand(c).(j := journal != []),
               [c.status] + c.data, journal);
  }

  lemma WireOctets(h: RtpPacket.Header, pl: MidiPayload.Payload, command: seq<byte>, journal: seq<byte>)
    requires MidiPayload.Valid(pl) && !pl.b && !pl.z && !pl.p && pl.j == (journal != [])
    requires 0 < |command| == pl.len && pl.buffer[..pl.len] == command
    ensures var p, len, j := RtpPacket.Packed(RtpPacket.Packet(h, MidiPayload.Packed(pl) + journal)), |command|, if journal != [] then 0x40 else 0;
            var k: nat := if len <= 15 then 13 else 14;
            && |p| >= k + len && p[0] == h.v * 0x40 + h.p * 0x20 + h.x * 0x10 + h.cc && p[1] == h.m * 0x80 + h.pt
            && GetU16(p, 2) == h.seqNo && GetU32(p, 4) == h.timestamp && GetU32(p, 8) == h.ssrc
            && (if len <= 15 then p[12] == j + len else p[12] == j + len / 256 % 16 && p[13] == len % 256)
            && p[k..k + len] == command && p[k + len..] == journal
  {
    var section := MidiPayload.Packed(pl) + journal;
    RtpPacket.HeaderOctets(RtpPacket.Packet(h, section));
    SectionOctets(pl, command, journal);
    Behind(RtpPacket.Packed(RtpPacket.Packet(h, section)), section, if |command| <= 15 then 1 else 2, |command|);
  }

  lemma Behind(p: seq<byte>, section: seq<byte>, n: nat, len: nat)
    requires |p| >= 12 && p[12..] == section && 1 <= n <= 2 && |section| >= n + len && len > 0
    ensures p[12] == section[0] && p[13] == section[1]
    ensures p[12 + n..12 + n + len] == section[n..][..len] && p[12 + n + len..] == section[n..][len..]
  {
    assert p[12 + n..] == section[n..];
    assert p[12 + n..12 + n + len] == p[12 + n..][..len];
  }

  lemma SectionOctets(pl: MidiPayload.Payload, command: seq<byte>, journal: seq<byte>)
    requires MidiPayload.Valid(pl) && !pl.b && !pl.z && !pl.p && pl.j == (journal != [])
    requires 0 < |command| == pl.len && pl.buffer[..pl.len] == command
    ensures var s, j, len := MidiPayload.Packed(pl) + journal, if journal != [] then 0x40 else 0, |command|;
            var n := if len <= 15 then 1 else 2;
            && |s| >= n + len && (if len <= 15 then s[0] == j + len else s[0] == j + len / 256 % 16 && s[1] == len % 256)
            && s[n..][..len] == command && s[n..][len..] == journal
  {
    var n := if pl.len <= 15 then 1 else 2;
    var s := MidiPayload.Packed(pl) + journal;
    assert s[n..] == command + journal;
  }

  /** Ending a session leaves the connection as the recovery protocol finds it at the opening of the
      next: number 1, and a journal that is cleared. */
  lemma ResetIsOpening(was: Snapshot, log: seq<Op>)
    requires Journal.Valid(was.journal) && was.journal == After(log)
    ensures var s, now := Recovery.Opened(log + [Clear], {}), ResetOf(was);
            && Recovery.AtOpening(log + [Clear]) && s.seqNo == now.seqNo == 1 && s.journal == now.journal && now.session == was.session
            && !now.journal.header.active && now.journal.header.totchan == 0
            && forall i: nibble :: ControlsOf(now.journal, i) == map[] && ProgramOf(now.journal, i) == None
  {
    assert (log + [Clear])[..|log|] == log;
    forall i: nibble
      ensures ControlsOf(Journal.Cleared(was.journal), i) == map[] && ProgramOf(Journal.Cleared(was.journal), i) == None
    {
      DoControls(was.journal, Clear, i);
      DoProgram(was.journal, Clear, i);
    }
  }
}
