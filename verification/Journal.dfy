/** The recovery journal kept for one connection (sections 4 and 5 of RFC 6295,
    midi_journal.c). The LENGTH and LEN fields are recomputed by every pack before they are
    read, so they are not part of the state. */
module Journal {
  import opened Bytes
  import ChapterC
  import ChapterN
  import ChapterP

  const MAX_CHANNELS := 16

  /** `chan` is the channel plus one in a four-bit field: 0 for a header not in use, and also
      for channel 15. The flags say which chapters are present. */
  datatype ChannelHeader = ChannelHeader(s: bit, chan: nibble, h: bit, hasP: bool, hasC: bool, hasN: bool)

  datatype Channel = Channel(header: ChannelHeader, p: Option<ChapterP.Chapter>, c: Option<ChapterC.Chapter>, n: Option<ChapterN.Chapter>)

  /** `active` is the A flag; the S flag is always set. */
  datatype JournalHeader = JournalHeader(active: bool, totchan: byte, seqNo: u16)

  datatype State = State(header: JournalHeader, channels: seq<Option<Channel>>)

  predicate ValidChannel(ch: Channel) {
    && (ch.c.Some? ==> ChapterC.Valid(ch.c.value))
    && (ch.n.Some? ==> ChapterN.Valid(ch.n.value))
  }

  predicate Valid(j: State) {
    && |j.channels| == MAX_CHANNELS
    && forall i :: 0 <= i < MAX_CHANNELS && j.channels[i].Some? ==> ValidChannel(j.channels[i].value)
  }

  function Create(): (j: State)
    ensures Valid(j)
  {
    State(JournalHeader(false, 0, 0), seq(MAX_CHANNELS, i => None))
  }

  function CreateChannel(): Channel {
    Channel(ChannelHeader(1, 0, 0, false, false, false), None, None, None)
  }

  predicate HasData(j: State) {
    j.header.totchan > 0
  }

  function ChannelOf(j: State, i: nibble): (ch: Channel)
    requires Valid(j)
    ensures ValidChannel(ch)
  {
    if j.channels[i].Some? then j.channels[i].value else CreateChannel()
  }

  /** `channel + 1` in a four-bit field. */
  function ChanField(i: nibble): nibble {
    if i == 15 then 0 else i + 1
  }

  /** The eight-bit channel count plus one, or as it is. */
  function Count(totchan: byte, more: bool): byte {
    if !more then totchan else if totchan == 255 then 0 else totchan + 1
  }

  /** What every add does to the journal header and the channel header. The number in the
      channel header is compared before it is cut to four bits. */
  function Mark(j: State, i: nibble, seqNo: u32, ch: Channel): (r: State)
    requires Valid(j) && ValidChannel(ch)
    ensures Valid(r)
  {
    State(JournalHeader(true, Count(j.header.totchan, ch.header.chan != i + 1), seqNo % 0x1_0000),
          j.channels[i := Some(ch.(header := ch.header.(chan := ChanField(i))))])
  }

  function NoteChapter(ch: Channel): (n: ChapterN.Chapter)
    requires ValidChannel(ch)
    ensures ChapterN.Valid(n)
  {
    if ch.n.Some? then ch.n.value else ChapterN.Create()
  }

  function ControlChapter(ch: Channel): (c: ChapterC.Chapter)
    requires ValidChannel(ch)
    ensures ChapterC.Valid(c)
  {
    if ch.c.Some? then ch.c.value else ChapterC.Create()
  }

  /** `midi_journal_add_note` for a NoteOff; `stray` as in `ChapterN.RecordOff`. */
  function WithNoteOff(j: State, seqNo: u32, i: nibble, note: seven, stray: nibble): (r: State)
    requires Valid(j)
    ensures Valid(r)
  {
    var ch := ChannelOf(j, i);
    Mark(j, i, seqNo, ch.(header := ch.header.(hasN := true), n := Some(ChapterN.RecordOff(NoteChapter(ch), note, stray))))
  }

  /** `midi_journal_add_note` for any other note command. */
  function WithNoteOn(j: State, seqNo: u32, i: nibble, note: seven, velocity: seven): (r: State)
    requires Valid(j)
    ensures Valid(r)
  {
    var ch := ChannelOf(j, i);
    Mark(j, i, seqNo, ch.(header := ch.header.(hasN := true), n := Some(ChapterN.RecordOn(NoteChapter(ch), note, velocity))))
  }

  /** `midi_journal_add_control`: numbers above 127 are ignored. */
  function WithControl(j: State, seqNo: u32, i: nibble, number: byte, value: seven): (r: State)
    requires Valid(j)
    ensures Valid(r)
  {
    if number >= ChapterC.CONTROLLERS then j
    else
      var ch := ChannelOf(j, i);
      Mark(j, i, seqNo, ch.(header := ch.header.(hasC := true), c := Some(ChapterC.Record(ControlChapter(ch), number, value))))
  }

  /** `midi_journal_add_program`. */
  function WithProgram(j: State, seqNo: u32, i: nibble, program: seven): (r: State)
    requires Valid(j)
    ensures Valid(r)
  {
    var ch := ChannelOf(j, i);
    Mark(j, i, seqNo, ch.(header := ch.header.(hasP := true), p := Some(ChapterP.Chapter(1, program, 0, 0, 0, 0))))
  }

  /** `channel_journal_reset`: Chapter P is left as it is, though no longer flagged. */
  function ResetChannel(ch: Channel): (r: Channel)
    requires ValidChannel(ch)
    ensures ValidChannel(r)
  {
    Channel(ChannelHeader(1, 0, 0, false, false, false), ch.p,
            if ch.c.Some? then Some(ChapterC.Reset(ch.c.value)) else None,
            if ch.n.Some? then Some(ChapterN.Reset(ch.n.value)) else None)
  }

  function ResetSlot(slot: Option<Channel>): (r: Option<Channel>)
    requires slot.Some? ==> ValidChannel(slot.value)
    ensures r.Some? == slot.Some? && (r.Some? ==> ValidChannel(r.value))
  {
    if slot.Some? then Some(ResetChannel(slot.value)) else None
  }

  function Cleared(j: State): (r: State)
    requires Valid(j)
    ensures Valid(r)
    ensures forall i :: 0 <= i < MAX_CHANNELS ==> r.channels[i] == ResetSlot(j.channels[i])
  {
    State(JournalHeader(false, 0, 0), seq(MAX_CHANNELS, i requires 0 <= i < MAX_CHANNELS => ResetSlot(j.channels[i])))
  }

  // The mutable journal.

  class MidiJournal {
    var header: JournalHeader
    var channels: seq<Option<Channel>>

    ghost function View(): State
      reads this
    {
      State(header, channels)
    }

    constructor ()
      ensures View() == Create()
    {
      header := JournalHeader(false, 0, 0);
      channels := seq(MAX_CHANNELS, i => None);
    }

    /** The part all adds share: create the channel, count it, note the sequence number. */
    method Touch(seqNo: u32, i: nibble) returns (ch: Channel)
      requires Valid(View())
      modifies this
      ensures channels == old(channels) && ch == ChannelOf(old(View()), i).(header := ch.header)
      ensures ch.header == ChannelOf(old(View()), i).header.(chan := ChanField(i))
      ensures header == Mark(old(View()), i, seqNo, ChannelOf(old(View()), i)).header
    {
      header := header.(active := true);
      ch := if channels[i].Some? then channels[i].value else CreateChannel();
      if ch.header.chan != i + 1 {
        ch := ch.(header := ch.header.(chan := ChanField(i)));
        header := header.(totchan := Count(header.totchan, true));
      }
      header := header.(seqNo := seqNo % 0x1_0000);
    }

    method AddNote(seqNo: u32, i: nibble, off: bool, note: seven, velocity: seven, stray: nibble)
      requires Valid(View())
      modifies this
      ensures View() == if off then WithNoteOff(old(View()), seqNo, i, note, stray)
                        else WithNoteOn(old(View()), seqNo, i, note, velocity)
    {
      var ch := Touch(seqNo, i);
      var n := if ch.n.Some? then ch.n.value else ChapterN.Create();
      n := if off then ChapterN.RecordOff(n, note, stray) else ChapterN.RecordOn(n, note, velocity);
      channels := channels[i := Some(ch.(header := ch.header.(hasN := true), n := Some(n)))];
    }

    method AddControl(seqNo: u32, i: nibble, number: byte, value: seven)
      requires Valid(View())
      modifies this
      ensures View() == WithControl(old(View()), seqNo, i, number, value)
    {
      if number > ChapterC.CONTROLLERS - 1 {
        return;
      }
      var ch := Touch(seqNo, i);
      var c := if ch.c.Some? then ch.c.value else ChapterC.Create();
      c := ChapterC.Record(c, number, value);
      channels := channels[i := Some(ch.(header := ch.header.(hasC := true), c := Some(c)))];
    }

    method AddProgram(seqNo: u32, i: nibble, program: seven)
      requires Valid(View())
      modifies this
      ensures View() == WithProgram(old(View()), seqNo, i, program)
    {
      var ch := Touch(seqNo, i);
      channels := channels[i := Some(ch.(header := ch.header.(hasP := true), p := Some(ChapterP.Chapter(1, program, 0, 0, 0, 0))))];
    }

    method Reset()
      requires Valid(View())
      modifies this
      ensures View() == Cleared(old(View()))
    {
      ghost var before := View();
      for i := 0 to MAX_CHANNELS
        invariant |channels| == MAX_CHANNELS
        invariant forall k :: 0 <= k < i ==> channels[k] == ResetSlot(before.channels[k])
        invariant forall k :: i <= k < MAX_CHANNELS ==> channels[k] == before.channels[k]
      {
        channels := channels[i := ResetSlot(channels[i])];
      }
      header := JournalHeader(false, 0, 0);
      assert channels == Cleared(before).channels;
    }
  }
}
