# A verified model of raveloxmidi

raveloxmidi carries MIDI over RTP (RFC 6295) and speaks Apple's session protocol. It reads MIDI
from local sources and from peers, parses it, queues the commands to a sender thread, and sends
each to every peer with a recovery journal, so that a peer can repair its state after packets
are lost. This project models that pipeline in Dafny and proves what it keeps. All files verify
together with `dafny verify dfyconfig.toml`.

The code that works by changing fields, arrays and tables in place is modelled by classes and
loops, each proved against a specification function; the properties are lemmas about those
functions. The modules follow the program:

- **Stream parser.** `RingBuffer`, `DBuffer`: the two buffers, refined to a bounded queue and to
  an append-only sequence. `MidiParser`: the parser as a fold over octets. `MidiState`: the loop
  over the mutable buffers, proved equal to the fold. `RealTime`, `MidiPrinter`: real-time
  transparency, and a printer that the parser undoes. `CommandData`: which commands come with data
  octets missing. `MidiCommand`, `Folds`: commands with their message table, and folds.
- **Recovery journal.** `ChapterC`, `ChapterN`, `ChapterP`: the chapters and their packed form.
  `Journal`: the mutable journal. `JournalHistory`: what it holds after any history of adds and
  resets. `JournalWire`, `JournalReader`: the nested wire form, and when a reader of the standard
  understands it. `Recovery`: sender, lossy network, receiver and feedback responder as a
  protocol of atomic steps. `RecoveryTold`: what the journal of a packet tells.
  `RecoveryInvariant`: what every step keeps, and the recovery theorem. `RecoveryLimits`: each of
  its conditions is needed. `WireRecovery`: the theorem for a receiver that reads the whole wire
  form.
- **Sending.** `RtpPacket`, `MidiPayload`: the packet layers. `Connection`, `MidiSender`: one
  entry of the connection table, and the loop that packs, numbers, sends and records.
  `SenderTurn`: what one turn of that loop does, octet by octet. `EndToEnd`: a command through
  packing, unpacking and the peer's parser.
- **Hand-off between threads.** `DataQueue`: the linked queue. `HandOff`: all interleavings of
  readers, the sender thread, wake-ups and reference counts.
- **Sessions.** `AppleMidi`: session packets. `ConnectionTable`: opening, closing and reuse of
  slots. `Bytes`: octets and network order, used throughout.

Where the code does not do what its standard or its own comments promise, the model follows the
code, and the exact condition under which the promise holds is proved:

- A command crosses the wire if and only if it has at most 15 octets, because the B flag that a
  longer one needs is never set (`EndToEnd.CommandCrosses`, `MidiPayload.RoundTripExact`).
- Delta times of several octets are accumulated by shifting eight bits, not seven
  (`MidiPrinter.DeltaValueExact`). A real-time message in an RTP list uses up no delta time, so a
  list is returned whatever its delta times if and only if no such message precedes another
  command (`MidiPrinter.RtpFramingExact`, and `MidiPrinter.ClockDestroysNoteOn` for a case).
- A payload cut off behind a status octet leaves it held, and the next one can make a note or a
  controller with one data octet of it, of which the sender reads two: exactly when that octet
  needs two (`CommandData.RtpCompleteExact`). Everywhere else commands are complete.
- System common statuses are sized with the low nibble cleared, so one with data is emitted
  twice (`MidiPrinter.SystemCommonExact`).
- Channel 15 does not fit the four-bit channel number: it is counted at every add
  (`JournalHistory.ChannelCountExact`) and read as channel 0 from the first one on
  (`JournalReader.OneControlOnLast`).
- All 128 controllers of a channel overflow the eight-bit count in Chapter C and are written as
  zeros (`ChapterC.DecodePackedExact`); 127 notes with an untouched NoteOff range are read as 128
  (`ChapterN.DecodePackedExact`).
- The NoteOff bits of Chapter N are set from the other end of the octet than Appendix A.6 of
  RFC 6295 reads them, and one place off. A NoteOff is read as the note released only for the
  fifth note of an octet; another is read as a different note, and the first of an octet, on a
  machine where its shift sets no bit, as none (`ChapterN.ReadAsExact`,
  `JournalHistory.NoteOffsReadBackExact`).
- A reset keeps channels and Chapter P allocated, and they are still packed. A strict reader of
  the whole journal understands it if and only if nothing was left behind; one that skips what
  is left over, under a wider condition that is also exact (`JournalReader.JournalReadsExactly`).
- Recovery needs four conditions, each met or not by the code's callers: no packet goes out
  between the two halves of a feedback call, the 32-bit number does not wrap, channel 15 is not
  used, and no channel has all 128 controllers in the journal (`RecoveryLimits.RecoveryExactly`).
  In a reused slot it also needs that no acknowledgement of the session before arrives any more
  (`RecoveryLimits.StaleAcksExactly`).

Bit operations are written arithmetically on bounded integer types, and wrap-around and
truncation are explicit (`% 0x1_0000_0000` and the like). Integers read from octets are those of
a little-endian host.

## Model

| member | source | states |
|---|---|---|
| `RingBuffer.Ring.constructor` | raveloxmidi/src/ring_buffer.c:98-128 | a new ring is an empty queue of the given size |
| `RingBuffer.Ring.Reset` | raveloxmidi/src/ring_buffer.c:74-96 | a reset ring is an empty queue over a new array |
| `RingBuffer.DataIndex` | raveloxmidi/src/ring_buffer.c:43-47 | the modular index is the wrapped position of every offset up to the size |
| `RingBuffer.WindowAppendSplit` | raveloxmidi/src/ring_buffer.c:188-207 | a write split over the end of the array appends to the queue, also when `end == size` |
| `RingBuffer.Ring.Write` | raveloxmidi/src/ring_buffer.c:153-226 | appends the whole buffer when it fits and nothing otherwise, in every state including `end == size` and `start == end` |
| `RingBuffer.Ring.WriteWhole` | raveloxmidi/src/ring_buffer.c:177-188 | a write that the space at `end` takes, the ring wrapped or not, appends to the queue |
| `RingBuffer.Ring.WriteSplit` | raveloxmidi/src/ring_buffer.c:189-207 | a write split over the end of the array appends to the queue |
| `RingBuffer.Ring.Read` | raveloxmidi/src/ring_buffer.c:228-299 | gives the first `len` octets in order, or nothing when fewer are held, and removes them exactly when asked to; the calls that copy more than they allocated are exactly those for less than the first of two pieces |
| `RingBuffer.Ring.ReadWhole` | raveloxmidi/src/ring_buffer.c:256-272 | data in one piece: the first `len` octets in order |
| `RingBuffer.Ring.ReadSplit` | raveloxmidi/src/ring_buffer.c:273-293 | data in two pieces, the first read whole: the first `len` octets in order |
| `RingBuffer.Ring.ReadByte` | raveloxmidi/src/ring_buffer.c:301-331 | pops the head of the queue, or reports that it is empty |
| `RingBuffer.Ring.Resize` | raveloxmidi/src/ring_buffer.c:333-371 | the queue is unchanged in a ring of the new size, for every size that holds it and is not zero; no other is accepted |
| `RingBuffer.Ring.Drain` | raveloxmidi/src/ring_buffer.c:373-383 | returns the whole queue in order and leaves it empty, and never overruns |
| `RingBuffer.Ring.Compare` | raveloxmidi/src/ring_buffer.c:393-435 | 0 if and only if the compared octets are a prefix of the queue; otherwise -1 at its end or the difference at the first octet that differs |
| `RingBuffer.Ring.CharCompare` | raveloxmidi/src/ring_buffer.c:437-456 | true if and only if the queue has that octet at that index |
| `RingBuffer.Ring.Advance` | raveloxmidi/src/ring_buffer.c:458-473 | drops exactly the first `min(steps, used)` octets |
| `DBuffer.Buffer.constructor` | raveloxmidi/src/dbuffer.c:43-64 | a new buffer holds nothing |
| `DBuffer.Buffer.Reset` | raveloxmidi/src/dbuffer.c:66-80 | a reset buffer holds nothing |
| `DBuffer.Buffer.Grow` | raveloxmidi/src/dbuffer.c:127-149 | moving to a larger block count keeps the contents and leaves room for a terminator |
| `DBuffer.Buffer.Write` | raveloxmidi/src/dbuffer.c:113-159 | appends the octets, growing to the block count the size asks for, and only when the blocks held have no room for one octet more |
| `DBuffer.Buffer.Read` | raveloxmidi/src/dbuffer.c:161-187 | returns exactly what was written since the last reset |
| `MidiCommand.LookUp` | raveloxmidi/src/midi_command.c:126-149 | for every octet the search of the message table gives the number of data octets of MIDI 1.0, and zero for what is no status |
| `MidiCommand.Find` | raveloxmidi/src/midi_command.c:140-146 | the search loop stops at the first row with the message, or at the end of the table |
| `MidiCommand.RowOf` | raveloxmidi/src/midi_command.c:33-58 | every row of the table agrees with MIDI 1.0 |
| `MidiParser.RunConcat` | raveloxmidi/src/midi_state.c:256-459 | the parser is a fold: running on `a + b` is running on `a` and then on `b` |
| `MidiParser.SimpleKeepsNoDelta` | raveloxmidi/src/midi_state.c:458 | a SIMPLE call never begins to expect delta times |
| `MidiParser.SendConcat` | raveloxmidi/src/midi_state.c:242-460 | two SIMPLE calls are one on the octets of both |
| `MidiParser.CutInvariance` | raveloxmidi/src/midi_state.c:98-114 | in SIMPLE mode the commands and the final parser do not depend on how the stream is cut into write and send calls |
| `MidiState.State.constructor` | raveloxmidi/src/midi_state.c:53-73 | a new parser is idle with an empty ring |
| `MidiState.State.Reset` | raveloxmidi/src/midi_state.c:75-96 | reset empties ring, hold and running status, and leaves the segmented SysEx mark and the delta |
| `MidiState.State.Write` | raveloxmidi/src/midi_state.c:98-114 | puts the octets in the ring, all or none, and touches nothing of the parser |
| `MidiState.State.Finish` | raveloxmidi/src/midi_state.c:426-459 | hands over the held octets as one command and returns to the initial status |
| `MidiState.State.AcceptDataAtCommand` | raveloxmidi/src/midi_state.c:314-337 | the mutable step for a data octet under running status equals the pure step |
| `MidiState.State.AwaitData` | raveloxmidi/src/midi_state.c:360-379 | a held status waits for one octet, or two, or is handed over at once |
| `MidiState.State.AcceptStatus` | raveloxmidi/src/midi_state.c:338-381 | the mutable step for a status octet equals the pure step |
| `MidiState.State.AcceptSysex` | raveloxmidi/src/midi_state.c:403-424 | the mutable step inside System Exclusive equals the pure step |
| `MidiState.State.Accept` | raveloxmidi/src/midi_state.c:274-459 | one turn of the loop over the mutable fields equals one pure step |
| `MidiState.State.Pump` | raveloxmidi/src/midi_state.c:256-270 | reads one octet off the ring and acts on it; stops exactly when the ring is empty |
| `MidiState.State.Send` | raveloxmidi/src/midi_state.c:242-460 | the loop over ring and hold buffers ends (measure `ring.used`), empties the ring, and equals the pure parser on the octets waiting |
| `MidiState.State.Take` | raveloxmidi/src/net_socket.c:453-593 | one read, written and parsed, is one SIMPLE call on its octets |
| `MidiState.State.Feed` | raveloxmidi/src/net_socket.c:453-593 | reads of at most the ring size, each written and parsed, give the commands of the whole stream however it was cut |
| `RealTime.StepShape` | raveloxmidi/src/midi_state.c:296-310 | a real-time octet is passed on and changes nothing but leaving the initial status |
| `RealTime.Bisimulation` | raveloxmidi/src/midi_state.c:275-310 | a parser fed a stream and one fed it without its real-time octets stay equal up to initial status against waiting for a command |
| `RealTime.Transparency` | raveloxmidi/src/midi_state.c:296-310 | for every stream, malformed ones too, deleting the octets from 0xF8 up deletes exactly the real-time commands, one for each and in order, and changes no other |
| `RealTime.WellFormedInvariant` | raveloxmidi/src/midi_state.c:242-460 | no parser ever fed in SIMPLE mode remembers a real-time status, so transparency has no condition on callers |
| `CommandData.StepSound` | raveloxmidi/src/midi_state.c:274-459 | every step of either mode keeps what is held from leaving as an incomplete command, and emits complete commands only |
| `CommandData.SimpleComplete` | raveloxmidi/src/midi_state.c:242-460 | a SIMPLE call emits channel commands with all their data octets only, and leaves a parser that will go on so |
| `CommandData.LocalComplete` | raveloxmidi/src/net_socket.c:453-593 | so does every local source from its start, however malformed its stream and however it is cut |
| `CommandData.RtpComplete` | raveloxmidi/src/midi_state.c:242-460 | an RTP call that starts with nothing held emits complete commands only |
| `CommandData.RtpCompleteExact` | raveloxmidi/src/midi_state.c:262-269 | between RTP calls: every payload that may come is parsed into complete commands if and only if what is held is not one status octet that needs two more |
| `CommandData.CutPayloadExact` | raveloxmidi/src/midi_state.c:262-269 | an RTP call leaves that held if and only if its payload is cut off where the parser waits for the first of two data octets with only their status held |
| `CommandData.CutNoteOn` | raveloxmidi/src/midi_state.c:262-269 | the smallest case: payloads 90 and F6 from a new parser emit a NoteOn with one data octet |
| `MidiPrinter.VoiceParses` | raveloxmidi/src/midi_state.c:312-400 | a printed channel voice command, status octet omitted or not, parses to itself in either mode |
| `MidiPrinter.DataParses` | raveloxmidi/src/midi_state.c:387-400 | the octets behind a held status are its data whatever they are, status octets too, real-time messages apart |
| `MidiPrinter.SysexParses` | raveloxmidi/src/midi_state.c:403-424 | each of the five SysEx forms parses to itself and sets the segmented mark as it should |
| `MidiPrinter.SysexBodyHeld` | raveloxmidi/src/midi_state.c:403-424 | every octet that does not end a SysEx segment is held, status octets too |
| `MidiPrinter.ParseUndoesPrint` | raveloxmidi/src/midi_state.c:312-460 | for every list of voice, real-time, SysEx and segmented SysEx commands, with any status octets omitted that running status allows, SIMPLE mode emits exactly that list |
| `MidiPrinter.StrayDropped` | raveloxmidi/src/midi_state.c:314-317 | data octets at a command where no status is remembered are dropped, in either mode, and change nothing |
| `MidiPrinter.ParseUndoesPrintAmid` | raveloxmidi/src/midi_state.c:312-460 | the printed list is emitted exactly with such octets in front of it, after every SysEx and wherever else no status is remembered |
| `MidiPrinter.RunningWithoutData` | raveloxmidi/src/midi_state.c:319-337 | data octets after a remembered status without data are held, each behind a copy of that status, and nothing is emitted |
| `MidiPrinter.ParseUndoesPrintScattered` | raveloxmidi/src/midi_state.c:296-460 | the same with real-time octets scattered anywhere, inside commands and stray octets too, and the stream cut into reads anywhere |
| `MidiPrinter.SystemCommonExact` | raveloxmidi/src/midi_state.c:360-379 | a system common message, or an end of SysEx that ends none, parses to itself if and only if it has no data; one that has is emitted bare and then again with its data |
| `MidiPrinter.RtpListFraming` | raveloxmidi/src/midi_state.c:275-294 | for every list of voice, SysEx and real-time commands in which no real-time message precedes another command, with delta times of any length, delta octets from 0xF8 up included, an RTP call returns exactly that list and leaves the parser between commands |
| `MidiPrinter.RealTimeTakesNoDelta` | raveloxmidi/src/midi_state.c:296-310 | a real-time message is passed on with its delta time, after which the parser waits for a command and not for the next delta time |
| `MidiPrinter.Misread` | raveloxmidi/src/midi_state.c:275-310 | wherever a real-time message precedes another command there are delta times with which the list is not returned |
| `MidiPrinter.RtpFramingExact` | raveloxmidi/src/midi_state.c:275-310 | a list is returned exactly, for every choice of its delta times, if and only if no real-time message precedes another command |
| `MidiPrinter.ClockDestroysNoteOn` | raveloxmidi/src/midi_state.c:296-337 | the list 05 F8 07 90 3C 64, with a NoteOn status remembered: the clock comes out, and a note made of the second delta time and the status |
| `MidiPrinter.DeltaValueExact` | raveloxmidi/src/midi_state.c:281-292 | a delta time of up to eight octets is read as its RFC 6295 value if and only if every octet but the last carries zero; otherwise as more |
| `MidiPrinter.DeltaShifts` | raveloxmidi/src/midi_state.c:281-292 | a delta time of any length is its octets, seven bits of each, shifted by eight in 64 bits |
| `MidiPrinter.OneOctetDelta` | raveloxmidi/src/midi_state.c:281-292 | every one-octet delta time is read as its value |
| `Bytes.NetworkOrder` | raveloxmidi/src/utils.c:60-97 | copying raw octets and swapping them on a little-endian host reads network order, at any width |
| `Bytes.GetOnLittleEndianHost` | raveloxmidi/src/utils.c:99-205 | the 16, 32 and 64 bit getters give the big-endian value of the octets |
| `Bytes.TwoOctetsOf` | raveloxmidi/src/utils.c:120-133 | 16 bits go out high octet first |
| `Bytes.FourOctetsOf` | raveloxmidi/src/utils.c:135-148 | 32 bits go out highest octet first |
| `Bytes.StoreOnLittleEndianHost` | raveloxmidi/src/utils.c:120-163 | swapping a host integer end for end and copying its octets out writes network order, at any width |
| `Bytes.HostRoundTrip` | raveloxmidi/src/utils.c:99-205 | what a put helper writes the get helper of that width reads, both with their swap and copy on a little-endian host |
| `Bytes.FixedWidthRoundTrip` | raveloxmidi/src/utils.c:99-205 | the big-endian octets of a 16, 32 or 64 bit integer read back as it |
| `Bytes.PutUint` | raveloxmidi/src/utils.c:120-163 | the swap and copy at the moving pointer write the octets in network order, and the pointer ends past them |
| `RtpPacket.PackHeader` | raveloxmidi/src/rtp_packet.c:74-100 | the octets written field by field are the header of RFC 3550 |
| `RtpPacket.Pack` | raveloxmidi/src/rtp_packet.c:74-122 | the packet is the header followed by the payload |
| `RtpPacket.Unpack` | raveloxmidi/src/rtp_packet.c:124-161 | equals the specified reading for every buffer; those shorter than a header are the ones read past their end |
| `RtpPacket.RoundTrip` | raveloxmidi/src/rtp_packet.c:74-161 | unpacking undoes packing for every header and every payload |
| `RtpPacket.HeaderOctets` | raveloxmidi/src/rtp_packet.c:98-108 | the octets packed, bit by bit and field by field at their places in RFC 3550 |
| `MidiPayload.FromCommand` | raveloxmidi/src/midi_payload.c:321-354 | the payload made of a command has no flag set and holds the status and the data octets, up to the 16 bits of its length |
| `MidiPayload.Pack` | raveloxmidi/src/midi_payload.c:206-254 | writes the flags, the length in the form its size asks for, and the commands |
| `MidiPayload.HeaderOctets` | raveloxmidi/src/midi_payload.c:206-254 | the octets packed, bit by bit at their places in section 3 of RFC 6295 |
| `MidiPayload.Unpack` | raveloxmidi/src/midi_payload.c:256-319 | equals the specified reading for every buffer, malformed ones included |
| `MidiPayload.UnpackExact` | raveloxmidi/src/midi_payload.c:256-319 | of any buffer, malformed or not, exactly that payload is unpacked which its octets spell, and none if they spell none |
| `MidiPayload.ShortForm` | raveloxmidi/src/midi_payload.c:206-319 | a length up to 15 reads back, whatever journal follows, if and only if B is clear |
| `MidiPayload.LongForm` | raveloxmidi/src/midi_payload.c:206-319 | a length over 15 reads back, whatever journal follows, if and only if B is set and the length fits twelve bits |
| `MidiPayload.RoundTripExact` | raveloxmidi/src/midi_payload.c:206-319 | unpacking undoes packing, whatever journal follows, if and only if the length is below 4096 and B is set just for lengths over 15 |
| `ChapterC.Reset` | raveloxmidi/src/chapter_c.c:200-212 | a reset chapter has no active controller |
| `ChapterC.Record` | raveloxmidi/src/midi_journal.c:496-498 | recording sets exactly that controller to that value |
| `ChapterC.Count` | raveloxmidi/src/chapter_c.c:125-143 | the counting pass counts the active controllers |
| `ChapterC.WriteLogs` | raveloxmidi/src/chapter_c.c:155-189 | the writing pass, driven by its eight-bit counter of bytes left, writes every active log and ends at zero; or nothing when the counter starts at zero |
| `ChapterC.Pack` | raveloxmidi/src/chapter_c.c:117-190 | counting and writing agree: header and one log for each active controller, but zeros for all 128 |
| `ChapterC.LogOctets` | raveloxmidi/src/chapter_c.c:168-186 | the two octets of a log bit by bit, in either coding |
| `ChapterC.FlagsPacked` | raveloxmidi/src/chapter_c.c:154-186 | the S bit of the chapter and that of every log are in their places |
| `ChapterC.EntriesAscend` | raveloxmidi/src/chapter_c.c:164-186 | each controller is logged at most once, in ascending order |
| `ChapterC.DecodePackedExact` | raveloxmidi/src/chapter_c.c:117-190 | a reader of RFC 6295 gets exactly the active controllers and their values if and only if fewer than 128 are active |
| `ChapterC.ApplySetsValues` | raveloxmidi/src/chapter_c.c:117-190 | a receiver that applies the entries sets exactly the active controllers |
| `ChapterN.SetBitSets` | raveloxmidi/src/midi_journal.c:434 | or-ing one shifted bit into an octet sets that bit and changes no other |
| `ChapterN.RecordOff` | raveloxmidi/src/midi_journal.c:421-437 | sets the bit of the note, or none when the shift is out of range and the machine sets none; leaves every other bit and the notes alone; keeps every octet in use within low..high |
| `ChapterN.RecordOffReleases` | raveloxmidi/src/midi_journal.c:421-437 | a reader of Appendix A.6 of RFC 6295 then gets one more note released: the one whose place in the octet the bit is |
| `ChapterN.ReadAsExact` | raveloxmidi/src/midi_journal.c:426-434 | that note is the one released if and only if it is the fifth of its octet, or the machine's stray bit is the top one for the first |
| `ChapterN.RecordOn` | raveloxmidi/src/midi_journal.c:439-450 | appends the note while there is room and loses nothing logged |
| `ChapterN.Reset` | raveloxmidi/src/chapter_n.c:287-300 | no note and no NoteOff is left, and the chapter stays valid |
| `ChapterN.PackNotes` | raveloxmidi/src/chapter_n.c:95-132 | the note buffer holds all logged notes in order |
| `ChapterN.Pack` | raveloxmidi/src/chapter_n.c:83-177 | header, notes and the NoteOff octets low..high |
| `ChapterN.DecodeNotesPacked` | raveloxmidi/src/chapter_n.c:302-326 | the packed notes read back |
| `ChapterN.DecodePackedExact` | raveloxmidi/src/chapter_n.c:83-177 | a reader of RFC 6295 gets the logged notes and the notes that the NoteOff field says by Appendix A.6, if and only if the chapter is not the one with 127 notes and range 15..0 |
| `ChapterP.RoundTrip` | raveloxmidi/src/chapter_p.c:50-91 | unpacking undoes packing, whatever follows |
| `Journal.MidiJournal.Touch` | raveloxmidi/src/midi_journal.c:393-419 | the part all adds share: a channel is counted when its four-bit number does not match, so channel 15 is counted at every add |
| `Journal.MidiJournal.AddNote` | raveloxmidi/src/midi_journal.c:381-451 | the whole new state is the old one with that note |
| `Journal.MidiJournal.AddControl` | raveloxmidi/src/midi_journal.c:453-499 | the whole new state is the old one with that controller; numbers over 127 change nothing |
| `Journal.MidiJournal.AddProgram` | raveloxmidi/src/midi_journal.c:501-545 | the whole new state is the old one with that program |
| `Journal.MidiJournal.Reset` | raveloxmidi/src/midi_journal.c:588-655 | the loop over the channels resets each, keeping them and Chapter P allocated |
| `JournalHistory.After` | raveloxmidi/src/midi_journal.c:381-655 | every reachable journal is valid: each nonzero offbits octet lies within low..high, the notes below `num_notes` are present, controller values have seven bits |
| `JournalHistory.MarksInvariant` | raveloxmidi/src/midi_journal.c:413-417 | after any history the headers in use are exactly the channels 0..14 touched since the last reset |
| `JournalHistory.CountInvariant` | raveloxmidi/src/midi_journal.c:413-417 | after any history `totchan` is, in eight bits, the channels 0..14 touched since the last reset plus the adds on channel 15 |
| `JournalHistory.ChannelCountExact` | raveloxmidi/src/midi_journal.c:413-417 | `totchan` equals the number of channels touched if and only if channel 15 had no add, or 1 modulo 256 |
| `JournalHistory.ControlsInvariant` | raveloxmidi/src/midi_journal.c:453-499 | after any history the active controllers are those touched since the last reset, with their latest values |
| `JournalHistory.ChapterCDecodes` | raveloxmidi/src/chapter_c.c:117-190 | after any history packed Chapter C decodes to each controller touched since the last reset once, ascending, latest value, if and only if some controller was not touched |
| `JournalHistory.ProgramInvariant` | raveloxmidi/src/midi_journal.c:501-545 | after any history the flagged Chapter P is the latest program since the last reset |
| `JournalHistory.HeaderInvariant` | raveloxmidi/src/midi_journal.c:393-419 | after any history the A flag is set if and only if there was an add since the last reset, and the checkpoint is the low 16 bits of the number of the latest |
| `JournalHistory.NotesInvariant` | raveloxmidi/src/midi_journal.c:381-451 | after any history the notes are the first 127 NoteOns since the last reset, and the bit field says the notes that the NoteOffs are read as |
| `JournalHistory.NoteFlagInvariant` | raveloxmidi/src/midi_journal.c:411 | after any history the B bit of Chapter N is set if and only if there was a note on the channel since the last reset |
| `JournalHistory.OtherControlIgnored` | raveloxmidi/src/midi_journal.c:464-465 | an add of a controller numbered 128 or above changes nothing, and one below 128 sets exactly its value |
| `JournalHistory.RangeInvariant` | raveloxmidi/src/midi_journal.c:430-432 | after any history low and high are the least and greatest octet of the NoteOffs since the last reset, starting from 15 and 0, or from 0 and 0 in a chapter that was reset |
| `JournalHistory.ChapterNDecodes` | raveloxmidi/src/chapter_n.c:135-147 | after any history packed Chapter N decodes to those notes and those NoteOffs, if and only if there were not 127 NoteOns and no NoteOff since the last reset in a chapter made since then |
| `JournalHistory.NoteOffsReadBackExact` | raveloxmidi/src/midi_journal.c:426-434 | where the shift out of range sets no bit: a reader gets exactly the notes released if and only if none is the first of its octet and each was released together with its mirror image in the octet |
| `JournalHistory.NoteOffExample` | raveloxmidi/src/midi_journal.c:426-434 | a NoteOff of note 60 is read as 60, of 61 as 59, and of 56 as none |
| `JournalWire.PackChannel` | raveloxmidi/src/midi_journal.c:127-212 | the channel is its header and its allocated chapters in the order P, C, N |
| `JournalWire.JoinChannel` | raveloxmidi/src/midi_journal.c:147-204 | the LENGTH accumulated in ten bits never wraps and is the size of what is copied |
| `JournalWire.PackChannels` | raveloxmidi/src/midi_journal.c:290-315 | the growing buffer is the packed channels in order, one after the other |
| `JournalWire.Pack` | raveloxmidi/src/midi_journal.c:269-323 | header and channels, or nothing when no channel is counted |
| `JournalWire.HeaderOctets` | raveloxmidi/src/midi_journal.c:33-56 | the three octets of a journal header: S set, Y and H clear, A that of the journal, TOTCHAN, and the checkpoint |
| `JournalWire.ChannelHeaderOctets` | raveloxmidi/src/midi_journal.c:78-105 | the three octets of a channel header bit by bit; no chapters are announced but P, C and N |
| `JournalWire.LengthIsSize` | raveloxmidi/src/midi_journal.c:78-212 | the ten-bit LENGTH read from the wire is the number of octets packed for the channel |
| `JournalWire.WalkVisitsEveryChannel` | raveloxmidi/src/midi_journal.c:269-323 | a walker that skips by LENGTH meets every channel boundary and ends exactly at the end of the journal |
| `JournalReader.OrderlyInvariant` | raveloxmidi/src/midi_journal.c:381-655 | in every journal reachable without channel 15 since its last reset the flags never announce a chapter that is not packed, exactly the channels counted have a flag, and the S and H bits are those the standard asks for |
| `JournalReader.ChaptersReadExact` | raveloxmidi/src/midi_journal.c:127-212 | the exact condition for one channel, for either reader |
| `JournalReader.AllocatedCount` | raveloxmidi/src/midi_journal.c:269-323 | the channels packed are as many as those counted if and only if no reset left one behind |
| `JournalReader.JournalReadsExactly` | raveloxmidi/src/midi_journal.c:269-323 | after any history without channel 15 since the last reset: a strict reader of the whole wire form gets exactly the A flag, the checkpoint, the channels in use and their chapters if and only if no reset left a channel or chapter behind; a reader that skips what is left over, if and only if no channel left behind stands before one in use and no Chapter P left behind says something else than the chapters behind it |
| `JournalReader.WireTellsCarried` | raveloxmidi/src/midi_journal.c:127-323 | where a journal is read, either reader learns exactly the controllers and programs that the recovery theorem takes a packet to tell |
| `JournalReader.UnresetIsFresh` | raveloxmidi/src/midi_journal.c:381-545 | before the first reset nothing is left behind, so both readers get every journal |
| `JournalReader.LeftoverExact` | raveloxmidi/src/midi_journal.c:588-599 | a controller on one channel, a reset, a controller on another: never read by the strict reader, and by the skipping one if and only if the first channel has the higher number |
| `JournalReader.LastReadAsFirst` | raveloxmidi/src/midi_journal.c:78-105 | whatever is recorded on channel 15 is read as channel 0 |
| `JournalReader.OneControlOnLast` | raveloxmidi/src/midi_journal.c:453-499 | one controller on channel 15 is enough: either reader gets a journal that sets it on channel 0 |
| `RecoveryTold.TotchanIsTouched` | raveloxmidi/src/midi_journal.c:413-417 | without channel 15 since the last reset `totchan` is exactly the number of channels touched |
| `RecoveryTold.CarryTellsHeld` | raveloxmidi/src/midi_journal.c:269-323 | a receiver that reads the packed chapters learns exactly what the journal holds, also when no journal is sent |
| `RecoveryInvariant.DeliverRecovers` | raveloxmidi/src/midi_sender.c:199-285 | a packet brings a receiver that knows any earlier state since the last one delivered up to date, whatever was lost between |
| `RecoveryInvariant.JudgementSound` | raveloxmidi/src/applemidi_feedback.c:60-69 | an acknowledgement that passes the comparison, duplicated, late or past 65535, means that everything sent was delivered |
| `RecoveryInvariant.StepKeeps` | raveloxmidi/src/midi_sender.c:199-311 | every step of sender, network, receiver and responder keeps the invariant of the protocol |
| `RecoveryInvariant.RecoveryTheorem` | raveloxmidi/src/midi_sender.c:199-311 | in every careful run of send, lose, deliver and feedback steps, from the opening of a session in a new or a reused slot with any history, the receiver has the sender's controllers and programs as of the last packet delivered, whatever was lost, and the journal is cleared only when all was delivered |
| `RecoveryLimits.SplitCallLoses` | raveloxmidi/src/applemidi_feedback.c:60-68 | a packet sent between reading `seq` and clearing can be lost for good |
| `RecoveryLimits.WrapLoses` | raveloxmidi/src/net_connection.c:533-540 | once the 32-bit number wraps an old acknowledgement clears the journal |
| `RecoveryLimits.LastChannelLoses` | raveloxmidi/src/midi_journal.c:487-491 | 256 adds on channel 15 bring the count to zero and no journal is sent |
| `RecoveryLimits.FullChannelLoses` | raveloxmidi/src/chapter_c.c:143-162 | a channel with all 128 controllers tells the receiver that they are zero |
| `RecoveryLimits.RecoveryExactly` | raveloxmidi/src/midi_sender.c:199-311 | recovery holds in all runs that keep a choice of these four conditions, from any opening, if and only if all four are kept |
| `RecoveryLimits.StaleAcksExactly` | raveloxmidi/src/applemidi_feedback.c:52-69 | recovery holds in all careful runs of a session if and only if no acknowledgement numbered 2 or more of the session before it in that slot can still arrive |
| `WireRecovery.CarriedIsLearned` | raveloxmidi/src/midi_journal.c:269-323 | the octets of a journal that a reader gets, or of none, tell it exactly what the protocol takes the packet to tell |
| `WireRecovery.WireRecoveryTheorem` | raveloxmidi/src/midi_sender.c:199-311 | the recovery theorem for a receiver that reads the octets of the whole journal, in runs whose packed journals its reader gets |
| `Connection.Context.constructor` | raveloxmidi/src/net_connection.c:200-236 | a new entry is unused, at sequence number 1, with an empty journal |
| `Connection.Context.Open` | raveloxmidi/src/net_connection.c:118-160 | opens the entry for a session |
| `Connection.Context.Reset` | raveloxmidi/src/net_connection.c:238-258 | closes the entry, clears the journal and sets the number to 1 |
| `SenderTurn.ResetIsOpening` | raveloxmidi/src/net_connection.c:238-258 | a reset connection is what the recovery theorem starts from: number 1, and a cleared journal that holds nothing |
| `Connection.Context.IncrementSeq` | raveloxmidi/src/net_connection.c:533-540 | the 32-bit number goes up by one and wraps |
| `Connection.Context.Feedback` | raveloxmidi/src/applemidi_feedback.c:60-69 | the journal is cleared exactly when the acknowledged number is at least the 32-bit one |
| `MidiSender.BuildPacket` | raveloxmidi/src/midi_sender.c:211-283 | the packet built by hand is byte for byte `rtp_packet_pack` of `midi_payload_pack` and the journal, and the octets written equal the octets allocated, for every payload and journal |
| `MidiSender.PutPayloadHeader` | raveloxmidi/src/midi_sender.c:254-273 | the inlined command section header is that of `midi_payload_pack` with J telling whether a journal follows |
| `MidiSender.PutRtpHeader` | raveloxmidi/src/midi_sender.c:242-252 | the inlined RTP header is that of `rtp_packet_pack` |
| `MidiSender.RecordEvent` | raveloxmidi/src/midi_sender.c:297-311 | exactly the journal add of the kind of command, under the new number |
| `MidiSender.BeyondMatters` | raveloxmidi/src/midi_note.c:143-147 | what the journal is told depends on the octet behind the end of the data exactly for a NoteOn or controller with one data octet, which no complete command is |
| `MidiSender.SendTo` | raveloxmidi/src/midi_sender.c:195-311 | one turn, as `SenderTurn` spells it out: the packet carries the journal as it was before the command, under the number after the increment, and the command is recorded after it; nothing at all for the originator |
| `MidiSender.TurnIsSendSteps` | raveloxmidi/src/midi_sender.c:199-311 | a turn of the loop is the three sending steps of the recovery protocol: same number, same journal, and the packet sent has the number and the journal octets of the protocol |
| `MidiSender.FeedbackIsTwoSteps` | raveloxmidi/src/applemidi_feedback.c:60-69 | a feedback call is the two responder steps of the protocol |
| `MidiSender.SendSingle` | raveloxmidi/src/midi_sender.c:137-312 | every connection takes its own turn with its own journal and number, and no turn disturbs another connection |
| `SenderTurn.ControlTurn` | raveloxmidi/src/midi_control.c:127-128 | a turn with Bn, number, value sets exactly that controller of channel n in the journal, marks the channel and notes the number; nothing else recorded changes |
| `SenderTurn.ProgramTurn` | raveloxmidi/src/midi_program.c:132-135 | a turn with Cn sets exactly that program |
| `SenderTurn.NoteOnTurn` | raveloxmidi/src/midi_note.c:143-147 | a turn with 9n logs exactly that note with its velocity, while there is room |
| `SenderTurn.NoteOffTurn` | raveloxmidi/src/midi_note.c:143-147 | a turn with 8n adds exactly the mirror image of the note in its octet to what a reader finds released |
| `SenderTurn.OtherTurn` | raveloxmidi/src/midi_sender.c:292-311 | every other status, or any with the journal switched off, leaves the journal as it was |
| `SenderTurn.TurnNumbers` | raveloxmidi/src/midi_sender.c:195-232 | a turn numbers its packet one up, wrapping at 32 bits; the originator is neither sent to nor changed |
| `SenderTurn.TurnOctets` | raveloxmidi/src/midi_sender.c:222-285 | the packet octet by octet: 80 61, number, timestamp, identifier, command section with J set just when a journal follows and B, Z, P clear, the command, and the journal as it was before |
| `EndToEnd.OutputBounded` | raveloxmidi/src/midi_state.c:312-460 | the parser emits and holds at most two octets for each it reads |
| `EndToEnd.ClearFlagTakes` | raveloxmidi/src/midi_payload.c:256-319 | with B clear a receiver takes at most fifteen octets, and none of a payload of 16 to 255 |
| `EndToEnd.TooLittle` | raveloxmidi/src/midi_state.c:242-460 | what a receiver takes of a longer command never parses to it |
| `EndToEnd.CommandCrosses` | raveloxmidi/src/midi_sender.c:211-283 | a voice, real-time or whole SysEx command, packed with any header and any journal, unpacked and parsed by an idle peer, comes out as exactly that command with delta 0, if and only if it has at most fifteen octets |
| `EndToEnd.EventCrosses` | raveloxmidi/src/midi_sender.c:152-171 | what the peer gets of a voice command means the same for the journal as what the sender recorded |
| `DataQueue.Queue.constructor` | raveloxmidi/src/data_queue.c:68-102 | a new queue is empty |
| `DataQueue.Queue.Add` | raveloxmidi/src/data_queue.c:153-203 | appends to the linked list, keeps `top`, `bottom` and the state in agreement with it, and signals exactly when the state said empty; the same functions are the steps of `HandOff` |
| `DataQueue.Queue.Get` | raveloxmidi/src/data_queue.c:206-228 | removes the oldest item, keeping `top`, `bottom` and the state in agreement; an empty queue gives none and is marked empty |
| `DataQueue.Queue.Stop` | raveloxmidi/src/data_queue.c:307-316 | sets the shutdown flag and leaves the list alone |
| `HandOff.StepOrderly` | raveloxmidi/src/data_queue.c:153-316 | every step of every thread keeps handled, in flight and queued equal to added, the state flag true, and no wake-up lost |
| `HandOff.StepCounted` | raveloxmidi/src/data_context.c:65-115 | every step keeps each count equal to its holders and one thread in charge of destroying what has none |
| `HandOff.TouchesLive` | raveloxmidi/src/data_context.c:65-115 | no step reads or writes a context that was destroyed |
| `HandOff.FifoNoLostWakeUp` | raveloxmidi/src/data_queue.c:153-316 | in all interleavings commands are handled in add order at most once, and an unsignalled waiting handler means an empty queue and no shutdown |
| `HandOff.HandlerNeverStuck` | raveloxmidi/src/data_queue.c:255-300 | with work queued or a shutdown to act on, the handler can always take a step |
| `HandOff.NextIsHandled` | raveloxmidi/src/data_queue.c:255-300 | from every reachable state with a command in flight or queued and no shutdown, at most four steps of the handler alone handle the first such command |
| `HandOff.IdleWaits` | raveloxmidi/src/data_queue.c:262-267 | with nothing to do the handler waits and has changed nothing |
| `HandOff.ShutdownStops` | raveloxmidi/src/data_queue.c:269-273 | from every reachable state with a shutdown asked for, at most four steps of the handler alone end its thread |
| `HandOff.StopEnds` | raveloxmidi/src/data_queue.c:307-316 | a stop in any reachable state, followed by those steps, ends it |
| `HandOff.AfterShutdown` | raveloxmidi/src/data_queue.c:269-273 | after a shutdown was asked for no further command is taken up, in any run, and a handler that has stopped stays so |
| `HandOff.ReaderQueues` | raveloxmidi/src/midi_sender.c:96-101 | a reader queues exactly the command it parsed, with the context of its read, and goes on parsing |
| `HandOff.ReaderBegins` | raveloxmidi/src/net_socket.c:578-588 | a read begins with a new context of which the reader holds the one reference |
| `HandOff.ReaderEnds` | raveloxmidi/src/net_socket.c:589-593 | and ends, at the latest with the destruction of the context, with the reader ready for the next |
| `HandOff.ReferencesCountHolders` | raveloxmidi/src/data_context.c:65-115 | in all interleavings `reference` is the number of live holders, no step touches a destroyed context, and none is destroyed twice |
| `HandOff.DrainedMeansFreed` | raveloxmidi/src/midi_sender.c:96-135 | once readers are idle and the queue has drained, every context was destroyed exactly once |
| `AppleMidi.Pack` | raveloxmidi/src/net_applemidi.c:380-518 | writes the specified octets for each command, and reports missing data; a sync command without data is the one that uses a null pointer |
| `AppleMidi.Unpack` | raveloxmidi/src/net_applemidi.c:219-378 | equals the specified reading for every buffer, including each case of too little data |
| `AppleMidi.RoundTrip` | raveloxmidi/src/net_applemidi.c:219-518 | unpacking undoes packing for every IN, OK, NO and BY (name absent, empty or not), RS, RL and CK, and for unknown codes |
| `AppleMidi.Codes` | raveloxmidi/src/net_applemidi.c:251-254 | the seven command codes are the letters of the protocol |
| `AppleMidi.BodyOctets` | raveloxmidi/src/net_applemidi.c:380-518 | each field at its place in the packet |
| `AppleMidi.CutExact` | raveloxmidi/src/net_applemidi.c:219-378 | for every packet cut short anywhere: NEED_DATA, or a read past the end, or the invitation without its name, exactly where each happens |
| `AppleMidi.TrailingIgnored` | raveloxmidi/src/net_applemidi.c:219-378 | octets behind a packet change nothing, an invitation without a name apart |
| `AppleMidi.AckCrosses` | raveloxmidi/src/applemidi_feedback.c:72-104 | a feedback packet goes out as FF FF and RS, by which the peer knows it, and arrives as the number it acknowledges |
| `ConnectionTable.FindSsrc` | raveloxmidi/src/net_connection.c:271-309 | finds a used slot of the SSRC, and none if and only if there is none |
| `ConnectionTable.FindUnused` | raveloxmidi/src/net_connection.c:162-198 | finds an unused slot, and none if and only if all are used |
| `ConnectionTable.Table.FindBySsrc` | raveloxmidi/src/net_connection.c:271-309 | the search loop finds the first used slot of the SSRC |
| `ConnectionTable.Table.FindFree` | raveloxmidi/src/net_connection.c:162-198 | the search loop finds the first unused slot |
| `ConnectionTable.Table.Register` | raveloxmidi/src/net_connection.c:403-454 | an open SSRC keeps its session; otherwise an unused slot is taken before the table grows; no sequence number or journal changes, and a new slot starts at 1 with an empty journal |
| `ConnectionTable.Table.Reuse` | raveloxmidi/src/net_connection.c:422-442 | an unused slot becomes the session and no other slot or number changes |
| `ConnectionTable.Table.AddNew` | raveloxmidi/src/net_connection.c:394-401 | the table grows by one slot in use |
| `ConnectionTable.Table.Invited` | raveloxmidi/src/applemidi_inv.c:40-118 | after an IN the SSRC has a slot, for its first IN with that very session, and the answer is FF FF and OK with version 2, the initiator and identifier of that slot, and the name of the service |
| `ConnectionTable.Table.Answer` | raveloxmidi/src/applemidi_inv.c:89-107 | the answer is FF FF and OK with version 2, the initiator and identifier of the session that the SSRC has, and the name of the service |
| `ConnectionTable.Table.Ended` | raveloxmidi/src/applemidi_by.c:37-59 | a BY frees the slot of its SSRC, sets its number to 1 and clears its journal; every other connection is left as it was |
| `ConnectionTable.HistoryRepresented` | raveloxmidi/src/net_connection.c:403-454 | after every history of IN and BY the used slots are the open sessions, each once |
| `ConnectionTable.TableIsSessionMap` | raveloxmidi/src/net_connection.c:162-309 | used slots have distinct SSRCs, lookup by SSRC agrees with a map of open sessions, and the table is as long as the most sessions open at once |

## Left out

- Sockets, poll, pipes, signals and the control requests on the local socket (STAT, QUIT, LIST):
  I/O plumbing. Only the order of write, send, acquire and release around a read is modelled;
  `MidiState.State.Feed` is about reads that are not control requests.
- ALSA, Avahi, logging, daemonising, configuration, `kv_table`, `dstring`, the JSON list of
  connections and the Python scripts: foreign or easy.
- Allocation failure and the tracking of memory and mutexes: allocation succeeds, and a region
  under a lock is one step. The null `data` pointer of an empty hold buffer is an array of length
  zero, and a null object is not passed.
- `chapter_c_unpack`: it has no caller and is not the inverse of `chapter_c_pack`. Decoders
  written from RFC 6295 take its place.
- `data_table_delete_item`: it has no caller. The table only grows.
- The OK handshake and the sync thread: they overwrite the SSRC of a connection without a lookup.
  Sessions here are opened by IN and closed by BY.
- The parser kept in each connection is not a field of `Connection.Context`; `MidiState.State`
  models it on its own, and `EndToEnd` takes it as a parameter.
- The LENGTH and LEN fields stored in channel and chapter headers: every pack overwrites them
  before they are read.
- The test of a status octet against the enumeration value 13 instead of 0xF7 in
  `midi_state.c:357`: 13 is a data octet, so that branch is never taken.
- RingBuffer.Ring.Read: `Overrun` stands for the calls on which the program writes past the end of
  what it allocated; what then happens is not modelled. Both callers in the program ask for
  everything, which is none of them.
- RingBuffer.Ring.Resize: a new size that does not hold the contents overruns in the program, and
  one of zero leaves a ring without a place to read from; the model refuses both and stays as it
  is.
- RtpPacket.Unpack: `None` stands for the buffers that the program reads past their end; what it
  then reads is not modelled.
- AppleMidi.Unpack: `Overrun` stands for the inputs on which the program reads past the end of
  the buffer on a 64-bit host; with pointers of four octets the length test is right, and only a
  name without its NUL is read past the end.
- AppleMidi.Pack: `NullData` stands for a sync command without data, whose data the program uses
  unchecked.
- EndToEnd.CommandCrosses: a packet whose payload does not unpack counts as not received; the
  program goes on with a null payload there (`net_socket.c:643`), and what then happens is not
  modelled.
- MidiSender.SendTo: the octet behind the end of a command's data, read for a note or controller
  with one data octet, is a parameter; that reading it may fail is not modelled.
- ChapterN.RecordOff: for notes divisible by eight the shift is out of range, and the bit it
  sets, or none, is a parameter.
- RecoveryInvariant.RecoveryTheorem: a receiver recovers controllers and programs; notes are not part of
  what it recovers. Packets carry the Chapter C and the flagged Chapter P octets of each slot
  beside the whole wire form; `WireRecovery.WireRecoveryTheorem` is about the wire form alone, on
  runs whose journals its reader gets.
- MidiPrinter.RtpListFraming: payloads that are not cut off inside a command; `CommandData` says
  what a cut one leaves held.
- HandOff.ReferencesCountHolders: the 32-bit count is unbounded, and a context is never null.
- Clocks and random numbers: timestamps and SSRCs chosen at random are parameters.
