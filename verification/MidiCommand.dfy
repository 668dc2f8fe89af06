/** MIDI commands and the message table of midi_command.c. */
module MidiCommand {
  import opened Bytes

  datatype Command = Command(delta: u64, status: byte, data: seq<byte>)

  const TIMING_CLOCK: byte := 0xF8

  /** A row of the message table: a high nibble or a whole status, and its data octets. */
  datatype Row = Row(message: byte, length: nat)

  /** `midi_message_map`, without its names; a message of zero ends it. */
  function Table(): (t: seq<Row>)
    ensures |t| == 24
  {
    [Row(0x8, 2), Row(0x9, 2), Row(0xA, 2), Row(0xB, 2), Row(0xC, 1), Row(0xD, 1), Row(0xE, 2),
     Row(0xF0, 0), Row(0xF1, 1), Row(0xF2, 2), Row(0xF3, 1), Row(0xF4, 0), Row(0xF5, 0), Row(0xF6, 0), Row(0xF7, 0),
     Row(0xF8, 0), Row(0xF9, 0), Row(0xFA, 0), Row(0xFB, 0), Row(0xFC, 0), Row(0xFD, 0), Row(0xFE, 0), Row(0xFF, 0),
     Row(0x00, 0)]
  }

  /** Number of data octets of a status octet, as MIDI 1.0 gives them; none for a data octet. */
  function BytesNeeded(command: byte): (n: nat)
    ensures n <= 2
  {
    if command < 0x80 then 0
    else if command < 0xC0 then 2
    else if command < 0xE0 then 1
    else if command < 0xF0 then 2
    else if command == 0xF2 then 2
    else if command == 0xF1 || command == 0xF3 then 1
    else 0
  }

  /** What the table is searched for: statuses below 0xF0 by their high nibble. */
  function Normal(command: byte): byte {
    if command < 0xF0 then command / 16 else command
  }

  lemma RowOf(command: byte, i: nat)
    requires i < |Table()| && Table()[i].message == Normal(command) != 0
    ensures Table()[i].length == BytesNeeded(command)
  {
  }

  /** Every status octet has a row. */
  lemma HasRow(command: byte)
    requires command >= 0x80
    ensures var i := if command < 0xF0 then command / 16 - 8 else command - 0xF0 + 7;
            i < |Table()| && Table()[i].message == Normal(command) != 0
  {
  }

  /** The search loop: stop at the message, or at the end of the table. */
  method Find(table: seq<Row>, message: byte) returns (i: nat)
    requires exists k :: 0 <= k < |table| && table[k].message == 0
    ensures i < |table| && (table[i].message == message || table[i].message == 0)
    ensures forall k :: 0 <= k < i ==> table[k].message != message && table[k].message != 0
  {
    i := 0;
    while table[i].message != 0
      invariant 0 <= i < |table|
      invariant forall k :: 0 <= k < i ==> table[k].message != message && table[k].message != 0
      decreases |table| - i
    {
      if table[i].message == message {
        return;
      }
      i := i + 1;
    }
  }

  lemma OnlyEnd(i: nat)
    requires i < |Table()| && Table()[i].message == 0
    ensures i == |Table()| - 1
  {
  }

  /** `midi_command_bytes_needed`: the row found, or zero. */
  method LookUp(command: byte) returns (n: nat)
    ensures n == BytesNeeded(command)
  {
    var table := Table();
    assert table[23].message == 0;
    var i := Find(table, Normal(command));
    if table[i].message != 0 {
      RowOf(command, i);
      return table[i].length;
    }
    OnlyEnd(i);
    if command >= 0x80 {
      HasRow(command);
    }
    return 0;
  }

  /** `status & 0xf0`, up to the low nibble of a channel voice status, which the table ignores. */
  function MaskStatus(status: byte): byte {
    if status < 0xF0 then status else 0xF0
  }

  predicate IsVoice(status: byte) {
    0x80 <= status < 0xF0
  }

  /** A system real-time status of MIDI 1.0. */
  predicate IsRealTime(status: byte) {
    status >= 0xF8
  }

  /** A channel voice command has all its data octets. */
  predicate Complete(c: Command) {
    IsVoice(c.status) ==> |c.data| >= BytesNeeded(c.status)
  }

  predicate DataOctets(s: seq<byte>) {
    forall i :: 0 <= i < |s| ==> s[i] < 0x80
  }
}
