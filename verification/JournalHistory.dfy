/** What a journal holds after any history of adds and resets. */
module JournalHistory {
  import opened Bytes
  import opened Journal
  import ChapterC
  import ChapterN
  import ChapterP

  datatype Op =
    | NoteOff(channel: nibble, note: seven, stray: nibble, seqNo: u32)
    | NoteOn(channel: nibble, note: seven, velocity: seven, seqNo: u32)
    | Control(channel: nibble, number: byte, value: seven, seqNo: u32)
    | Program(channel: nibble, program: seven, seqNo: u32)
    | Clear

  function Do(j: State, op: Op): (r: State)
    requires Valid(j)
    ensures Valid(r)
  {
    match op
    case NoteOff(i, note, stray, seqNo) => WithNoteOff(j, seqNo, i, note, stray)
    case NoteOn(i, note, velocity, seqNo) => WithNoteOn(j, seqNo, i, note, velocity)
    case Control(i, number, value, seqNo) => WithControl(j, seqNo, i, number, value)
    case Program(i, program, seqNo) => WithProgram(j, seqNo, i, program)
    case Clear => Cleared(j)
  }

  /** The journal after a history, latest operation last. Every reachable journal is valid, so
      its NoteOff range covers every octet in use and the logged notes are present. */
  function After(ops: seq<Op>): (j: State)
    ensures Valid(j)
  {
    if ops == [] then Create() else Do(After(ops[..|ops| - 1]), ops[|ops| - 1])
  }

  /** Does the operation add to the journal, and to which channel? */
  predicate Adds(op: Op) {
    !op.Clear? && (op.Control? ==> op.number < ChapterC.CONTROLLERS)
  }

  /** Channels 0..14 touched since the last reset. */
  function TouchedLow(ops: seq<Op>): set<nat> {
    if ops == [] || ops[|ops| - 1].Clear? then {}
    else
      var op, before := ops[|ops| - 1], TouchedLow(ops[..|ops| - 1]);
      if Adds(op) && op.channel < 15 then before + {op.channel} else before
  }

  /** Number of adds on channel 15 since the last reset. */
  function AddsOnLast(ops: seq<Op>): nat {
    if ops == [] || ops[|ops| - 1].Clear? then 0
    else AddsOnLast(ops[..|ops| - 1]) + if Adds(ops[|ops| - 1]) && ops[|ops| - 1].channel == 15 then 1 else 0
  }

  /** Which channel headers are marked. */
  predicate Marked(j: State, i: nibble)
    requires Valid(j)
  {
    ChannelOf(j, i).header.chan == i + 1
  }

  lemma DoMarks(j: State, op: Op, i: nibble)
    requires Valid(j)
    ensures Marked(Do(j, op), i) <==>
            (if op.Clear? then false else (Adds(op) && op.channel == i && i < 15) || Marked(j, i))
  {
    if op.Clear? && j.channels[i].Some? {
      assert Do(j, op).channels[i] == ResetSlot(j.channels[i]);
    }
  }

  lemma DoCounts(j: State, op: Op)
    requires Valid(j)
    ensures Do(j, op).header.totchan ==
            if op.Clear? then 0
            else Count(j.header.totchan, Adds(op) && !Marked(j, op.channel))
  {
  }

  lemma {:induction false} MarksInvariant(ops: seq<Op>, i: nibble)
    ensures Marked(After(ops), i) <==> i in TouchedLow(ops)
    decreases |ops|
  {
    if ops != [] {
      MarksInvariant(ops[..|ops| - 1], i);
      DoMarks(After(ops[..|ops| - 1]), ops[|ops| - 1], i);
    }
  }

  lemma CountsUp(totchan: byte, total: nat)
    requires totchan == total % 256
    ensures Count(totchan, true) == (total + 1) % 256
  {
  }

  /** Channels counted: each of 0..14 once, and channel 15 at every add. */
  function Total(ops: seq<Op>): nat {
    |TouchedLow(ops)| + AddsOnLast(ops)
  }

  lemma TotalStep(ops: seq<Op>)
    requires ops != []
    ensures var op, before := ops[|ops| - 1], ops[..|ops| - 1];
            Total(ops) == if op.Clear? then 0
                          else Total(before) + if Adds(op) && !Marked(After(before), op.channel) then 1 else 0
  {
    var op, before := ops[|ops| - 1], ops[..|ops| - 1];
    if Adds(op) {
      MarksInvariant(before, op.channel);
      if op.channel in TouchedLow(before) {
        assert TouchedLow(before) + {op.channel as nat} == TouchedLow(before);
      }
    }
  }

  lemma CountStep(was: byte, now: byte, before: nat, after: nat, clears: bool, more: bool)
    requires was == before % 256
    requires now == if clears then 0 else Count(was, more)
    requires after == if clears then 0 else before + if more then 1 else 0
    ensures now == after % 256
  {
    CountsUp(was, before);
  }

  lemma {:induction false} CountInvariant(ops: seq<Op>)
    ensures After(ops).header.totchan == Total(ops) % 256
    decreases |ops|
  {
    if ops != [] {
      var before, op := ops[..|ops| - 1], ops[|ops| - 1];
      var j := After(before);
      CountInvariant(before);
      DoCounts(j, op);
      TotalStep(ops);
      CountStep(j.header.totchan, Do(j, op).header.totchan, Total(before), Total(ops), op.Clear?,
                Adds(op) && !Marked(j, op.channel));
    }
  }

  const LOW_CHANNELS: set<nat> := {0, 1, 2, 3, 4, 5, 6, 7, 8, 9, 10, 11, 12, 13, 14}

  lemma {:induction false} TouchedBound(ops: seq<Op>)
    ensures TouchedLow(ops) <= LOW_CHANNELS
    decreases |ops|
  {
    if ops != [] {
      TouchedBound(ops[..|ops| - 1]);
    }
  }

  lemma {:induction false} SubsetSize(a: set<nat>, b: set<nat>)
    requires a <= b
    ensures |a| <= |b|
    decreases a
  {
    if a != {} {
      var x :| x in a;
      SubsetSize(a - {x}, b - {x});
    }
  }

  lemma LowChannelCount()
    ensures |LOW_CHANNELS| == 15
  {
  }

  lemma TouchedAtMost(ops: seq<Op>)
    ensures |TouchedLow(ops)| <= 15
  {
    TouchedBound(ops);
    SubsetSize(TouchedLow(ops), LOW_CHANNELS);
    LowChannelCount();
  }

  /** The channel count in the journal header is the number of channels touched since the last
      reset exactly when channel 15, whose number does not fit its field, was touched at most
      once, or a multiple of 256 times more. */
  lemma ChannelCountExact(ops: seq<Op>)
    ensures var touched := |TouchedLow(ops)| + if AddsOnLast(ops) > 0 then 1 else 0;
            After(ops).header.totchan == touched <==> AddsOnLast(ops) == 0 || AddsOnLast(ops) % 256 == 1
  {
    CountInvariant(ops);
    TouchedAtMost(ops);
    LastAddsResidue(After(ops).header.totchan, |TouchedLow(ops)|, AddsOnLast(ops));
  }

  lemma LastAddsResidue(totchan: byte, low: nat, adds: nat)
    requires low <= 15 && totchan == (low + adds) % 256
    ensures totchan == low + (if adds > 0 then 1 else 0) <==> adds == 0 || adds % 256 == 1
  {
    var q, r := adds / 256, adds % 256;
    assert adds == q * 256 + r;
    assert totchan == (low + r) % 256;
  }

  /** Controllers are numbered 0 to 127; an add of another changes nothing. */
  lemma OtherControlIgnored(j: State, channel: nibble, number: byte, value: seven, seqNo: u32)
    requires Valid(j)
    ensures Do(j, Control(channel, number, value, seqNo)) == j <== number >= 0x80
    ensures number < 0x80 ==> ControlsOf(Do(j, Control(channel, number, value, seqNo)), channel) == ControlsOf(j, channel)[number := value]
  {
    DoControls(j, Control(channel, number, value, seqNo), channel);
  }

  // The journal header.

  lemma DoHeader(j: State, op: Op)
    requires Valid(j)
    ensures op.Clear? ==> Do(j, op).header == JournalHeader(false, 0, 0)
    ensures Adds(op) ==> Do(j, op).header.active && Do(j, op).header.seqNo == op.seqNo % 0x1_0000
    ensures !op.Clear? && !Adds(op) ==> Do(j, op) == j
  {
  }

  /** The number of the latest add since the last reset. */
  function LatestAdd(ops: seq<Op>): Option<u32> {
    if ops == [] || ops[|ops| - 1].Clear? then None
    else if Adds(ops[|ops| - 1]) then Some(ops[|ops| - 1].seqNo)
    else LatestAdd(ops[..|ops| - 1])
  }

  /** After any history the A flag says whether there was an add since the last reset, and the
      checkpoint is the low half of the number of the latest. */
  lemma {:induction false} HeaderInvariant(ops: seq<Op>)
    ensures After(ops).header.active <==> LatestAdd(ops).Some?
    ensures LatestAdd(ops).Some? ==> After(ops).header.seqNo == LatestAdd(ops).value % 0x1_0000
    ensures LatestAdd(ops).None? ==> After(ops).header.seqNo == 0
    decreases |ops|
  {
    if ops != [] {
      HeaderInvariant(ops[..|ops| - 1]);
      DoHeader(After(ops[..|ops| - 1]), ops[|ops| - 1]);
    }
  }

  /** What is counted was added. */
  lemma {:induction false} CountedWasAdded(ops: seq<Op>)
    requires After(ops).header.totchan > 0
    ensures LatestAdd(ops).Some?
    decreases |ops|
  {
    if ops != [] {
      var before, op := ops[..|ops| - 1], ops[|ops| - 1];
      DoCounts(After(before), op);
      if !op.Clear? && !Adds(op) {
        CountedWasAdded(before);
      }
    }
  }

  // Controllers.

  function ControlsOf(j: State, i: nibble): map<byte, byte>
    requires Valid(j)
  {
    var ch := ChannelOf(j, i);
    if ch.c.Some? then ChapterC.Values(ch.c.value) else map[]
  }

  function LatestControls(ops: seq<Op>, i: nibble): map<byte, byte> {
    if ops == [] || ops[|ops| - 1].Clear? then map[]
    else
      var op, before := ops[|ops| - 1], LatestControls(ops[..|ops| - 1], i);
      if op.Control? && op.channel == i && op.number < ChapterC.CONTROLLERS then before[op.number := op.value] else before
  }

  lemma DoControls(j: State, op: Op, i: nibble)
    requires Valid(j)
    ensures ControlsOf(Do(j, op), i) ==
            if op.Clear? then map[]
            else if op.Control? && op.channel == i && op.number < ChapterC.CONTROLLERS
            then ControlsOf(j, i)[op.number := op.value]
            else ControlsOf(j, i)
  {
    if op.Clear? {
      assert Do(j, op).channels[i] == ResetSlot(j.channels[i]);
    }
  }

  lemma {:induction false} ControlsInvariant(ops: seq<Op>, i: nibble)
    ensures ControlsOf(After(ops), i) == LatestControls(ops, i)
    decreases |ops|
  {
    if ops != [] {
      ControlsInvariant(ops[..|ops| - 1], i);
      DoControls(After(ops[..|ops| - 1]), ops[|ops| - 1], i);
    }
  }

  /** The packed Chapter C of a channel. */
  function PackedControls(j: State, i: nibble): seq<byte>
    requires Valid(j)
  {
    var ch := ChannelOf(j, i);
    if ch.c.Some? then ChapterC.Packed(ch.c.value) else []
  }

  /** The octets decode to these controllers, each once, in ascending order. */
  ghost predicate DecodesTo(s: seq<byte>, controls: map<byte, byte>) {
    var d := ChapterC.Decode(s);
    && d.Some?
    && (forall a, b :: 0 <= a < b < |d.value| ==> d.value[a].number < d.value[b].number)
    && forall m: map<byte, byte> :: ChapterC.Apply(m, d.value) == m + controls
  }

  lemma ChapterDecodes(c: ChapterC.Chapter)
    requires ChapterC.Valid(c)
    ensures DecodesTo(ChapterC.Packed(c), ChapterC.Values(c)) <==> ChapterC.ActiveFrom(c.logs, 0) < ChapterC.CONTROLLERS
  {
    ChapterC.DecodePackedExact(c);
    if ChapterC.ActiveFrom(c.logs, 0) < ChapterC.CONTROLLERS {
      ChapterC.EntriesAscend(c.logs, 0);
      forall m: map<byte, byte>
        ensures ChapterC.Apply(m, ChapterC.Entries(c.logs, 0)) == m + ChapterC.Values(c)
      {
        ChapterC.ApplySetsValues(m, c);
      }
    } else {
      var s := ChapterC.Packed(c);
      assert s[ChapterC.HEADER_SIZE..] == seq(ChapterC.LOG_SIZE * ChapterC.CONTROLLERS, i => 0);
      ChapterC.DecodeZeros(ChapterC.CONTROLLERS);
      var d := ChapterC.Decode(s);
      assert d.Some? ==> d.value[0].number >= d.value[1].number;
    }
  }

  lemma NothingDecodes()
    ensures DecodesTo([], map[])
  {
    assert ChapterC.Decode([]) == Some([]);
    forall m: map<byte, byte>
      ensures ChapterC.Apply(m, []) == m + map[]
    {
    }
  }

  /** After any history the packed Chapter C decodes to each controller touched since the last
      reset exactly once, in ascending order, with its latest value, if and only if not all
      128 were touched. */
  lemma ChapterCDecodes(ops: seq<Op>, i: nibble)
    ensures DecodesTo(PackedControls(After(ops), i), LatestControls(ops, i)) <==>
            exists k: byte :: k < ChapterC.CONTROLLERS && k !in LatestControls(ops, i)
  {
    ControlsInvariant(ops, i);
    var ch := ChannelOf(After(ops), i);
    if ch.c.Some? {
      var logs := ch.c.value.logs;
      ChapterDecodes(ch.c.value);
      ChapterC.ActiveCount(logs, 0);
      assert forall k: byte :: k < ChapterC.CONTROLLERS ==> (k in LatestControls(ops, i) <==> ChapterC.IsActive(logs, k));
    } else {
      NothingDecodes();
      assert 0 !in LatestControls(ops, i);
    }
  }

  // Programs.

  function ProgramOf(j: State, i: nibble): Option<byte>
    requires Valid(j)
  {
    var ch := ChannelOf(j, i);
    if ch.header.hasP && ch.p.Some? then Some(ch.p.value.program) else None
  }

  function LatestProgram(ops: seq<Op>, i: nibble): Option<byte> {
    if ops == [] || ops[|ops| - 1].Clear? then None
    else
      var op := ops[|ops| - 1];
      if op.Program? && op.channel == i then Some(op.program) else LatestProgram(ops[..|ops| - 1], i)
  }

  lemma DoProgram(j: State, op: Op, i: nibble)
    requires Valid(j)
    ensures ProgramOf(Do(j, op), i) ==
            if op.Clear? then None else if op.Program? && op.channel == i then Some(op.program) else ProgramOf(j, i)
  {
    if op.Clear? {
      assert Do(j, op).channels[i] == ResetSlot(j.channels[i]);
    }
  }

  /** The flagged Chapter P is the latest program change since the last reset. */
  lemma {:induction false} ProgramInvariant(ops: seq<Op>, i: nibble)
    ensures ProgramOf(After(ops), i) == LatestProgram(ops, i)
    decreases |ops|
  {
    if ops != [] {
      ProgramInvariant(ops[..|ops| - 1], i);
      DoProgram(After(ops[..|ops| - 1]), ops[|ops| - 1], i);
    }
  }

  // Notes.

  /** The notes released since the last reset. */
  function Offs(ops: seq<Op>, i: nibble): set<seven> {
    if ops == [] || ops[|ops| - 1].Clear? then {}
    else
      var op, before := ops[|ops| - 1], Offs(ops[..|ops| - 1], i);
      if op.NoteOff? && op.channel == i then before + {op.note} else before
  }

  /** The notes that a reader takes them for. */
  function ReadOffs(ops: seq<Op>, i: nibble): set<seven> {
    if ops == [] || ops[|ops| - 1].Clear? then {}
    else
      var op, before := ops[|ops| - 1], ReadOffs(ops[..|ops| - 1], i);
      if op.NoteOff? && op.channel == i && ChapterN.ReadAs(op.note, op.stray).Some?
      then before + {ChapterN.ReadAs(op.note, op.stray).value} else before
  }

  /** The first 127 NoteOns since the last reset. */
  function OnNotes(ops: seq<Op>, i: nibble): (ns: seq<ChapterN.Note>)
    ensures |ns| <= ChapterN.MAX_NOTES
  {
    if ops == [] || ops[|ops| - 1].Clear? then []
    else
      var op, before := ops[|ops| - 1], OnNotes(ops[..|ops| - 1], i);
      if op.NoteOn? && op.channel == i && |before| < ChapterN.MAX_NOTES
      then before + [ChapterN.Note(0, op.note, 0, op.velocity)] else before
  }

  function NotesOf(j: State, i: nibble): (n: ChapterN.Chapter)
    requires Valid(j)
    ensures ChapterN.Valid(n)
  {
    NoteChapter(ChannelOf(j, i))
  }

  lemma DoNotes(j: State, op: Op, i: nibble)
    requires Valid(j)
    ensures var was, now := NotesOf(j, i), NotesOf(Do(j, op), i);
            && (op.Clear? ==> ChapterN.NoteList(now) == [] && ChapterN.Released(now.offbits) == {})
            && (op.NoteOff? && op.channel == i ==> now == ChapterN.RecordOff(was, op.note, op.stray))
            && (op.NoteOn? && op.channel == i ==> now == ChapterN.RecordOn(was, op.note, op.velocity))
            && (!op.Clear? && !((op.NoteOff? || op.NoteOn?) && op.channel == i) ==> now == was)
  {
    if op.Clear? {
      assert Do(j, op).channels[i] == ResetSlot(j.channels[i]);
    }
  }

  lemma NoteOnStep(n: ChapterN.Chapter, note: seven, velocity: seven)
    requires ChapterN.Valid(n)
    ensures ChapterN.RecordOn(n, note, velocity).offbits == n.offbits
  {
  }

  lemma NoteOffStep(n: ChapterN.Chapter, note: seven, stray: nibble)
    requires ChapterN.Valid(n)
    ensures ChapterN.NoteList(ChapterN.RecordOff(n, note, stray)) == ChapterN.NoteList(n)
  {
  }

  /** The journal keeps the first notes since the last reset, and its bit field says the notes
      that the NoteOffs since then are read as. */
  lemma {:induction false} NotesInvariant(ops: seq<Op>, i: nibble)
    ensures ChapterN.NoteList(NotesOf(After(ops), i)) == OnNotes(ops, i)
    ensures ChapterN.Released(NotesOf(After(ops), i).offbits) == ReadOffs(ops, i)
    decreases |ops|
  {
    if ops != [] {
      var op, before := ops[|ops| - 1], ops[..|ops| - 1];
      NotesInvariant(before, i);
      DoNotes(After(before), op, i);
      var n := NotesOf(After(before), i);
      if op.NoteOff? && op.channel == i {
        NoteOffStep(n, op.note, op.stray);
        ChapterN.RecordOffReleases(n, op.note, op.stray);
      } else if op.NoteOn? && op.channel == i {
        NoteOnStep(n, op.note, op.velocity);
      }
    }
  }

  // The range of the NoteOff bit field.

  /** Was the chapter made before the last reset? */
  function Kept(ops: seq<Op>, i: nibble): bool {
    ops != [] && (Kept(ops[..|ops| - 1], i) || (ops[|ops| - 1].Clear? && Noted(ops[..|ops| - 1], i)))
  }

  /** Was the chapter made? */
  function Noted(ops: seq<Op>, i: nibble): bool {
    ops != [] && (Noted(ops[..|ops| - 1], i) || ((ops[|ops| - 1].NoteOff? || ops[|ops| - 1].NoteOn?) && ops[|ops| - 1].channel == i))
  }

  lemma DoNoted(j: State, op: Op, i: nibble)
    requires Valid(j)
    ensures ChannelOf(Do(j, op), i).n.Some? <==>
            ChannelOf(j, i).n.Some? || ((op.NoteOff? || op.NoteOn?) && op.channel == i)
    ensures op.Clear? ==> NotesOf(Do(j, op), i).low == (if ChannelOf(j, i).n.Some? then 0 else 15) && NotesOf(Do(j, op), i).high == 0
    ensures op.Clear? ==> NotesOf(Do(j, op), i).b == 0
  {
    if op.Clear? {
      assert Do(j, op).channels[i] == ResetSlot(j.channels[i]);
    }
  }

  lemma {:induction false} NotedInvariant(ops: seq<Op>, i: nibble)
    ensures ChannelOf(After(ops), i).n.Some? <==> Noted(ops, i)
    decreases |ops|
  {
    if ops != [] {
      NotedInvariant(ops[..|ops| - 1], i);
      DoNoted(After(ops[..|ops| - 1]), ops[|ops| - 1], i);
    }
  }

  /** Low and high are the least and greatest octet of the NoteOffs since the last reset, and
      start from 15 and 0 in a new chapter and from 0 and 0 in one that was reset. */
  predicate RangeIs(n: ChapterN.Chapter, offs: set<seven>, kept: bool) {
    && (forall note :: note in offs ==> n.low <= note / 8 <= n.high)
    && (n.low == (if kept then 0 else 15) || exists note :: note in offs && note / 8 == n.low)
    && (n.high == 0 || exists note :: note in offs && note / 8 == n.high)
    && (kept ==> n.low == 0)
  }

  lemma RangeStep(n: ChapterN.Chapter, r: ChapterN.Chapter, note: seven, offs: set<seven>, kept: bool)
    requires RangeIs(n, offs, kept) && r.low <= note / 8 <= r.high && r.low <= n.low && r.high >= n.high
    requires r.low in {n.low, note / 8} && r.high in {n.high, note / 8}
    ensures RangeIs(r, offs + {note}, kept)
  {
    assert note in offs + {note};
  }

  lemma {:induction false} KeptNoted(ops: seq<Op>, i: nibble)
    requires ops != [] && ops[|ops| - 1].Clear?
    ensures Kept(ops, i) <==> Noted(ops[..|ops| - 1], i)
  {
    if Kept(ops[..|ops| - 1], i) {
      KeptWasNoted(ops[..|ops| - 1], i);
    }
  }

  lemma {:induction false} KeptWasNoted(ops: seq<Op>, i: nibble)
    requires Kept(ops, i)
    ensures Noted(ops, i)
    decreases |ops|
  {
    if Kept(ops[..|ops| - 1], i) {
      KeptWasNoted(ops[..|ops| - 1], i);
    }
  }

  lemma {:induction false} RangeInvariant(ops: seq<Op>, i: nibble)
    ensures RangeIs(NotesOf(After(ops), i), Offs(ops, i), Kept(ops, i))
    decreases |ops|
  {
    if ops != [] {
      var before, op := ops[..|ops| - 1], ops[|ops| - 1];
      RangeInvariant(before, i);
      DoNotes(After(before), op, i);
      if op.Clear? {
        KeptNoted(ops, i);
        NotedInvariant(before, i);
        DoNoted(After(before), op, i);
      } else if op.NoteOff? && op.channel == i {
        RangeStep(NotesOf(After(before), i), NotesOf(After(ops), i), op.note, Offs(before, i), Kept(before, i));
      }
    }
  }

  /** Was there a note since the last reset? */
  function NotedSince(ops: seq<Op>, i: nibble): bool {
    && ops != [] && !ops[|ops| - 1].Clear?
    && (NotedSince(ops[..|ops| - 1], i) || ((ops[|ops| - 1].NoteOff? || ops[|ops| - 1].NoteOn?) && ops[|ops| - 1].channel == i))
  }

  /** The B bit says so. */
  lemma {:induction false} NoteFlagInvariant(ops: seq<Op>, i: nibble)
    ensures NotesOf(After(ops), i).b == if NotedSince(ops, i) then 1 else 0
    decreases |ops|
  {
    if ops != [] {
      var before, op := ops[..|ops| - 1], ops[|ops| - 1];
      NoteFlagInvariant(before, i);
      DoNotes(After(before), op, i);
      if op.Clear? {
        DoNoted(After(before), op, i);
      }
    }
  }

  /** The range stays that of a new chapter until the first NoteOff or the first reset. */
  lemma RangeUntouched(ops: seq<Op>, i: nibble)
    ensures var n := NotesOf(After(ops), i); n.low == 15 && n.high == 0 <==> Offs(ops, i) == {} && !Kept(ops, i)
  {
    RangeInvariant(ops, i);
    var n := NotesOf(After(ops), i);
    if Offs(ops, i) != {} {
      var note :| note in Offs(ops, i);
    }
  }

  /** After any history the packed Chapter N of a channel decodes to the first 127 NoteOns and to
      the notes that the NoteOffs are read as, if and only if there were not 127 NoteOns and no
      NoteOff since the last reset in a chapter made since then, which is how the standard
      writes 128 notes. */
  lemma ChapterNDecodes(ops: seq<Op>, i: nibble)
    ensures ChapterN.Decode(ChapterN.Packed(NotesOf(After(ops), i))) == Some(ChapterN.Decoded(OnNotes(ops, i), ReadOffs(ops, i))) <==>
            !(|OnNotes(ops, i)| == 127 && Offs(ops, i) == {} && !Kept(ops, i))
  {
    NotesInvariant(ops, i);
    RangeUntouched(ops, i);
    ChapterN.DecodePackedExact(NotesOf(After(ops), i));
  }

  // Which NoteOffs are read back.

  /** The note that one which is not the first of its octet is read as. */
  function Mirror(n: seven): (r: seven)
    requires n % 8 != 0
    ensures r % 8 != 0 && r / 8 == n / 8 && Mirrored(r) == n
  {
    Mirrored(n)
  }

  function Mirrored(n: int): int {
    n / 8 * 16 + 8 - n
  }

  lemma ReadAsMirror(note: seven, stray: nibble, n: seven)
    requires stray >= 8
    ensures ChapterN.ReadAs(note, stray) == Some(n) <==> n % 8 != 0 && Mirror(n) == note
  {
    assert note == note / 8 * 8 + note % 8 && n == n / 8 * 8 + n % 8;
  }

  /** The shift out of range sets no bit of the octet. */
  predicate NoStray(ops: seq<Op>) {
    forall k :: 0 <= k < |ops| && ops[k].NoteOff? ==> ops[k].stray >= 8
  }

  lemma {:induction false} ReadOffsAreMirrors(ops: seq<Op>, i: nibble)
    requires NoStray(ops)
    ensures forall n: seven :: n in ReadOffs(ops, i) <==> n % 8 != 0 && Mirror(n) in Offs(ops, i)
    decreases |ops|
  {
    if ops != [] {
      var op := ops[|ops| - 1];
      ReadOffsAreMirrors(ops[..|ops| - 1], i);
      if op.NoteOff? && op.channel == i {
        forall n: seven
          ensures ChapterN.ReadAs(op.note, op.stray) == Some(n) <==> n % 8 != 0 && Mirror(n) == op.note
        {
          ReadAsMirror(op.note, op.stray, n);
        }
      }
    }
  }

  /** A reader gets exactly the notes released if and only if none was the first of its octet
      and each was released together with the one it is read as, which for the fifth of an octet
      is itself. */
  lemma NoteOffsReadBackExact(ops: seq<Op>, i: nibble)
    requires NoStray(ops)
    ensures ReadOffs(ops, i) == Offs(ops, i) <==> forall n: seven :: n in Offs(ops, i) ==> n % 8 != 0 && Mirror(n) in Offs(ops, i)
  {
    ReadOffsAreMirrors(ops, i);
    var read, offs := ReadOffs(ops, i), Offs(ops, i);
    if forall n: seven :: n in offs ==> n % 8 != 0 && Mirror(n) in offs {
      forall n: seven
        ensures n in read <==> n in offs
      {
        if n % 8 != 0 && Mirror(n) in offs {
          assert Mirror(Mirror(n)) in offs;
        }
      }
    }
  }

  /** The smallest failure: a NoteOff of middle C, which is the fifth of its octet, is read as
      itself; one of the note above it is read as the note below. */
  lemma NoteOffExample()
    ensures ChapterN.ReadAs(60, 15) == Some(60) && ChapterN.ReadAs(61, 15) == Some(59) && ChapterN.ReadAs(56, 15) == None
  {
  }
}
