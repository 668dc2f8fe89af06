/** The journal as a recovery protocol between the sender of midi_sender.c, a receiver that
    reads the journal as RFC 6295 intends, and the feedback responder of
    applemidi_feedback.c, over a network that loses packets and loses, repeats and delays
    acknowledgements.

    Sending is three steps (pack, transmit, record) and a responder call is two (judge, clear),
    as the connection lock is dropped between them; any interleaving of the steps is a run. */
module Recovery {
  import opened Bytes
  import opened Journal
  import opened JournalHistory
  import ChapterC
  import ChapterP
  import JournalWire

  datatype Event =
    | SendNoteOff(channel: nibble, note: seven, stray: nibble)
    | SendNoteOn(channel: nibble, note: seven, velocity: seven)
    | SendControl(channel: nibble, number: seven, value: seven)
    | SendProgram(channel: nibble, program: seven)
    | SendOther

  /** The controllers and the program of every channel. */
  datatype Memory = Memory(controls: seq<map<byte, byte>>, programs: seq<Option<byte>>)

  predicate ValidMemory(m: Memory) {
    |m.controls| == MAX_CHANNELS && |m.programs| == MAX_CHANNELS
  }

  function Blank(): (m: Memory)
    ensures ValidMemory(m)
    ensures forall i :: 0 <= i < MAX_CHANNELS ==> m.controls[i] == map[] && m.programs[i] == None
  {
    Memory(seq(MAX_CHANNELS, i => map[]), seq(MAX_CHANNELS, i => None))
  }

  function Assign(m: map<byte, byte>, number: byte, value: byte): map<byte, byte> {
    m[number := value]
  }

  function Effect(m: Memory, e: Event): (r: Memory)
    requires ValidMemory(m)
    ensures ValidMemory(r)
  {
    match e
    case SendControl(i, number, value) => m.(controls := m.controls[i := Assign(m.controls[i], number, value)])
    case SendProgram(i, program) => m.(programs := m.programs[i := Some(program)])
    case _ => m
  }

  function OverlayProgram(a: Option<byte>, b: Option<byte>): Option<byte> {
    if b.Some? then b else a
  }

  /** What is known after learning `j` on top of `m`. */
  function Overlay(m: Memory, j: Memory): (r: Memory)
    requires ValidMemory(m) && ValidMemory(j)
    ensures ValidMemory(r)
    ensures forall i :: 0 <= i < MAX_CHANNELS ==> r.controls[i] == m.controls[i] + j.controls[i]
    ensures forall i :: 0 <= i < MAX_CHANNELS ==> r.programs[i] == OverlayProgram(m.programs[i], j.programs[i])
  {
    Memory(seq(MAX_CHANNELS, i requires 0 <= i < MAX_CHANNELS => m.controls[i] + j.controls[i]),
           seq(MAX_CHANNELS, i requires 0 <= i < MAX_CHANNELS => OverlayProgram(m.programs[i], j.programs[i])))
  }

  /** The Chapter C and flagged Chapter P octets of each channel in a packet. */
  datatype Carried = Carried(controls: seq<seq<byte>>, programs: seq<seq<byte>>)

  /** `wire` is the whole journal, of which `journal` holds the chapters named. */
  datatype Packet = Packet(wireSeq: u16, wire: seq<byte>, journal: Carried, event: Event)

  function PackedProgram(j: Journal.State, i: nibble): seq<byte>
    requires Valid(j)
  {
    var ch := ChannelOf(j, i);
    if ch.header.hasP && ch.p.Some? then ChapterP.Packed(ch.p.value) else []
  }

  /** The journal of the next packet; none when the journal counts no channel. */
  function Carry(j: Journal.State): (c: Carried)
    requires Valid(j)
    ensures |c.controls| == MAX_CHANNELS && |c.programs| == MAX_CHANNELS
  {
    if HasData(j)
    then Carried(seq(MAX_CHANNELS, i requires 0 <= i < MAX_CHANNELS => PackedControls(j, i)),
                 seq(MAX_CHANNELS, i requires 0 <= i < MAX_CHANNELS => PackedProgram(j, i)))
    else Carried(seq(MAX_CHANNELS, i => []), seq(MAX_CHANNELS, i => []))
  }

  function ReadControls(s: seq<byte>): map<byte, byte> {
    var d := ChapterC.Decode(s);
    if d.Some? then ChapterC.Apply(map[], d.value) else map[]
  }

  function ReadProgram(s: seq<byte>): Option<byte> {
    var d := ChapterP.Unpacked(s);
    if d.Some? then Some(d.value.program) else None
  }

  /** What the journal of a packet tells. */
  function Told(c: Carried): (m: Memory)
    requires |c.controls| == MAX_CHANNELS && |c.programs| == MAX_CHANNELS
    ensures ValidMemory(m)
  {
    Memory(seq(MAX_CHANNELS, i requires 0 <= i < MAX_CHANNELS => ReadControls(c.controls[i])),
           seq(MAX_CHANNELS, i requires 0 <= i < MAX_CHANNELS => ReadProgram(c.programs[i])))
  }

  predicate ValidPacket(p: Packet) {
    |p.journal.controls| == MAX_CHANNELS && |p.journal.programs| == MAX_CHANNELS
  }

  predicate ValidPackets(sent: seq<Packet>) {
    forall k :: 0 <= k < |sent| ==> ValidPacket(sent[k])
  }

  /** A receiver applies the journal of a packet, then its command. */
  function Receive(m: Memory, p: Packet): (r: Memory)
    requires ValidMemory(m) && ValidPacket(p)
    ensures ValidMemory(r)
  {
    Effect(Overlay(m, Told(p.journal)), p.event)
  }

  // The protocol.

  datatype Phase = Idle | Packed(wire: seq<byte>, journal: Carried, event: Event) | Transmitted(event: Event)

  /** `sent` is every packet ever transmitted, `delivered` the number of the last one delivered
      plus one, `acks` the acknowledgements in the network. `decided` is set between the two
      halves of a responder call that will clear the journal. `log` is a history of the
      journal's operations that no step reads. */
  datatype System = System(seqNo: u32, journal: Journal.State, phase: Phase, sent: seq<Packet>,
                         delivered: nat, receiver: Memory, acks: set<u16>, decided: bool, log: seq<Op>)

  datatype Step = Begin(event: Event) | Transmit | Record | Deliver(k: nat) | Judge(ack: u16) | ClearJournal

  predicate ValidState(s: System) {
    && Valid(s.journal) && ValidMemory(s.receiver)
    && ValidPackets(s.sent)
    && (s.phase.Packed? ==> |s.phase.journal.controls| == MAX_CHANNELS && |s.phase.journal.programs| == MAX_CHANNELS)
  }

  /** A journal as a session finds it: new, or just cleared by the reset that ended the session
      before. What is sent while the slot has no session is sent to nobody, and is part of the
      run as packets that are lost. */
  predicate AtOpening(log: seq<Op>) {
    log == [] || log[|log| - 1].Clear?
  }

  /** No acknowledgement of the session before can still pass the comparison once a packet was
      sent: the first is numbered 2. */
  predicate Harmless(stale: set<u16>) {
    forall a :: a in stale ==> a < 2
  }

  /** The start of a session in a slot with this history, with acknowledgements of the session
      before that may still arrive. */
  function Opened(log: seq<Op>, stale: set<u16>): (s: System)
    ensures ValidState(s)
  {
    System(1, After(log), Idle, [], 0, Blank(), stale, false, log)
  }

  predicate Enabled(s: System, t: Step) {
    match t
    case Begin(_) => s.phase.Idle?
    case Transmit => s.phase.Packed?
    case Record => s.phase.Transmitted?
    case Deliver(k) => s.delivered <= k < |s.sent|
    case Judge(ack) => ack in s.acks && !s.decided
    case ClearJournal => s.decided
  }

  function AsOp(e: Event, seqNo: u32): Op
    requires !e.SendOther?
  {
    match e
    case SendNoteOff(i, note, stray) => NoteOff(i, note, stray, seqNo)
    case SendNoteOn(i, note, velocity) => NoteOn(i, note, velocity, seqNo)
    case SendControl(i, number, value) => Control(i, number, value, seqNo)
    case SendProgram(i, program) => Program(i, program, seqNo)
  }

  function Next(s: System, t: Step): (r: System)
    requires ValidState(s) && Enabled(s, t)
    ensures ValidState(r)
  {
    match t
    case Begin(e) => s.(phase := Packed(JournalWire.Packed(s.journal), Carry(s.journal), e))
    case Transmit =>
      var n := (s.seqNo + 1) % 0x1_0000_0000;
      s.(seqNo := n, sent := s.sent + [Packet(n % 0x1_0000, s.phase.wire, s.phase.journal, s.phase.event)],
         phase := Transmitted(s.phase.event))
    case Record =>
      if s.phase.event.SendOther? then s.(phase := Idle)
      else
        var op := AsOp(s.phase.event, s.seqNo);
        s.(journal := Do(s.journal, op), log := s.log + [op], phase := Idle)
    case Deliver(k) =>
      s.(receiver := Receive(s.receiver, s.sent[k]), delivered := k + 1, acks := s.acks + {s.sent[k].wireSeq})
    case Judge(ack) => s.(decided := ack >= s.seqNo)
    case ClearJournal => s.(journal := Cleared(s.journal), log := s.log + [Clear], decided := false)
  }

  predicate Runs(s: System, ts: seq<Step>)
    requires ValidState(s)
    decreases |ts|
  {
    ts == [] || (Enabled(s, ts[0]) && Runs(Next(s, ts[0]), ts[1..]))
  }

  function Reach(s: System, ts: seq<Step>): (r: System)
    requires ValidState(s) && Runs(s, ts)
    ensures ValidState(r)
    decreases |ts|
  {
    if ts == [] then s else Reach(Next(s, ts[0]), ts[1..])
  }

  /** What the sender has told the receiver to be, with its first `k` packets. */
  function Knowledge(sent: seq<Packet>, k: nat): (m: Memory)
    requires k <= |sent|
    ensures ValidMemory(m)
  {
    if k == 0 then Blank() else Effect(Knowledge(sent, k - 1), sent[k - 1].event)
  }

  predicate HasRoom(m: map<byte, byte>) {
    exists n: byte :: n < ChapterC.CONTROLLERS && n !in m
  }

  /** Not all 128 controllers of any channel are in the journal. */
  predicate Roomy(j: Journal.State)
    requires Valid(j)
  {
    forall i: nibble :: HasRoom(ControlsOf(j, i))
  }

  /** Conditions under which the program's bookkeeping is sound, each met or not at the step
      where it matters: no packet is transmitted between the two halves of a responder call,
      the 32-bit sequence number does not wrap, channel 15 is not used, and a journal is packed
      with an inactive controller on every channel. */
  datatype Care = Care(atomic: bool, unwrapped: bool, lowOnly: bool, roomy: bool)

  const FULL_CARE := Care(true, true, true, true)

  predicate Careful(c: Care, s: System, t: Step)
    requires ValidState(s)
  {
    match t
    case Begin(e) => (c.roomy ==> Roomy(s.journal)) && (c.lowOnly ==> e.SendOther? || e.channel < 15)
    case Transmit => (c.unwrapped ==> s.seqNo < 0xFFFF_FFFF) && (c.atomic ==> !s.decided)
    case _ => true
  }

  predicate CarefulRun(c: Care, s: System, ts: seq<Step>)
    requires ValidState(s) && Runs(s, ts)
    decreases |ts|
  {
    ts == [] || (Careful(c, s, ts[0]) && CarefulRun(c, Next(s, ts[0]), ts[1..]))
  }
}
