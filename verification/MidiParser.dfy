/** The MIDI stream parser of midi_state.c as a pure fold over octets. */
module MidiParser {
  import opened Bytes
  import opened MidiCommand
  import opened Folds

  datatype Mode = Simple | Rtp

  datatype Status = Init | WaitDelta | WaitCommand | WaitByte1 | WaitByte2 | WaitEndSysex | CommandReceived

  /** A status the parser can rest in between octets. */
  type Resting = s: Status | s != CommandReceived witness Init

  datatype Parser = Parser(status: Resting, running: byte, partial: bool, delta: u64, hold: seq<byte>)

  /** The parser together with the local `get_delta` flag of one `midi_state_send` call. */
  datatype Config = Config(p: Parser, getDelta: bool)

  /** What octets do: the next configuration and the commands queued. */
  type Result = Outcome<Config, Command>

  /** `delta <<= 8; delta += octet & 0x7f` on 64 bits. */
  function PushDelta(delta: u64, octet: byte): u64 {
    (delta * 256) % 0x1_0000_0000_0000_0000 + octet % 128
  }

  /** The first octet after `Init` chooses between a delta time and a command. */
  function Begin(c: Config): Parser {
    if c.p.status == Init
    then c.p.(status := if c.getDelta then WaitDelta else WaitCommand, delta := 0)
    else c.p
  }

  /** Queue the held octets as one command and return to `Init`. */
  function Emit(mode: Mode, p: Parser, getDelta: bool): Result
    requires p.hold != []
  {
    Outcome(Config(p.(status := Init, hold := []), getDelta || mode == Rtp),
            [Command(p.delta, p.hold[0], p.hold[1..])])
  }

  function Silent(p: Parser, getDelta: bool): Result {
    Outcome(Config(p, getDelta), [])
  }

  function StepDataAtCommand(mode: Mode, p: Parser, getDelta: bool, b: byte): Result {
    if p.running == 0 then Silent(p, getDelta)
    else
      var held := p.(hold := p.hold + [p.running, b]);
      var needed := BytesNeeded(p.running);
      if needed == 1 then Emit(mode, held, getDelta)
      else if needed == 2 then Silent(held.(status := WaitByte1), getDelta)
      else Silent(held, getDelta)
  }

  function StepStatus(mode: Mode, p: Parser, getDelta: bool, b: byte): Result {
    var held := p.(hold := p.hold + [b]);
    if b == 0xF0 || (p.partial && b == 0xF7) then
      Silent(held.(status := WaitEndSysex, running := 0), getDelta)
    else
      var ran := held.(running := b);
      var needed := BytesNeeded(MaskStatus(b));
      if needed == 1 then Silent(ran.(status := WaitByte1), getDelta)
      else if needed == 2 then Silent(ran.(status := WaitByte2), getDelta)
      else Emit(mode, ran, getDelta)
  }

  function StepSysex(mode: Mode, p: Parser, getDelta: bool, b: byte): Result {
    var held := p.(hold := p.hold + [b], running := 0);
    if b == 0xF7 || (p.partial && b == 0xF4) then Emit(mode, held.(partial := false), getDelta)
    else if b == 0xF0 then Emit(mode, held.(partial := true), getDelta)
    else Silent(held, getDelta)
  }

  /** The rest of the loop body once `Init` has been left. */
  function Dispatch(mode: Mode, p: Parser, g: bool, b: byte): Result {
    if p.status == WaitDelta then
      Silent(p.(delta := PushDelta(p.delta, b), status := if b < 0x80 then WaitCommand else WaitDelta), g)
    else if b >= TIMING_CLOCK then Outcome(Config(p, g), [Command(p.delta, b, [])])
    else match p.status
      case WaitByte2 => Silent(p.(hold := p.hold + [b], status := WaitByte1), g)
      case WaitByte1 => Emit(mode, p.(hold := p.hold + [b]), g)
      case WaitEndSysex => StepSysex(mode, p, g, b)
      case _ => if b < 0x80 then StepDataAtCommand(mode, p, g, b) else StepStatus(mode, p, g, b)
  }

  /** One iteration of the `midi_state_send` loop. */
  function Step(mode: Mode, c: Config, b: byte): Result {
    Dispatch(mode, Begin(c), c.getDelta, b)
  }

  function Stepper(mode: Mode): (Config, byte) -> Result {
    (c: Config, b: byte) => Step(mode, c, b)
  }

  function Run(mode: Mode, c: Config, s: seq<byte>): Result {
    Fold(Stepper(mode), c, s)
  }

  /** A whole `midi_state_send` call on the octets waiting in the ring. An RTP call puts the
      parser back to `Init` when the octets run out. */
  function Send(mode: Mode, p: Parser, z: bool, s: seq<byte>): (r: (Parser, seq<Command>)) {
    var o := Run(mode, Config(p, z), s);
    (if mode == Rtp then o.c.p.(status := Init) else o.c.p, o.out)
  }

  lemma RunConcat(mode: Mode, c: Config, a: seq<byte>, b: seq<byte>)
    ensures Run(mode, c, a + b) ==
            Outcome(Run(mode, Run(mode, c, a).c, b).c, Run(mode, c, a).out + Run(mode, Run(mode, c, a).c, b).out)
  {
    FoldConcat(Stepper(mode), c, a, b);
  }

  lemma RunOne(mode: Mode, c: Config, b: byte)
    ensures Run(mode, c, [b]) == Step(mode, c, b)
  {
    FoldOne(Stepper(mode), c, b);
  }

  lemma RunSnoc(mode: Mode, c: Config, a: seq<byte>, b: byte)
    ensures Run(mode, c, a + [b]) ==
            Outcome(Step(mode, Run(mode, c, a).c, b).c, Run(mode, c, a).out + Step(mode, Run(mode, c, a).c, b).out)
  {
    RunConcat(mode, c, a, [b]);
    RunOne(mode, Run(mode, c, a).c, b);
  }

  /** SIMPLE mode never asks for a delta time. */
  lemma {:induction false} SimpleKeepsNoDelta(c: Config, s: seq<byte>)
    requires !c.getDelta
    ensures !Run(Simple, c, s).c.getDelta
    decreases |s|
  {
    if s != [] {
      SimpleKeepsNoDelta(Step(Simple, c, s[0]).c, s[1..]);
    }
  }

  /** Two SIMPLE calls are one on the octets of both. */
  lemma SendConcat(p: Parser, a: seq<byte>, b: seq<byte>)
    ensures var first := Send(Simple, p, false, a);
            var second := Send(Simple, first.0, false, b);
            Send(Simple, p, false, a + b) == (second.0, first.1 + second.1)
  {
    RunConcat(Simple, Config(p, false), a, b);
    SimpleKeepsNoDelta(Config(p, false), a);
  }

  function Flatten(chunks: seq<seq<byte>>): seq<byte> {
    if chunks == [] then [] else chunks[0] + Flatten(chunks[1..])
  }

  /** Feed the chunks one `midi_state_send` call at a time. */
  function SendEach(p: Parser, chunks: seq<seq<byte>>): (Parser, seq<Command>)
    decreases |chunks|
  {
    if chunks == [] then (p, [])
    else
      var first := Send(Simple, p, false, chunks[0]);
      var rest := SendEach(first.0, chunks[1..]);
      (rest.0, first.1 + rest.1)
  }

  /** SIMPLE mode does not see where a stream is cut into reads. */
  lemma {:induction false} CutInvariance(p: Parser, chunks: seq<seq<byte>>)
    ensures SendEach(p, chunks) == Send(Simple, p, false, Flatten(chunks))
    decreases |chunks|
  {
    if chunks != [] {
      SendConcat(p, chunks[0], Flatten(chunks[1..]));
      CutInvariance(Send(Simple, p, false, chunks[0]).0, chunks[1..]);
    }
  }
}
