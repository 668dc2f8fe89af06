/** Which commands the parser queues with data octets missing. The sender reads the second data
    octet of a note or controller as soon as there is a first. */
module CommandData {
  import opened Bytes
  import opened MidiCommand
  import opened MidiParser
  import opened RealTime

  predicate AllComplete(cs: seq<Command>) {
    forall k :: 0 <= k < |cs| ==> Complete(cs[k])
  }

  /** What is held can only leave the parser as a complete command. */
  predicate Sound(p: Parser) {
    && (p.status in {WaitByte1, WaitByte2, WaitEndSysex} ==> p.hold != [])
    && (p.hold != [] && IsVoice(p.hold[0]) && p.status != WaitByte2 ==> |p.hold| >= BytesNeeded(p.hold[0]))
  }

  lemma AtCommandSound(mode: Mode, p: Parser, g: bool, b: byte)
    requires Sound(p) && p.status == WaitCommand
    ensures var o := if b < 0x80 then StepDataAtCommand(mode, p, g, b) else StepStatus(mode, p, g, b);
            Sound(o.c.p) && AllComplete(o.out)
  {
  }

  lemma SysexSound(mode: Mode, p: Parser, g: bool, b: byte)
    requires Sound(p) && p.status == WaitEndSysex
    ensures Sound(StepSysex(mode, p, g, b).c.p) && AllComplete(StepSysex(mode, p, g, b).out)
  {
  }

  lemma StepSound(mode: Mode, c: Config, b: byte)
    requires Sound(c.p)
    ensures Sound(Step(mode, c, b).c.p) && AllComplete(Step(mode, c, b).out)
  {
    var p := Begin(c);
    if p.status == WaitCommand {
      AtCommandSound(mode, p, c.getDelta, b);
    } else if p.status == WaitEndSysex {
      SysexSound(mode, p, c.getDelta, b);
    }
  }

  lemma {:induction false} RunSound(mode: Mode, c: Config, s: seq<byte>)
    requires Sound(c.p)
    ensures Sound(Run(mode, c, s).c.p) && AllComplete(Run(mode, c, s).out)
    decreases |s|
  {
    if s != [] {
      assert s == [s[0]] + s[1..];
      RunCons(mode, c, s[0], s[1..]);
      StepSound(mode, c, s[0]);
      RunSound(mode, Step(mode, c, s[0]).c, s[1..]);
    }
  }

  /** A SIMPLE call queues complete commands only and leaves the parser able to go on so. */
  lemma SimpleComplete(p: Parser, s: seq<byte>)
    requires Sound(p)
    ensures AllComplete(Send(Simple, p, false, s).1) && Sound(Send(Simple, p, false, s).0)
  {
    RunSound(Simple, Config(p, false), s);
  }

  function Fresh(): Parser {
    Parser(Init, 0, false, 0, [])
  }

  /** So every command of a local source is complete, however malformed its stream and however
      it is cut into reads. */
  lemma LocalComplete(chunks: seq<seq<byte>>)
    ensures AllComplete(SendEach(Fresh(), chunks).1)
  {
    CutInvariance(Fresh(), chunks);
    SimpleComplete(Fresh(), Flatten(chunks));
  }

  /** A call in RTP mode that starts with nothing held queues complete commands only. */
  lemma RtpComplete(p: Parser, z: bool, s: seq<byte>)
    requires p.status == Init && p.hold == []
    ensures AllComplete(Send(Rtp, p, z, s).1)
  {
    RunSound(Rtp, Config(p, z), s);
  }

  /** A voice status and fewer octets than it needs, less one. */
  predicate Short(hold: seq<byte>) {
    hold != [] && IsVoice(hold[0]) && |hold| < BytesNeeded(hold[0])
  }

  /** Between RTP calls the octets held decide: every payload that may come is parsed into
      complete commands if and only if they are not one status octet that needs two more. */
  lemma RtpCompleteExact(p: Parser)
    requires p.status == Init
    ensures (forall z: bool, s: seq<byte> :: AllComplete(Send(Rtp, p, z, s).1)) <==> !Short(p.hold)
  {
    if Short(p.hold) {
      var held := p.hold + [0xF6];
      RunOne(Rtp, Config(p, false), 0xF6);
      assert held[1..] == [0xF6] && held[0] == p.hold[0];
      assert Send(Rtp, p, false, [0xF6]).1 == [Command(0, held[0], [0xF6])];
      assert !Complete(Send(Rtp, p, false, [0xF6]).1[0]);
    } else {
      forall z: bool, s: seq<byte>
        ensures AllComplete(Send(Rtp, p, z, s).1)
      {
        RunSound(Rtp, Config(p, z), s);
      }
    }
  }

  /** A payload leaves that held if and only if it is cut off where the parser waits for the
      first of two data octets with nothing but their status held. */
  lemma CutPayloadExact(p: Parser, z: bool, s: seq<byte>)
    requires Sound(p)
    ensures var end := Run(Rtp, Config(p, z), s).c.p;
            Short(Send(Rtp, p, z, s).0.hold) <==>
            end.status == WaitByte2 && |end.hold| == 1 && IsVoice(end.hold[0]) && BytesNeeded(end.hold[0]) == 2
  {
    RunSound(Rtp, Config(p, z), s);
  }

  /** The smallest case: a payload of a NoteOn status, and one of a tune request. */
  lemma CutNoteOn()
    ensures var first := Send(Rtp, Fresh(), false, [0x90]);
            && first.1 == [] && Short(first.0.hold)
            && Send(Rtp, first.0, false, [0xF6]).1 == [Command(0, 0x90, [0xF6])]
            && !Complete(Command(0, 0x90, [0xF6]))
  {
    var p := Fresh();
    RunOne(Rtp, Config(p, false), 0x90);
    assert [] + [0x90] == [0x90];
    var q := Send(Rtp, p, false, [0x90]).0;
    RunOne(Rtp, Config(q, false), 0xF6);
    assert [0x90] + [0xF6] == [0x90, 0xF6] && [0x90, 0xF6][1..] == [0xF6];
  }
}
