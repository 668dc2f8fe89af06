/** System real-time octets may stand anywhere in a MIDI 1.0 stream. In SIMPLE mode they are
    passed on at once and change nothing else, whatever the stream holds. */
module RealTime {
  import opened Bytes
  import opened MidiCommand
  import opened MidiParser
  import opened Folds

  /** What every parser fed in SIMPLE mode satisfies: no real-time status is remembered. */
  predicate WellFormed(p: Parser) {
    && p.status != WaitDelta
    && !IsRealTime(p.running)
    && (p.hold != [] ==> !IsRealTime(p.hold[0]))
  }

  /** `Init` and `WaitCommand` at delta 0 accept an octet alike; a real-time octet is what
      tells them apart. This picks one of the two. */
  function Settle(p: Parser): Parser {
    Begin(Config(p, false))
  }

  function Strip(s: seq<byte>): seq<byte> {
    if s == [] then []
    else (if IsRealTime(s[0]) then [] else [s[0]]) + Strip(s[1..])
  }

  function RealTimeOctets(s: seq<byte>): seq<byte> {
    if s == [] then []
    else (if IsRealTime(s[0]) then [s[0]] else []) + RealTimeOctets(s[1..])
  }

  /** The commands that are not real-time messages. */
  function Others(cs: seq<Command>): seq<Command> {
    if cs == [] then []
    else (if IsRealTime(cs[0].status) then [] else [cs[0]]) + Others(cs[1..])
  }

  /** The statuses of the real-time messages. */
  function RealTimes(cs: seq<Command>): seq<byte> {
    if cs == [] then []
    else (if IsRealTime(cs[0].status) then [cs[0].status] else []) + RealTimes(cs[1..])
  }

  lemma {:induction false} OthersConcat(a: seq<Command>, b: seq<Command>)
    ensures Others(a + b) == Others(a) + Others(b)
    decreases |a|
  {
    if a == [] {
      assert a + b == b;
    } else {
      var rest := a[1..];
      assert a == [a[0]] + rest && a + b == [a[0]] + (rest + b);
      OthersConcat(rest, b);
      OthersCons(a[0], rest);
      OthersCons(a[0], rest + b);
    }
  }

  lemma OthersCons(c: Command, cs: seq<Command>)
    ensures Others([c] + cs) == (if IsRealTime(c.status) then [] else [c]) + Others(cs)
  {
    assert ([c] + cs)[1..] == cs;
  }

  lemma {:induction false} RealTimesConcat(a: seq<Command>, b: seq<Command>)
    ensures RealTimes(a + b) == RealTimes(a) + RealTimes(b)
    decreases |a|
  {
    if a == [] {
      assert a + b == b;
    } else {
      var rest := a[1..];
      assert a == [a[0]] + rest && a + b == [a[0]] + (rest + b);
      RealTimesConcat(rest, b);
      RealTimesCons(a[0], rest);
      RealTimesCons(a[0], rest + b);
    }
  }

  lemma RealTimesCons(c: Command, cs: seq<Command>)
    ensures RealTimes([c] + cs) == (if IsRealTime(c.status) then [c.status] else []) + RealTimes(cs)
  {
    assert ([c] + cs)[1..] == cs;
  }

  lemma OthersOne(cs: seq<Command>)
    requires |cs| <= 1
    ensures cs != [] && IsRealTime(cs[0].status) ==> Others(cs) == [] && RealTimes(cs) == [cs[0].status]
    ensures (cs != [] ==> !IsRealTime(cs[0].status)) ==> Others(cs) == cs && RealTimes(cs) == []
  {
    if cs != [] {
      assert cs == [cs[0]] && cs[1..] == [];
    }
  }

  lemma StepShape(p: Parser, b: byte)
    requires WellFormed(p)
    ensures var o := Step(Simple, Config(p, false), b);
            && WellFormed(o.c.p) && !o.c.getDelta && |o.out| <= 1
            && (!IsRealTime(b) && o.out != [] ==> !IsRealTime(o.out[0].status))
            && (IsRealTime(b) ==> o.c.p == Settle(p) && o.out == [Command(Settle(p).delta, b, [])])
  {
  }

  lemma StepSettled(p: Parser, b: byte)
    requires WellFormed(p)
    ensures Step(Simple, Config(p, false), b) == Step(Simple, Config(Settle(p), false), b)
  {
    assert Begin(Config(Settle(p), false)) == Begin(Config(p, false));
  }

  lemma RunCons(mode: Mode, c: Config, b: byte, s: seq<byte>)
    ensures Run(mode, c, [b] + s) ==
            Outcome(Run(mode, Step(mode, c, b).c, s).c, Step(mode, c, b).out + Run(mode, Step(mode, c, b).c, s).out)
  {
    RunConcat(mode, c, [b], s);
    RunOne(mode, c, b);
  }

  lemma {:induction false} Bisimulation(p: Parser, q: Parser, s: seq<byte>)
    requires WellFormed(p) && WellFormed(q) && Settle(p) == Settle(q)
    ensures var full := Run(Simple, Config(p, false), s);
            var bare := Run(Simple, Config(q, false), Strip(s));
            && Settle(full.c.p) == Settle(bare.c.p)
            && Others(full.out) == bare.out
            && RealTimes(full.out) == RealTimeOctets(s)
    decreases |s|
  {
    if s != [] {
      var first := Step(Simple, Config(p, false), s[0]);
      assert s == [s[0]] + s[1..];
      RunCons(Simple, Config(p, false), s[0], s[1..]);
      StepShape(p, s[0]);
      OthersOne(first.out);
      OthersConcat(first.out, Run(Simple, first.c, s[1..]).out);
      RealTimesConcat(first.out, Run(Simple, first.c, s[1..]).out);
      if IsRealTime(s[0]) {
        assert Strip(s) == Strip(s[1..]);
        Bisimulation(first.c.p, q, s[1..]);
      } else {
        StepSettled(p, s[0]);
        StepSettled(q, s[0]);
        assert Strip(s) == [s[0]] + Strip(s[1..]);
        RunCons(Simple, Config(q, false), s[0], Strip(s[1..]));
        Bisimulation(first.c.p, first.c.p, s[1..]);
      }
    }
  }

  /** For every stream, well formed or not: deleting the octets from 0xF8 up deletes exactly
      the real-time messages, one for each such octet and in their order, and leaves every
      other command as it was. */
  lemma Transparency(p: Parser, s: seq<byte>)
    requires WellFormed(p)
    ensures Others(Send(Simple, p, false, s).1) == Send(Simple, p, false, Strip(s)).1
    ensures RealTimes(Send(Simple, p, false, s).1) == RealTimeOctets(s)
    ensures Settle(Send(Simple, p, false, s).0) == Settle(Send(Simple, p, false, Strip(s)).0)
  {
    Bisimulation(p, p, s);
  }

  /** `WellFormed` is not an assumption about callers: it holds of a new parser and every
      call keeps it. */
  lemma {:induction false} WellFormedInvariant(p: Parser, s: seq<byte>)
    requires WellFormed(p)
    ensures WellFormed(Send(Simple, p, false, s).0)
    decreases |s|
  {
    if s != [] {
      assert s == [s[0]] + s[1..];
      RunCons(Simple, Config(p, false), s[0], s[1..]);
      StepShape(p, s[0]);
      WellFormedInvariant(Step(Simple, Config(p, false), s[0]).c.p, s[1..]);
    }
  }
}
