/** A printer of MIDI command lists, and the proofs that the parser undoes it: as a plain
    MIDI 1.0 stream in SIMPLE mode, and as the MIDI list of an RTP payload (section 3 of
    RFC 6295) with a delta time before each command in RTP mode. */
module MidiPrinter {
  import opened Bytes
  import opened MidiCommand
  import opened MidiParser
  import opened Folds
  import opened RealTime

  /** One command and the way it is written. `omitted` leaves out a status octet that running
      status supplies. A SysEx segment begins with F0 or F7 and ends with F7, F0 or F4
      (section 3.2 of RFC 6295). */
  datatype Item =
    | Voice(status: byte, data: seq<byte>, omitted: bool)
    | SysEx(first: byte, body: seq<byte>, last: byte)
    | SystemRealTime(status: byte)

  /** What a reader of the stream must remember between commands. */
  datatype Memory = Memory(running: byte, partial: bool)

  predicate Legal(m: Memory, i: Item) {
    match i
    case Voice(status, data, omitted) =>
      && IsVoice(status) && |data| == BytesNeeded(status) && DataOctets(data)
      && (omitted ==> status == m.running)
    case SysEx(first, body, last) =>
      && DataOctets(body)
      && (|| (first == 0xF0 && last in {0xF7, 0xF0})
          || (first == 0xF7 && m.partial && last in {0xF7, 0xF0, 0xF4}))
    case SystemRealTime(status) => IsRealTime(status)
  }

  function Print(i: Item): (s: seq<byte>)
  {
    match i
    case Voice(status, data, omitted) => if omitted then data else [status] + data
    case SysEx(first, body, last) => [first] + body + [last]
    case SystemRealTime(status) => [status]
  }

  function After(m: Memory, i: Item): Memory {
    match i
    case Voice(status, _, _) => Memory(status, m.partial)
    case SysEx(_, _, last) => Memory(0, last == 0xF0)
    case SystemRealTime(_) => m
  }

  function AsCommand(i: Item, delta: u64): Command {
    match i
    case Voice(status, data, _) => Command(delta, status, data)
    case SysEx(first, body, last) => Command(delta, first, body + [last])
    case SystemRealTime(status) => Command(delta, status, [])
  }

  /** A parser about to read a command, with nothing held. */
  predicate AtCommand(p: Parser, m: Memory) {
    p.status == WaitCommand && p.hold == [] && p.running == m.running && p.partial == m.partial
  }

  /** A parser at rest between commands. */
  predicate Idle(p: Parser, m: Memory) {
    p.status == Init && p.hold == [] && p.running == m.running && p.partial == m.partial
  }

  function Resume(m: Memory, delta: u64): Parser {
    Parser(Init, m.running, m.partial, delta, [])
  }

  lemma RunTwo(mode: Mode, c: Config, a: byte, b: byte)
    ensures var c1 := Step(mode, c, a);
            Run(mode, c, [a, b]) == Outcome(Step(mode, c1.c, b).c, c1.out + Step(mode, c1.c, b).out)
  {
    assert [a, b] == [a] + [b];
    RunCons(mode, c, a, [b]);
    RunOne(mode, Step(mode, c, a).c, b);
  }

  /** Octets other than real-time messages. */
  predicate NoRealTime(s: seq<byte>) {
    forall k :: 0 <= k < |s| ==> !IsRealTime(s[k])
  }

  /** The octets behind a held status that wants them; the parser takes status octets for data
      as well. */
  lemma DataParses(mode: Mode, c: Config, status: byte, data: seq<byte>)
    requires c.p.hold == [status] && NoRealTime(data)
    requires (|data| == 1 && c.p.status == WaitByte1) || (|data| == 2 && c.p.status == WaitByte2)
    ensures Run(mode, c, data) ==
            Outcome(Config(c.p.(status := Init, hold := []), c.getDelta || mode == Rtp), [Command(c.p.delta, status, data)])
  {
    if |data| == 1 {
      assert data == [data[0]];
      RunOne(mode, c, data[0]);
      assert [status] + data == [status, data[0]] && [status, data[0]][1..] == data;
    } else {
      assert data == [data[0], data[1]];
      RunTwo(mode, c, data[0], data[1]);
      var c1 := Step(mode, c, data[0]).c;
      assert c1 == Config(c.p.(status := WaitByte1, hold := [status, data[0]]), c.getDelta);
      assert c1.p.hold + [data[1]] == [status] + data && ([status] + data)[1..] == data;
    }
  }

  /** Data octets after a remembered status, whatever kind of status it is. */
  lemma RunningParses(mode: Mode, c: Config, status: byte, data: seq<byte>)
    requires c.p.status == WaitCommand && c.p.hold == [] && c.p.running == status && status > 0
    requires |data| == BytesNeeded(status) > 0 && data[0] < 0x80 && NoRealTime(data)
    ensures Run(mode, c, data) ==
            Outcome(Config(c.p.(status := Init), c.getDelta || mode == Rtp), [Command(c.p.delta, status, data)])
  {
    assert [] + [status, data[0]] == [status, data[0]];
    if |data| == 1 {
      assert data == [data[0]] && [status, data[0]][1..] == data;
      RunOne(mode, c, data[0]);
    } else {
      var c1 := Step(mode, c, data[0]).c;
      assert data == [data[0], data[1]];
      RunTwo(mode, c, data[0], data[1]);
      assert c1 == Config(c.p.(status := WaitByte1, hold := [status, data[0]]), c.getDelta);
      assert c1.p.hold + [data[1]] == [status] + data && ([status] + data)[1..] == data;
    }
  }

  lemma VoiceParses(mode: Mode, c: Config, m: Memory, i: Item)
    requires AtCommand(c.p, m) && i.Voice? && Legal(m, i)
    ensures Run(mode, c, Print(i)) ==
            Outcome(Config(Resume(After(m, i), c.p.delta), c.getDelta || mode == Rtp), [AsCommand(i, c.p.delta)])
  {
    if i.omitted {
      RunningParses(mode, c, i.status, i.data);
    } else {
      var c1 := Step(mode, c, i.status).c;
      assert [] + [i.status] == [i.status];
      assert c1 == Config(c.p.(status := if |i.data| == 1 then WaitByte1 else WaitByte2, running := i.status, hold := [i.status]), c.getDelta);
      RunCons(mode, c, i.status, i.data);
      DataParses(mode, c1, i.status, i.data);
    }
  }

  /** Octets that neither end a SysEx segment nor are real-time messages. */
  predicate InSysex(s: seq<byte>, partial: bool) {
    forall k :: 0 <= k < |s| ==> s[k] < 0xF7 && s[k] != 0xF0 && !(partial && s[k] == 0xF4)
  }

  /** All of them are held, status octets as well. */
  lemma {:induction false} SysexBodyHeld(mode: Mode, c: Config, body: seq<byte>)
    requires c.p.status == WaitEndSysex && c.p.running == 0 && InSysex(body, c.p.partial)
    ensures Run(mode, c, body) == Outcome(Config(c.p.(hold := c.p.hold + body), c.getDelta), [])
    decreases |body|
  {
    if body == [] {
      assert c.p.hold + body == c.p.hold;
    } else {
      assert body == [body[0]] + body[1..];
      RunCons(mode, c, body[0], body[1..]);
      SysexBodyHeld(mode, Step(mode, c, body[0]).c, body[1..]);
      assert c.p.hold + [body[0]] + body[1..] == c.p.hold + body;
    }
  }

  /** The last octet of a SysEx segment. */
  lemma SysexEnds(mode: Mode, c: Config, first: byte, data: seq<byte>, last: byte)
    requires c.p.status == WaitEndSysex && c.p.running == 0 && c.p.hold == [first] + data
    requires last in {0xF7, 0xF0} || (last == 0xF4 && c.p.partial)
    ensures Run(mode, c, [last]) ==
            Outcome(Config(c.p.(status := Init, partial := last == 0xF0, hold := []), c.getDelta || mode == Rtp),
                    [Command(c.p.delta, first, data + [last])])
  {
    RunOne(mode, c, last);
    var held := c.p.hold + [last];
    assert held[0] == first && held[1..] == data + [last];
  }

  lemma SysexParses(mode: Mode, c: Config, m: Memory, i: Item)
    requires AtCommand(c.p, m) && i.SysEx? && Legal(m, i)
    ensures Run(mode, c, Print(i)) ==
            Outcome(Config(Resume(After(m, i), c.p.delta), c.getDelta || mode == Rtp), [AsCommand(i, c.p.delta)])
  {
    var c1 := Config(c.p.(status := WaitEndSysex, running := 0, hold := [i.first]), c.getDelta);
    assert [] + [i.first] == [i.first] && Step(mode, c, i.first) == Outcome(c1, []);
    assert Print(i) == [i.first] + (i.body + [i.last]);
    RunCons(mode, c, i.first, i.body + [i.last]);
    RunConcat(mode, c1, i.body, [i.last]);
    SysexBodyHeld(mode, c1, i.body);
    SysexEnds(mode, Run(mode, c1, i.body).c, i.first, i.body, i.last);
  }

  // Plain streams.

  predicate LegalList(m: Memory, items: seq<Item>)
    decreases |items|
  {
    items == [] || (Legal(m, items[0]) && LegalList(After(m, items[0]), items[1..]))
  }

  function PrintList(items: seq<Item>): seq<byte> {
    if items == [] then [] else Print(items[0]) + PrintList(items[1..])
  }

  function AfterList(m: Memory, items: seq<Item>): Memory
    decreases |items|
  {
    if items == [] then m else AfterList(After(m, items[0]), items[1..])
  }

  function Commands(items: seq<Item>): (cs: seq<Command>)
    ensures |cs| == |items|
  {
    if items == [] then [] else [AsCommand(items[0], 0)] + Commands(items[1..])
  }

  /** A parser between two commands of a plain stream: `Init`, or past a real-time octet. */
  predicate Between(p: Parser, m: Memory) {
    AtCommand(Settle(p), m) && Settle(p).delta == 0
  }

  lemma RunSettled(p: Parser, s: seq<byte>)
    requires s != [] && !p.status.WaitDelta?
    ensures Run(Simple, Config(p, false), s) == Run(Simple, Config(Settle(p), false), s)
  {
    assert s == [s[0]] + s[1..];
    RunCons(Simple, Config(p, false), s[0], s[1..]);
    RunCons(Simple, Config(Settle(p), false), s[0], s[1..]);
    assert Begin(Config(Settle(p), false)) == Begin(Config(p, false));
  }

  lemma ItemParses(p: Parser, m: Memory, i: Item)
    requires Between(p, m) && Legal(m, i)
    ensures var o := Run(Simple, Config(p, false), Print(i));
            Between(o.c.p, After(m, i)) && !o.c.getDelta && o.out == [AsCommand(i, 0)]
  {
    RunSettled(p, Print(i));
    match i {
      case Voice(_, _, _) => VoiceParses(Simple, Config(Settle(p), false), m, i);
      case SysEx(_, _, _) => SysexParses(Simple, Config(Settle(p), false), m, i);
      case SystemRealTime(status) => RunOne(Simple, Config(Settle(p), false), status);
    }
  }

  /** Parsing undoes printing: for every list of channel voice commands, real-time messages
      and whole or segmented SysEx, with any status octets left out that running status
      allows, the parser emits exactly that list. */
  lemma {:induction false} ParseUndoesPrint(p: Parser, m: Memory, items: seq<Item>)
    requires Between(p, m) && LegalList(m, items)
    ensures var r := Send(Simple, p, false, PrintList(items));
            r.1 == Commands(items) && Between(r.0, AfterList(m, items))
    decreases |items|
  {
    if items != [] {
      ItemParses(p, m, items[0]);
      var c1 := Run(Simple, Config(p, false), Print(items[0])).c;
      RunConcat(Simple, Config(p, false), Print(items[0]), PrintList(items[1..]));
      ParseUndoesPrint(c1.p, After(m, items[0]), items[1..]);
    }
  }

  /** System common messages are outside the printed lists. The status is looked up with its low
      nibble cleared, so one that has data is passed on bare, and then once more with its data:
      it is parsed as itself exactly when it has none. So is an end of SysEx that ends none. */
  lemma SystemCommonExact(p: Parser, m: Memory, status: byte, data: seq<byte>)
    requires Between(p, m) && 0xF1 <= status <= 0xF7 && (status == 0xF7 ==> !m.partial)
    requires DataOctets(data) && |data| == BytesNeeded(status)
    ensures Send(Simple, p, false, [status] + data).1 ==
            (if data == [] then [Command(0, status, [])] else [Command(0, status, []), Command(0, status, data)])
  {
    var c := Config(Settle(p), false);
    var c1 := Config(c.p.(status := Init, running := status), false);
    RunSettled(p, [status] + data);
    RunCons(Simple, c, status, data);
    CommonEmitted(Simple, c, status);
    if data != [] {
      RunSettled(c1.p, data);
      RunningParses(Simple, Config(Settle(c1.p), false), status, data);
    }
  }

  lemma CommonEmitted(mode: Mode, c: Config, status: byte)
    requires c.p.status == WaitCommand && c.p.hold == [] && 0xF1 <= status <= 0xF7 && (status == 0xF7 ==> !c.p.partial)
    ensures Step(mode, c, status) ==
            Outcome(Config(c.p.(status := Init, running := status), c.getDelta || mode == Rtp), [Command(c.p.delta, status, [])])
  {
    assert [] + [status] == [status] && [status][1..] == [];
  }

  /** Each data octet behind a copy of the status. */
  function Paired(status: byte, s: seq<byte>): seq<byte> {
    if s == [] then [] else [status, s[0]] + Paired(status, s[1..])
  }

  /** Data octets after a remembered status that has no data are held, each behind a copy of
      that status, and nothing comes of them until another status does. */
  lemma {:induction false} RunningWithoutData(mode: Mode, c: Config, s: seq<byte>)
    requires c.p.status == WaitCommand && c.p.running > 0 && BytesNeeded(c.p.running) == 0 && DataOctets(s)
    ensures Run(mode, c, s) == Outcome(c.(p := c.p.(hold := c.p.hold + Paired(c.p.running, s))), [])
    decreases |s|
  {
    if s == [] {
      assert c.p.hold + [] == c.p.hold;
    } else {
      var two := [c.p.running, s[0]];
      assert s == [s[0]] + s[1..];
      RunCons(mode, c, s[0], s[1..]);
      RunningWithoutData(mode, Step(mode, c, s[0]).c, s[1..]);
      assert c.p.hold + two + Paired(c.p.running, s[1..]) == c.p.hold + (two + Paired(c.p.running, s[1..]));
    }
  }

  // Stray data octets.

  /** Data octets at a command where no status is remembered are dropped, in either mode. */
  lemma {:induction false} StrayDropped(mode: Mode, c: Config, s: seq<byte>)
    requires Begin(c).status == WaitCommand && Begin(c).running == 0 && DataOctets(s)
    ensures Run(mode, c, s).out == []
    ensures Run(mode, c, s).c == if s == [] then c else Config(Begin(c), c.getDelta)
    decreases |s|
  {
    if s != [] {
      var next := Config(Begin(c), c.getDelta);
      assert s == [s[0]] + s[1..];
      RunCons(mode, c, s[0], s[1..]);
      assert Begin(next) == next.p;
      StrayDropped(mode, next, s[1..]);
    }
  }

  /** `strays[k]` stands before item `k`, and the last behind the list. */
  predicate LegalStrays(m: Memory, items: seq<Item>, strays: seq<seq<byte>>)
    requires |strays| == |items| + 1
    decreases |items|
  {
    && DataOctets(strays[0]) && (strays[0] != [] ==> m.running == 0)
    && (items == [] || LegalStrays(After(m, items[0]), items[1..], strays[1..]))
  }

  function PrintAmid(items: seq<Item>, strays: seq<seq<byte>>): seq<byte>
    requires |strays| == |items| + 1
    decreases |items|
  {
    strays[0] + if items == [] then [] else Print(items[0]) + PrintAmid(items[1..], strays[1..])
  }

  lemma StrayBetween(p: Parser, m: Memory, s: seq<byte>)
    requires Between(p, m) && DataOctets(s) && (s != [] ==> m.running == 0)
    ensures var o := Run(Simple, Config(p, false), s); Between(o.c.p, m) && !o.c.getDelta && o.out == []
  {
    if s != [] {
      StrayDropped(Simple, Config(p, false), s);
    }
  }

  /** Parsing undoes printing amid stray octets: data octets in front of the list, after a SysEx
      and wherever else no status is remembered change nothing. */
  lemma {:induction false} ParseUndoesPrintAmid(p: Parser, m: Memory, items: seq<Item>, strays: seq<seq<byte>>)
    requires Between(p, m) && LegalList(m, items) && |strays| == |items| + 1 && LegalStrays(m, items, strays)
    ensures var r := Send(Simple, p, false, PrintAmid(items, strays));
            r.1 == Commands(items) && Between(r.0, AfterList(m, items))
    decreases |items|
  {
    var c := Config(p, false);
    StrayBetween(p, m, strays[0]);
    var c1 := Run(Simple, c, strays[0]).c;
    if items == [] {
      assert strays[0] + [] == strays[0];
    } else {
      var rest := PrintAmid(items[1..], strays[1..]);
      RunConcat(Simple, c, strays[0], Print(items[0]) + rest);
      ItemParses(c1.p, m, items[0]);
      RunConcat(Simple, c1, Print(items[0]), rest);
      ParseUndoesPrintAmid(Run(Simple, c1, Print(items[0])).c.p, After(m, items[0]), items[1..], strays[1..]);
    }
  }

  /** Together with real-time transparency: scatter real-time octets anywhere in the printed
      stream, stray octets and the inside of commands too, and cut it into reads anywhere. The other commands come
      out as they were, and the real-time messages are the scattered octets in order. */
  lemma ParseUndoesPrintScattered(p: Parser, m: Memory, items: seq<Item>, strays: seq<seq<byte>>, chunks: seq<seq<byte>>)
    requires Idle(p, m) && !IsRealTime(m.running) && LegalList(m, items)
    requires |strays| == |items| + 1 && LegalStrays(m, items, strays)
    requires Strip(Flatten(chunks)) == PrintAmid(items, strays)
    ensures Others(SendEach(p, chunks).1) == Commands(items)
    ensures RealTimes(SendEach(p, chunks).1) == RealTimeOctets(Flatten(chunks))
  {
    CutInvariance(p, chunks);
    Transparency(p, Flatten(chunks));
    ParseUndoesPrintAmid(p, m, items, strays);
  }

  // RTP payloads.

  /** All octets of a delta time but the last have bit 7 set (section 3.1 of RFC 6295). */
  predicate DeltaTime(s: seq<byte>) {
    s != [] && s[|s| - 1] < 0x80 && forall k :: 0 <= k < |s| - 1 ==> s[k] >= 0x80
  }

  function PushAll(delta: u64, s: seq<byte>): u64
    decreases |s|
  {
    if s == [] then delta else PushAll(PushDelta(delta, s[0]), s[1..])
  }

  lemma {:induction false} DeltaParses(c: Config, s: seq<byte>)
    requires c.p.status == WaitDelta && DeltaTime(s)
    ensures Run(Rtp, c, s) ==
            Outcome(Config(c.p.(status := WaitCommand, delta := PushAll(c.p.delta, s)), c.getDelta), [])
    decreases |s|
  {
    assert s == [s[0]] + s[1..];
    RunCons(Rtp, c, s[0], s[1..]);
    if |s| == 1 {
      assert s[1..] == [];
    } else {
      DeltaParses(Step(Rtp, c, s[0]).c, s[1..]);
    }
  }

  lemma DeltaParsesFromInit(p: Parser, s: seq<byte>)
    requires p.status == Init && DeltaTime(s)
    ensures Run(Rtp, Config(p, true), s) ==
            Outcome(Config(p.(status := WaitCommand, delta := PushAll(0, s)), true), [])
  {
    var c, d := Config(p, true), Config(Begin(Config(p, true)), true);
    assert s == [s[0]] + s[1..];
    RunCons(Rtp, c, s[0], s[1..]);
    RunCons(Rtp, d, s[0], s[1..]);
    assert Begin(d) == Begin(c);
    DeltaParses(d, s);
  }

  predicate DeltaTimes(ds: seq<seq<byte>>) {
    forall k :: 0 <= k < |ds| ==> DeltaTime(ds[k])
  }

  /** The MIDI list of a payload, a delta time before each command: the first is present when
      the Z flag is set. */
  function PrintTimed(items: seq<Item>, ds: seq<seq<byte>>, z: bool): seq<byte>
    requires |ds| == |items|
    decreases |items|
  {
    if items == [] then []
    else (if z then ds[0] else []) + Print(items[0]) + PrintTimed(items[1..], ds[1..], true)
  }

  function TimedCommands(items: seq<Item>, ds: seq<seq<byte>>, z: bool): (cs: seq<Command>)
    requires |ds| == |items|
    ensures |cs| == |items|
    decreases |items|
  {
    if items == [] then []
    else [AsCommand(items[0], if z then PushAll(0, ds[0]) else 0)] + TimedCommands(items[1..], ds[1..], true)
  }

  /** A real-time message is passed on with its delta time, but the parser goes on waiting for
      a command, not for the delta time that the list holds next. */
  lemma RealTimeTakesNoDelta(p: Parser, d: seq<byte>, z: bool, status: byte)
    requires p.status == Init && DeltaTime(d) && IsRealTime(status)
    ensures var delta := if z then PushAll(0, d) else 0;
            Run(Rtp, Config(p, z), (if z then d else []) + [status]) ==
            Outcome(Config(p.(status := WaitCommand, delta := delta), z), [Command(delta, status, [])])
  {
    if z {
      RunConcat(Rtp, Config(p, true), d, [status]);
      DeltaParsesFromInit(p, d);
      RunOne(Rtp, Config(p.(status := WaitCommand, delta := PushAll(0, d)), true), status);
    } else {
      assert [] + [status] == [status];
      RunOne(Rtp, Config(p, false), status);
    }
  }

  /** The delta time of a command, if there is one, and the octets of the command. */
  lemma DeltaThen(p: Parser, d: seq<byte>, z: bool, s: seq<byte>)
    requires p.status == Init && DeltaTime(d) && s != []
    ensures Run(Rtp, Config(p, z), (if z then d else []) + s) ==
            Run(Rtp, Config(p.(status := WaitCommand, delta := if z then PushAll(0, d) else 0), z), s)
  {
    var c := Config(p.(status := WaitCommand, delta := if z then PushAll(0, d) else 0), z);
    if z {
      RunConcat(Rtp, Config(p, true), d, s);
      DeltaParsesFromInit(p, d);
      assert [] + Run(Rtp, c, s).out == Run(Rtp, c, s).out;
    } else {
      assert [] + s == s && s == [s[0]] + s[1..];
      RunCons(Rtp, Config(p, false), s[0], s[1..]);
      RunCons(Rtp, c, s[0], s[1..]);
      assert Begin(c) == Begin(Config(p, false));
    }
  }

  lemma TimedParses(p: Parser, m: Memory, i: Item, d: seq<byte>, z: bool)
    requires Idle(p, m) && !i.SystemRealTime? && Legal(m, i) && DeltaTime(d)
    ensures var o := Run(Rtp, Config(p, z), (if z then d else []) + Print(i));
            Idle(o.c.p, After(m, i)) && o.c.getDelta && o.out == [AsCommand(i, if z then PushAll(0, d) else 0)]
  {
    var c := Config(p.(status := WaitCommand, delta := if z then PushAll(0, d) else 0), z);
    DeltaThen(p, d, z, Print(i));
    if i.Voice? {
      VoiceParses(Rtp, c, m, i);
    } else {
      SysexParses(Rtp, c, m, i);
    }
  }

  /** No real-time message precedes another command. */
  predicate RealTimeLast(items: seq<Item>) {
    forall k :: 0 <= k < |items| - 1 ==> !items[k].SystemRealTime?
  }

  /** Printing and expecting a list, one command at a time. */
  lemma TimedStep(p: Parser, items: seq<Item>, ds: seq<seq<byte>>, z: bool, head: Result)
    requires items != [] && |ds| == |items|
    requires head == Run(Rtp, Config(p, z), (if z then ds[0] else []) + Print(items[0]))
    ensures Run(Rtp, Config(p, z), PrintTimed(items, ds, z)).out ==
            head.out + Run(Rtp, head.c, PrintTimed(items[1..], ds[1..], true)).out
    ensures Run(Rtp, Config(p, z), PrintTimed(items, ds, z)).c == Run(Rtp, head.c, PrintTimed(items[1..], ds[1..], true)).c
  {
    RunConcat(Rtp, Config(p, z), (if z then ds[0] else []) + Print(items[0]), PrintTimed(items[1..], ds[1..], true));
  }

  /** List framing: for every list of channel voice, SysEx and real-time commands in which no
      real-time message precedes another command, with delta times of any number of octets,
      real-time-looking ones included, an RTP call returns exactly that list and leaves the
      parser between commands. */
  lemma {:induction false} RtpListFraming(p: Parser, m: Memory, items: seq<Item>, ds: seq<seq<byte>>, z: bool)
    requires Idle(p, m) && LegalList(m, items) && |ds| == |items| && DeltaTimes(ds) && RealTimeLast(items)
    ensures var r := Send(Rtp, p, z, PrintTimed(items, ds, z));
            r.1 == TimedCommands(items, ds, z) && Idle(r.0, AfterList(m, items))
    decreases |items|
  {
    if items != [] {
      var head := Run(Rtp, Config(p, z), (if z then ds[0] else []) + Print(items[0]));
      TimedStep(p, items, ds, z, head);
      if items[0].SystemRealTime? {
        RealTimeTakesNoDelta(p, ds[0], z, items[0].status);
        assert items[1..] == [];
      } else {
        TimedParses(p, m, items[0], ds[0], z);
        RtpListFraming(head.c.p, After(m, items[0]), items[1..], ds[1..], true);
      }
    }
  }

  /** The octets after a real-time message, when the next delta time begins with F9. */
  lemma TakenForRealTime(c: Config, rest: seq<byte>)
    requires c.p.status == WaitCommand && rest != [] && rest[0] == 0xF9
    ensures var out := Run(Rtp, c, rest).out; out != [] && out[0] == Command(c.p.delta, 0xF9, [])
  {
    assert rest == [rest[0]] + rest[1..];
    RunCons(Rtp, c, rest[0], rest[1..]);
  }

  lemma MisreadHere(p: Parser, items: seq<Item>, ds: seq<seq<byte>>, z: bool)
    requires p.status == Init && |items| > 1 && items[0].SystemRealTime? && IsRealTime(items[0].status)
    requires |ds| == |items| && ds[0] == [0] && ds[1] == [0xF9, 0]
    ensures Send(Rtp, p, z, PrintTimed(items, ds, z)).1 != TimedCommands(items, ds, z)
  {
    var head := Run(Rtp, Config(p, z), (if z then ds[0] else []) + Print(items[0]));
    var rest := PrintTimed(items[1..], ds[1..], true);
    OneOctetDelta(0);
    RealTimeTakesNoDelta(p, ds[0], z, items[0].status);
    TimedStep(p, items, ds, z, head);
    TakenForRealTime(head.c, rest);
    SecondExpected(items, ds, z);
    SecondsDiffer(head.out, Run(Rtp, head.c, rest).out, TimedCommands(items, ds, z));
  }

  lemma SecondExpected(items: seq<Item>, ds: seq<seq<byte>>, z: bool)
    requires |items| > 1 && |ds| == |items| && ds[1] == [0xF9, 0]
    ensures TimedCommands(items, ds, z)[1].delta == 0x7900
  {
    TwoOctetDelta();
    var more := TimedCommands(items[1..], ds[1..], true);
    assert more[0] == AsCommand(items[1], PushAll(0, ds[1]));
    assert TimedCommands(items, ds, z)[1] == more[0];
  }

  lemma SecondsDiffer(first: seq<Command>, rest: seq<Command>, cs: seq<Command>)
    requires |first| == 1 && rest != [] && |cs| > 1 && rest[0].delta != cs[1].delta
    ensures first + rest != cs
  {
    assert (first + rest)[1] == rest[0];
  }

  lemma TwoOctetDelta()
    ensures DeltaTime([0xF9, 0]) && PushAll(0, [0xF9, 0]) == 0x7900
  {
    PushTwo(0, [0xF9, 0]);
    PushSmall(0, 0xF9);
    PushSmall(0x79, 0);
  }

  lemma PushTwo(delta: u64, s: seq<byte>)
    requires |s| == 2
    ensures PushAll(delta, s) == PushDelta(PushDelta(delta, s[0]), s[1])
  {
    var rest := s[1..];
    assert rest[0] == s[1] && rest[1..] == [];
    assert PushAll(PushDelta(delta, s[0]), rest) == PushAll(PushDelta(PushDelta(delta, s[0]), s[1]), rest[1..]);
  }

  lemma MisreadTimes(n: nat) returns (ds: seq<seq<byte>>)
    requires n > 1
    ensures |ds| == n && ds[0] == [0] && ds[1] == [0xF9, 0] && DeltaTimes(ds)
  {
    var zeros: seq<seq<byte>> := seq(n, i => [0]);
    ds := zeros[1 := [0xF9, 0]];
    forall k | 0 <= k < n
      ensures DeltaTime(ds[k])
    {
      if k == 1 {
        TwoOctetDelta();
      } else {
        OneOctetDelta(0);
      }
    }
  }

  lemma OneMore(more: seq<seq<byte>>) returns (ds: seq<seq<byte>>)
    requires DeltaTimes(more)
    ensures |ds| == |more| + 1 && ds[0] == [0] && ds[1..] == more && DeltaTimes(ds)
  {
    ds := [[0]] + more;
    forall k | 0 <= k < |ds|
      ensures DeltaTime(ds[k])
    {
      if k == 0 {
        OneOctetDelta(0);
      } else {
        assert ds[k] == more[k - 1];
      }
    }
  }

  lemma RealTimeLater(items: seq<Item>)
    requires !RealTimeLast(items) && !items[0].SystemRealTime?
    ensures !RealTimeLast(items[1..])
  {
    var k :| 0 <= k < |items| - 1 && items[k].SystemRealTime?;
    assert items[1..][k - 1] == items[k];
  }

  /** Where a real-time message precedes another command, delta times can be chosen that make
      the parser take the next one for something else. */
  lemma {:induction false} Misread(p: Parser, m: Memory, items: seq<Item>, z: bool) returns (ds: seq<seq<byte>>)
    requires Idle(p, m) && LegalList(m, items) && !RealTimeLast(items)
    ensures |ds| == |items| && DeltaTimes(ds)
    ensures Send(Rtp, p, z, PrintTimed(items, ds, z)).1 != TimedCommands(items, ds, z)
    decreases |items|
  {
    if items[0].SystemRealTime? {
      ds := MisreadTimes(|items|);
      MisreadHere(p, items, ds, z);
    } else {
      var head := Run(Rtp, Config(p, z), (if z then [0] else []) + Print(items[0]));
      OneOctetDelta(0);
      RealTimeLater(items);
      TimedParses(p, m, items[0], [0], z);
      var more := Misread(head.c.p, After(m, items[0]), items[1..], true);
      ds := OneMore(more);
      MisreadLater(p, m, items, ds, z, head);
    }
  }

  lemma MisreadLater(p: Parser, m: Memory, items: seq<Item>, ds: seq<seq<byte>>, z: bool, head: Result)
    requires Idle(p, m) && items != [] && |ds| == |items| && ds[0] == [0] && !items[0].SystemRealTime? && Legal(m, items[0])
    requires head == Run(Rtp, Config(p, z), (if z then ds[0] else []) + Print(items[0]))
    requires Send(Rtp, head.c.p, true, PrintTimed(items[1..], ds[1..], true)).1 != TimedCommands(items[1..], ds[1..], true)
    ensures Send(Rtp, p, z, PrintTimed(items, ds, z)).1 != TimedCommands(items, ds, z)
  {
    OneOctetDelta(0);
    TimedParses(p, m, items[0], ds[0], z);
    TimedStep(p, items, ds, z, head);
    TailsDiffer(AsCommand(items[0], 0), Send(Rtp, head.c.p, true, PrintTimed(items[1..], ds[1..], true)).1,
                TimedCommands(items[1..], ds[1..], true));
  }

  lemma TailsDiffer(first: Command, a: seq<Command>, b: seq<Command>)
    requires a != b
    ensures [first] + a != [first] + b
  {
    assert ([first] + a)[1..] == a && ([first] + b)[1..] == b;
  }

  /** A list shape is framed when it is returned exactly whatever its delta times. */
  ghost predicate Framed(p: Parser, items: seq<Item>, z: bool) {
    forall ds: seq<seq<byte>> :: |ds| == |items| && DeltaTimes(ds) ==>
      Send(Rtp, p, z, PrintTimed(items, ds, z)).1 == TimedCommands(items, ds, z)
  }

  /** A list is returned exactly, whatever its delta times, if and only if no real-time message
      precedes another command. */
  lemma RtpFramingExact(p: Parser, m: Memory, items: seq<Item>, z: bool)
    requires Idle(p, m) && LegalList(m, items)
    ensures Framed(p, items, z) <==> RealTimeLast(items)
  {
    if RealTimeLast(items) {
      forall ds: seq<seq<byte>> | |ds| == |items| && DeltaTimes(ds)
        ensures Send(Rtp, p, z, PrintTimed(items, ds, z)).1 == TimedCommands(items, ds, z)
      {
        RtpListFraming(p, m, items, ds, z);
      }
    } else {
      var ds := Misread(p, m, items, z);
    }
  }

  /** A timing clock and a NoteOn, each with its delta time, to a peer that remembers a NoteOn
      status: the second delta time and the status are taken for the data of a note. */
  lemma ClockDestroysNoteOn(p: Parser, partial: bool)
    requires Idle(p, Memory(0x90, partial))
    ensures var items := [SystemRealTime(0xF8), Voice(0x90, [0x3C, 0x64], false)];
            && LegalList(Memory(0x90, partial), items)
            && PrintTimed(items, [[5], [7]], true) == [5, 0xF8, 7, 0x90, 0x3C, 0x64]
            && Send(Rtp, p, true, [5, 0xF8, 7, 0x90, 0x3C, 0x64]).1 == [Command(5, 0xF8, []), Command(5, 0x90, [7, 0x90])]
  {
    ClockListPrints();
    ClockListParses(p);
  }

  lemma ClockListParses(p: Parser)
    requires p.status == Init && p.hold == [] && p.running == 0x90
    ensures Run(Rtp, Config(p, true), [5, 0xF8, 7, 0x90, 0x3C, 0x64]).out == [Command(5, 0xF8, []), Command(5, 0x90, [7, 0x90])]
  {
    var c := Config(p.(status := WaitCommand, delta := 5), true);
    var tail := [7, 0x90, 0x3C, 0x64];
    ClockParses(p);
    RunConcat(Rtp, Config(p, true), [5, 0xF8], tail);
    assert [5, 0xF8] + tail == [5, 0xF8, 7, 0x90, 0x3C, 0x64];
    TailParses(c);
  }

  lemma TailParses(c: Config)
    requires c.p.status == WaitCommand && c.p.hold == [] && c.p.running == 0x90 && c.getDelta
    ensures Run(Rtp, c, [7, 0x90, 0x3C, 0x64]).out == [Command(c.p.delta, 0x90, [7, 0x90])]
  {
    RunConcat(Rtp, c, [7, 0x90], [0x3C, 0x64]);
    assert [7, 0x90] + [0x3C, 0x64] == [7, 0x90, 0x3C, 0x64];
    TakenForData(c);
    HeldAgain(c.(p := c.p.(status := Init)));
  }

  lemma ClockListPrints()
    ensures PrintTimed([SystemRealTime(0xF8), Voice(0x90, [0x3C, 0x64], false)], [[5], [7]], true) == [5, 0xF8, 7, 0x90, 0x3C, 0x64]
  {
    var items := [SystemRealTime(0xF8), Voice(0x90, [0x3C, 0x64], false)];
    assert items[1..] == [items[1]] && [[5], [7]][1..] == [[7]];
    assert PrintTimed([items[1]], [[7]], true) == [7] + [0x90, 0x3C, 0x64] + [];
  }

  lemma ClockParses(p: Parser)
    requires p.status == Init
    ensures Run(Rtp, Config(p, true), [5, 0xF8]) == Outcome(Config(p.(status := WaitCommand, delta := 5), true), [Command(5, 0xF8, [])])
  {
    OneOctetDelta(5);
    RealTimeTakesNoDelta(p, [5], true, 0xF8);
    assert [5] + [0xF8] == [5, 0xF8];
  }

  lemma TakenForData(c: Config)
    requires c.p.status == WaitCommand && c.p.hold == [] && c.p.running == 0x90 && c.getDelta
    ensures Run(Rtp, c, [7, 0x90]) == Outcome(c.(p := c.p.(status := Init)), [Command(c.p.delta, 0x90, [7, 0x90])])
  {
    RunTwo(Rtp, c, 7, 0x90);
    assert [] + [0x90, 7] == [0x90, 7];
    assert Step(Rtp, c, 7).c == c.(p := c.p.(status := WaitByte1, hold := [0x90, 7]));
    assert [0x90, 7] + [0x90] == [0x90, 7, 0x90] && [0x90, 7, 0x90][1..] == [7, 0x90];
  }

  /** What is left is a delta time and a data octet, of which nothing comes. */
  lemma HeldAgain(c: Config)
    requires c.p.status == Init && c.p.hold == [] && c.p.running == 0x90 && c.getDelta
    ensures Run(Rtp, c, [0x3C, 0x64]).out == []
  {
    RunTwo(Rtp, c, 0x3C, 0x64);
  }

  /** The delta without a bound. */
  function Shifted(acc: nat, s: seq<byte>): nat
    decreases |s|
  {
    if s == [] then acc else Shifted(acc * 256 + s[0] % 128, s[1..])
  }

  lemma {:induction false} ShiftedMore(acc: nat, more: nat, s: seq<byte>)
    ensures Shifted(acc + more, s) == Shifted(acc, s) + more * Pow256(|s|)
    decreases |s|
  {
    if s != [] {
      ShiftedMore(acc * 256 + s[0] % 128, more * 256, s[1..]);
      assert (acc + more) * 256 + s[0] % 128 == acc * 256 + s[0] % 128 + more * 256;
      assert more * 256 * Pow256(|s| - 1) == more * Pow256(|s|);
    }
  }

  lemma Wraps(b: nat, k: nat)
    ensures (b + k * 0x1_0000_0000_0000_0000) % 0x1_0000_0000_0000_0000 == b % 0x1_0000_0000_0000_0000
  {
  }

  lemma WrapsFactor(b: nat, q: nat, n: nat)
    ensures (b + q * 0x1_0000_0000_0000_0000 * n) % 0x1_0000_0000_0000_0000 == b % 0x1_0000_0000_0000_0000
  {
    var k := q * n;
    assert q * 0x1_0000_0000_0000_0000 * n == k * 0x1_0000_0000_0000_0000;
    Wraps(b, k);
  }

  /** What one shift loses. */
  lemma Lost(delta: u64, octet: byte) returns (q: nat)
    ensures delta * 256 + octet % 128 == PushDelta(delta, octet) + q * 0x1_0000_0000_0000_0000
  {
    q := delta * 256 / 0x1_0000_0000_0000_0000;
  }

  /** A delta time of any length is its octets' low seven bits, each shifted by eight, in 64
      bits. */
  lemma {:induction false} DeltaShifts(delta: u64, s: seq<byte>)
    ensures PushAll(delta, s) == Shifted(delta, s) % 0x1_0000_0000_0000_0000
    decreases |s|
  {
    if s != [] {
      var next := PushDelta(delta, s[0]);
      var q := Lost(delta, s[0]);
      DeltaShifts(next, s[1..]);
      ShiftedMore(next, q * 0x1_0000_0000_0000_0000, s[1..]);
      WrapsFactor(Shifted(next, s[1..]), q, Pow256(|s| - 1));
    }
  }

  /** The value RFC 6295 gives a delta time: seven bits to an octet. */
  function RfcDelta(acc: nat, s: seq<byte>): nat
    decreases |s|
  {
    if s == [] then acc else RfcDelta(acc * 128 + s[0] % 128, s[1..])
  }

  lemma {:induction false} Pow256Grows(m: nat, n: nat)
    requires m <= n
    ensures Pow256(m) <= Pow256(n)
  {
    if m < n {
      Pow256Grows(m, n - 1);
    }
  }

  lemma PushSmall(delta: u64, octet: byte)
    requires delta < 0x100_0000_0000_0000
    ensures PushDelta(delta, octet) == delta * 256 + octet % 128
  {
  }

  lemma {:induction false} StaysAhead(d: u64, r: nat, n: nat, s: seq<byte>)
    requires r < d < Pow256(n) && n + |s| <= 8
    ensures PushAll(d, s) > RfcDelta(r, s)
    decreases |s|
  {
    if s != [] {
      Pow256Grows(n + 1, 8);
      Pow256Values();
      assert Pow256(8) == 256 * Pow256(7);
      Pow256Grows(n, 7);
      PushSmall(d, s[0]);
      StaysAhead(PushDelta(d, s[0]), r * 128 + s[0] % 128, n + 1, s[1..]);
    }
  }

  lemma LeadingGroup(s: seq<byte>)
    requires DeltaTime(s) && 1 < |s| <= 8 && s[0] != 0x80
    ensures PushAll(0, s) > RfcDelta(0, s)
  {
    var g: nat := s[0] % 128;
    PushSmall(0, s[0]);
    PushSmall(g, s[1]);
    Pow256Values();
    assert s[1..][1..] == s[2..] && s[1..][0] == s[1];
    StaysAhead(PushDelta(g, s[1]), g * 128 + s[1] % 128, 2, s[2..]);
  }

  /** The parser shifts by eight bits. It reads a delta time of up to eight octets (RFC 6295
      allows four) as its value exactly when every octet but the last carries zero, and as
      something larger otherwise. */
  lemma {:induction false} DeltaValueExact(s: seq<byte>)
    requires DeltaTime(s) && |s| <= 8
    ensures PushAll(0, s) == RfcDelta(0, s) <==> forall k :: 0 <= k < |s| - 1 ==> s[k] == 0x80
    ensures PushAll(0, s) >= RfcDelta(0, s)
    decreases |s|
  {
    if |s| == 1 {
      assert s[1..] == [];
    } else if s[0] == 0x80 {
      DeltaValueExact(s[1..]);
      assert forall k :: 1 <= k < |s| - 1 ==> s[k] == s[1..][k - 1];
    } else {
      LeadingGroup(s);
    }
  }

  /** A delta time of one octet is read as its value. */
  lemma OneOctetDelta(b: byte)
    requires b < 0x80
    ensures DeltaTime([b]) && PushAll(0, [b]) == b
  {
    assert [b][1..] == [];
  }
}
