/** The recovery theorem for a receiver that reads the octets of the whole journal. */
module WireRecovery {
  import opened Bytes
  import opened Journal
  import opened JournalHistory
  import opened JournalReader
  import opened Recovery
  import opened RecoveryTold
  import opened RecoveryInvariant
  import JournalWire

  /** What a reader learns of the journal octets of a packet: nothing from a journal that it
      cannot read. */
  function LearnedFrom(wire: seq<byte>, strict: bool): (m: Memory)
    ensures ValidMemory(m)
  {
    var r := ReadJournal(wire, strict);
    if r.Some? then Learned(r.value.channels) else Blank()
  }

  function ReceiveWire(m: Memory, p: Packet, strict: bool): (r: Memory)
    requires ValidMemory(m)
    ensures ValidMemory(r)
  {
    Effect(Overlay(m, LearnedFrom(p.wire, strict)), p.event)
  }

  /** The memory of such a receiver after a run. */
  function WireMemory(s: System, ts: seq<Step>, m: Memory, strict: bool): Memory
    requires ValidState(s) && Runs(s, ts) && ValidMemory(m)
    decreases |ts|
  {
    if ts == [] then m
    else WireMemory(Next(s, ts[0]), ts[1..], if ts[0].Deliver? then ReceiveWire(m, s.sent[ts[0].k], strict) else m, strict)
  }

  /** The journal is one that the reader gets. */
  predicate LegibleJournal(j: State, strict: bool)
    requires Valid(j)
  {
    HasData(j) ==> AllReadable(j) && if strict then Fresh(j) else LegibleFrom(j, 0, false)
  }

  /** A run in which every journal packed is one. */
  predicate LegibleRun(s: System, ts: seq<Step>, strict: bool)
    requires ValidState(s) && Runs(s, ts)
    decreases |ts|
  {
    ts == [] || ((ts[0].Begin? ==> LegibleJournal(s.journal, strict)) && LegibleRun(Next(s, ts[0]), ts[1..], strict))
  }

  lemma NothingLearned(strict: bool)
    ensures LearnedFrom([], strict) == Blank()
  {
  }

  lemma CarriedIsLearned(ops: seq<Op>, strict: bool)
    requires LowOnly(ops) && LegibleJournal(After(ops), strict)
    ensures LearnedFrom(JournalWire.Packed(After(ops)), strict) == Told(Carry(After(ops)))
  {
    var j := After(ops);
    if HasData(j) {
      WireTellsCarried(ops, strict);
    } else {
      NothingLearned(strict);
      SameMemory(Told(Carry(j)), Blank());
    }
  }

  predicate ToldOnWire(wire: seq<byte>, c: Carried, strict: bool)
    requires |c.controls| == MAX_CHANNELS && |c.programs| == MAX_CHANNELS
  {
    LearnedFrom(wire, strict) == Told(c)
  }

  /** Every journal under way says on the wire what the protocol takes it to tell. */
  predicate AllToldOnWire(s: System, strict: bool)
    requires ValidState(s)
  {
    && (forall k :: 0 <= k < |s.sent| ==> ToldOnWire(s.sent[k].wire, s.sent[k].journal, strict))
    && (s.phase.Packed? ==> ToldOnWire(s.phase.wire, s.phase.journal, strict))
  }

  lemma StepTellsOnWire(s: System, t: Step, strict: bool)
    requires Invariant(s) && Enabled(s, t) && AllToldOnWire(s, strict) && (t.Begin? ==> LegibleJournal(s.journal, strict))
    ensures AllToldOnWire(Next(s, t), strict)
  {
    if t.Begin? {
      CarriedIsLearned(s.log, strict);
    }
  }

  lemma {:induction false} WireRun(s: System, ts: seq<Step>, strict: bool)
    requires Invariant(s) && Runs(s, ts) && CarefulRun(FULL_CARE, s, ts)
    requires AllToldOnWire(s, strict) && LegibleRun(s, ts, strict)
    ensures WireMemory(s, ts, s.receiver, strict) == Reach(s, ts).receiver
    decreases |ts|
  {
    if ts != [] {
      StepKeeps(s, ts[0]);
      StepTellsOnWire(s, ts[0], strict);
      WireRun(Next(s, ts[0]), ts[1..], strict);
    }
  }

  /** In every careful run in which the journals packed are ones that the reader gets, a receiver
      that reads the octets has at the end the controllers and programs that the sender had
      told by the last packet delivered, whatever packets were lost before it. */
  lemma WireRecoveryTheorem(log: seq<Op>, stale: set<u16>, ts: seq<Step>, strict: bool)
    requires AtOpening(log) && Harmless(stale)
    requires Runs(Opened(log, stale), ts) && CarefulRun(FULL_CARE, Opened(log, stale), ts)
    requires LegibleRun(Opened(log, stale), ts, strict)
    ensures var s := Reach(Opened(log, stale), ts);
            && s.delivered <= |s.sent|
            && WireMemory(Opened(log, stale), ts, Blank(), strict) == Knowledge(s.sent, s.delivered)
  {
    OpenedHolds(log, stale);
    WireRun(Opened(log, stale), ts, strict);
    RecoveryTheorem(log, stale, ts);
  }
}
