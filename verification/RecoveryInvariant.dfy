/** The invariant of the recovery protocol, that every step keeps it, and the recovery theorem. */
module RecoveryInvariant {
  import opened Bytes
  import opened Journal
  import opened JournalHistory
  import opened Recovery
  import opened RecoveryTold

  /** Learning `j` takes a receiver that knows the first `k` packets to the state after `n`. */
  predicate BridgesFrom(sent: seq<Packet>, j: Memory, k: nat, n: nat)
    requires k <= n <= |sent| && ValidMemory(j)
  {
    Overlay(Knowledge(sent, k), j) == Knowledge(sent, n)
  }

  /** So it does for any `k` from `low`. */
  predicate Bridges(sent: seq<Packet>, j: Memory, low: nat, n: nat)
    requires n <= |sent| && ValidMemory(j)
  {
    forall k :: low <= k <= n ==> BridgesFrom(sent, j, k, n)
  }

  function ToldBy(sent: seq<Packet>, i: nat): (m: Memory)
    requires ValidPackets(sent) && i < |sent|
    ensures ValidMemory(m)
  {
    Told(sent[i].journal)
  }

  /** Every packet not yet overtaken bridges to the state before its own event. */
  predicate PacketsBridge(sent: seq<Packet>, low: nat)
    requires ValidPackets(sent)
  {
    forall i :: low <= i < |sent| ==> Bridges(sent, ToldBy(sent, i), low, i)
  }

  /** Number of packets whose event is in the journal. */
  function Recorded(s: System): nat {
    if s.phase.Transmitted? && |s.sent| > 0 then |s.sent| - 1 else |s.sent|
  }

  /** The first packet carries 2, and the numbers go on from there in sixteen bits. */
  function WireSeq(k: nat): u16 {
    (k + 2) % 0x1_0000
  }

  predicate Numbered(sent: seq<Packet>) {
    forall k :: 0 <= k < |sent| ==> sent[k].wireSeq == WireSeq(k)
  }

  /** Numbers below 2 are those of no packet, and never pass the comparison once one was sent. */
  predicate AcksDelivered(acks: set<u16>, sent: seq<Packet>, delivered: nat)
    requires delivered <= |sent|
  {
    forall a :: a in acks && a >= 2 ==> exists k :: 0 <= k < delivered && sent[k].wireSeq == a
  }

  predicate Bookkeeping(s: System) {
    && ValidState(s)
    && s.journal == After(s.log) && LowOnly(s.log)
    && s.seqNo == 1 + |s.sent|
    && s.delivered <= |s.sent|
    && Numbered(s.sent)
    && AcksDelivered(s.acks, s.sent, s.delivered)
    && (s.decided ==> s.delivered == |s.sent|)
    && (s.phase.Transmitted? ==> |s.sent| > 0 && s.sent[|s.sent| - 1].event == s.phase.event)
    && (!s.phase.Idle? ==> s.phase.event.SendOther? || s.phase.event.channel < 15)
  }

  predicate Bridged(s: System)
    requires ValidState(s)
  {
    && Bridges(s.sent, Held(s.journal), s.delivered, Recorded(s))
    && Overlay(Knowledge(s.sent, Recorded(s)), Held(s.journal)) == Knowledge(s.sent, Recorded(s))
    && (s.phase.Packed? ==> Bridges(s.sent, Told(s.phase.journal), s.delivered, |s.sent|))
    && PacketsBridge(s.sent, s.delivered)
  }

  /** The receiver knows what the sender had told by the last packet delivered. */
  predicate Recovered(s: System)
    requires ValidState(s) && s.delivered <= |s.sent|
  {
    s.receiver == Knowledge(s.sent, s.delivered)
  }

  predicate Invariant(s: System) {
    Bookkeeping(s) && Bridged(s) && Recovered(s)
  }

  lemma {:induction false} KnowledgePrefix(sent: seq<Packet>, more: seq<Packet>, k: nat)
    requires k <= |sent|
    ensures Knowledge(sent + more, k) == Knowledge(sent, k)
  {
    if k > 0 {
      KnowledgePrefix(sent, more, k - 1);
      assert (sent + more)[k - 1] == sent[k - 1];
    }
  }

  lemma KnowledgeStep(sent: seq<Packet>, k: nat)
    requires k < |sent|
    ensures Knowledge(sent, k + 1) == Effect(Knowledge(sent, k), sent[k].event)
  {
  }

  lemma BridgesPrefix(sent: seq<Packet>, more: seq<Packet>, j: Memory, low: nat, n: nat)
    requires n <= |sent| && ValidMemory(j) && Bridges(sent, j, low, n)
    ensures Bridges(sent + more, j, low, n)
  {
    forall k | low <= k <= n
      ensures BridgesFrom(sent + more, j, k, n)
    {
      assert BridgesFrom(sent, j, k, n);
      KnowledgePrefix(sent, more, k);
      KnowledgePrefix(sent, more, n);
    }
  }

  lemma BeginKeeps(s: System, e: Event)
    requires Invariant(s) && Enabled(s, Begin(e)) && Careful(FULL_CARE, s, Begin(e))
    ensures Invariant(Next(s, Begin(e)))
  {
    CarryTellsHeld(s.log);
  }

  lemma AcksGrow(acks: set<u16>, sent: seq<Packet>, p: Packet, delivered: nat)
    requires delivered <= |sent| && AcksDelivered(acks, sent, delivered)
    ensures AcksDelivered(acks, sent + [p], delivered)
  {
    forall a | a in acks && a >= 2
      ensures exists k :: 0 <= k < delivered && (sent + [p])[k].wireSeq == a
    {
      var k :| 0 <= k < delivered && sent[k].wireSeq == a;
      assert (sent + [p])[k].wireSeq == a;
    }
  }

  lemma NumbersGrow(sent: seq<Packet>, p: Packet)
    requires Numbered(sent) && p.wireSeq == WireSeq(|sent|)
    ensures Numbered(sent + [p])
  {
  }

  lemma TransmitKeepsBooks(s: System)
    requires Invariant(s) && Enabled(s, Transmit) && Careful(FULL_CARE, s, Transmit)
    ensures Bookkeeping(Next(s, Transmit)) && Recovered(Next(s, Transmit))
  {
    var r, n := Next(s, Transmit), |s.sent|;
    assert r.sent == s.sent + [r.sent[n]];
    AcksGrow(s.acks, s.sent, r.sent[n], s.delivered);
    NumbersGrow(s.sent, r.sent[n]);
    KnowledgePrefix(s.sent, [r.sent[n]], s.delivered);
  }

  lemma PacketsBridgeGrow(sent: seq<Packet>, p: Packet, low: nat)
    requires ValidPackets(sent) && ValidPacket(p) && PacketsBridge(sent, low)
    requires Bridges(sent, Told(p.journal), low, |sent|)
    ensures PacketsBridge(sent + [p], low)
  {
    var r := sent + [p];
    forall i | low <= i < |r|
      ensures Bridges(r, ToldBy(r, i), low, i)
    {
      BridgesPrefix(sent, [p], if i < |sent| then ToldBy(sent, i) else Told(p.journal), low, i);
    }
  }

  lemma PacketsBridgeLater(sent: seq<Packet>, low: nat, later: nat)
    requires ValidPackets(sent) && PacketsBridge(sent, low) && low <= later
    ensures PacketsBridge(sent, later)
  {
    forall i | later <= i < |sent|
      ensures Bridges(sent, ToldBy(sent, i), later, i)
    {
      assert Bridges(sent, ToldBy(sent, i), low, i);
    }
  }

  lemma BridgesLater(sent: seq<Packet>, j: Memory, low: nat, later: nat, n: nat)
    requires n <= |sent| && ValidMemory(j) && Bridges(sent, j, low, n) && low <= later
    ensures Bridges(sent, j, later, n)
  {
  }

  lemma TransmitKeepsBridges(s: System)
    requires Invariant(s) && Enabled(s, Transmit)
    ensures Bridged(Next(s, Transmit))
  {
    var r, n := Next(s, Transmit), |s.sent|;
    var p := r.sent[n];
    assert r.sent == s.sent + [p];
    BridgesPrefix(s.sent, [p], Held(s.journal), s.delivered, n);
    KnowledgePrefix(s.sent, [p], n);
    PacketsBridgeGrow(s.sent, p, s.delivered);
  }

  /** Recording an event extends what the journal bridges to. */
  lemma RecordBridges(sent: seq<Packet>, j: Memory, e: Event, low: nat, n: nat)
    requires n < |sent| && sent[n].event == e && ValidMemory(j)
    requires Bridges(sent, j, low, n) && Overlay(Knowledge(sent, n), j) == Knowledge(sent, n)
    ensures Bridges(sent, Effect(j, e), low, n + 1)
    ensures Overlay(Knowledge(sent, n + 1), Effect(j, e)) == Knowledge(sent, n + 1)
  {
    KnowledgeStep(sent, n);
    var last := n + 1;
    forall k | low <= k <= last
      ensures BridgesFrom(sent, Effect(j, e), k, last)
    {
      assert k <= n ==> BridgesFrom(sent, j, k, n);
      OverlayEffect(Knowledge(sent, if k <= n then k else n), j, e);
    }
    OverlayEffect(Knowledge(sent, n), j, e);
  }

  lemma LogStep(log: seq<Op>, op: Op)
    requires LowOnly(log) && (op.Clear? || op.channel < 15)
    ensures LowOnly(log + [op]) && After(log + [op]) == Do(After(log), op)
  {
    assert (log + [op])[..|log|] == log;
  }

  lemma RecordKeepsBooks(s: System)
    requires Bookkeeping(s) && Enabled(s, Record)
    ensures Bookkeeping(Next(s, Record))
  {
    if !s.phase.event.SendOther? {
      LogStep(s.log, AsOp(s.phase.event, s.seqNo));
    }
  }

  lemma RecordHeld(s: System)
    requires ValidState(s) && Enabled(s, Record)
    ensures Held(Next(s, Record).journal) == Effect(Held(s.journal), s.phase.event)
  {
    if !s.phase.event.SendOther? {
      DoHeld(s.journal, s.phase.event, s.seqNo);
    }
  }

  lemma RecordKeepsBridges(s: System)
    requires Invariant(s) && Enabled(s, Record)
    ensures Bridged(Next(s, Record))
  {
    var r, e, n := Next(s, Record), s.phase.event, Recorded(s);
    assert r.sent == s.sent && r.delivered == s.delivered && r.phase == Idle && Recorded(r) == n + 1;
    RecordHeld(s);
    RecordBridges(s.sent, Held(s.journal), e, s.delivered, n);
  }

  lemma RecordKeeps(s: System)
    requires Invariant(s) && Enabled(s, Record)
    ensures Invariant(Next(s, Record))
  {
    RecordKeepsBooks(s);
    RecordKeepsBridges(s);
  }

  lemma DeliverKeepsBooks(s: System, k: nat)
    requires Bookkeeping(s) && Enabled(s, Deliver(k))
    ensures Bookkeeping(Next(s, Deliver(k)))
  {
    var r := Next(s, Deliver(k));
    assert r.sent[k].wireSeq in r.acks;
  }

  /** A packet delivered to a receiver that is up to date up to an earlier packet brings it up
      to date. */
  lemma DeliverRecovers(sent: seq<Packet>, receiver: Memory, low: nat, k: nat)
    requires low <= k < |sent| && ValidPackets(sent) && receiver == Knowledge(sent, low) && PacketsBridge(sent, low)
    ensures Receive(receiver, sent[k]) == Knowledge(sent, k + 1)
  {
    assert Bridges(sent, ToldBy(sent, k), low, k);
    assert BridgesFrom(sent, ToldBy(sent, k), low, k);
    KnowledgeStep(sent, k);
  }

  lemma DeliverKeepsBridges(s: System, k: nat)
    requires ValidState(s) && Bridged(s) && Enabled(s, Deliver(k))
    ensures Bridged(Next(s, Deliver(k)))
  {
    PacketsBridgeLater(s.sent, s.delivered, k + 1);
    BridgesLater(s.sent, Held(s.journal), s.delivered, k + 1, Recorded(s));
    if s.phase.Packed? {
      BridgesLater(s.sent, Told(s.phase.journal), s.delivered, k + 1, |s.sent|);
    }
  }

  lemma DeliverKeeps(s: System, k: nat)
    requires Invariant(s) && Enabled(s, Deliver(k))
    ensures Invariant(Next(s, Deliver(k)))
  {
    DeliverKeepsBooks(s, k);
    DeliverKeepsBridges(s, k);
    DeliverRecovers(s.sent, s.receiver, s.delivered, k);
  }

  /** A judgement in favour of clearing means that everything sent has been delivered. */
  lemma JudgementSound(s: System, ack: u16)
    requires Bookkeeping(s) && ack in s.acks && ack >= s.seqNo
    ensures s.delivered == |s.sent|
  {
    if ack >= 2 {
      var k :| 0 <= k < s.delivered && s.sent[k].wireSeq == ack;
      assert ack == WireSeq(k);
    }
  }

  lemma JudgeKeeps(s: System, ack: u16)
    requires Invariant(s) && Enabled(s, Judge(ack))
    ensures Invariant(Next(s, Judge(ack)))
  {
    if ack >= s.seqNo {
      JudgementSound(s, ack);
    }
  }

  lemma ClearKeepsBooks(s: System)
    requires Bookkeeping(s) && Enabled(s, ClearJournal)
    ensures Bookkeeping(Next(s, ClearJournal))
  {
    LogStep(s.log, Clear);
  }

  lemma BlankBridges(sent: seq<Packet>, low: nat, n: nat)
    requires n <= |sent| && low >= n
    ensures Bridges(sent, Blank(), low, n) && Overlay(Knowledge(sent, n), Blank()) == Knowledge(sent, n)
  {
    OverlayBlank(Knowledge(sent, n));
  }

  lemma ClearKeeps(s: System)
    requires Invariant(s) && Enabled(s, ClearJournal)
    ensures Invariant(Next(s, ClearJournal))
  {
    ClearKeepsBooks(s);
    ClearedHeld(s.journal);
    BlankBridges(s.sent, s.delivered, Recorded(s));
  }

  lemma StepKeeps(s: System, t: Step)
    requires Invariant(s) && Enabled(s, t) && Careful(FULL_CARE, s, t)
    ensures Invariant(Next(s, t))
  {
    match t {
      case Begin(e) => BeginKeeps(s, e);
      case Transmit => TransmitKeepsBooks(s); TransmitKeepsBridges(s);
      case Record => RecordKeeps(s);
      case Deliver(k) => DeliverKeeps(s, k);
      case Judge(ack) => JudgeKeeps(s, ack);
      case ClearJournal => ClearKeeps(s);
    }
  }

  lemma OpenedHeld(log: seq<Op>)
    requires AtOpening(log)
    ensures Held(After(log)) == Blank()
  {
    if log == [] {
      SameMemory(Held(Create()), Blank());
    } else {
      ClearedHeld(After(log[..|log| - 1]));
    }
  }

  lemma OpenedHolds(log: seq<Op>, stale: set<u16>)
    requires AtOpening(log) && Harmless(stale)
    ensures Invariant(Opened(log, stale))
  {
    OpenedHeld(log);
    OverlayBlank(Blank());
  }

  lemma {:induction false} RunKeeps(s: System, ts: seq<Step>)
    requires Invariant(s) && Runs(s, ts) && CarefulRun(FULL_CARE, s, ts)
    ensures Invariant(Reach(s, ts))
    decreases |ts|
  {
    if ts != [] {
      StepKeeps(s, ts[0]);
      RunKeeps(Next(s, ts[0]), ts[1..]);
    }
  }

  /** The recovery theorem. In every careful run of sending, loss, delivery in order and feedback,
      from the opening of a session in a new or a reused slot, the receiver's controllers and
      programs are at all times those the sender had told by the last packet delivered,
      whatever packets were lost before it; and the journal is only cleared when every packet
      sent has been delivered. */
  lemma RecoveryTheorem(log: seq<Op>, stale: set<u16>, ts: seq<Step>)
    requires AtOpening(log) && Harmless(stale)
    requires Runs(Opened(log, stale), ts) && CarefulRun(FULL_CARE, Opened(log, stale), ts)
    ensures var s := Reach(Opened(log, stale), ts);
            && s.delivered <= |s.sent|
            && s.receiver == Knowledge(s.sent, s.delivered)
            && (Enabled(s, ClearJournal) ==> s.delivered == |s.sent|)
  {
    OpenedHolds(log, stale);
    RunKeeps(Opened(log, stale), ts);
  }
}
