/** Each condition of the recovery theorem is needed: a run that keeps all the others and
    breaks it leaves the receiver with something else than the sender told it. */
module RecoveryLimits {
  import opened Bytes
  import opened Journal
  import opened JournalHistory
  import opened Recovery
  import opened RecoveryTold
  import opened RecoveryInvariant
  import ChapterC
  import JournalWire

  predicate UpToDate(s: System)
    requires ValidState(s)
  {
    s.delivered <= |s.sent| && s.receiver == Knowledge(s.sent, s.delivered)
  }

  /** Do all runs from these openings that keep these conditions keep the receiver up to date? */
  ghost predicate SafeFrom(c: Care, stale: set<u16>) {
    forall log: seq<Op>, ts :: AtOpening(log) && Runs(Opened(log, stale), ts) && CarefulRun(c, Opened(log, stale), ts) ==>
      UpToDate(Reach(Opened(log, stale), ts))
  }

  ghost predicate Safe(c: Care) {
    SafeFrom(c, {})
  }

  /** A new slot. */
  function Start(): (s: System)
    ensures AtRest(s)
  {
    Opened([], {})
  }

  predicate LeadsBy(c: Care, s: System, ts: seq<Step>, r: System) {
    ValidState(s) && Runs(s, ts) && CarefulRun(c, s, ts) && Reach(s, ts) == r
  }

  /** There is a careful run from `s` to `r`. */
  ghost predicate Leads(c: Care, s: System, r: System) {
    exists ts :: LeadsBy(c, s, ts, r)
  }

  lemma {:induction false} Concat(c: Care, s: System, a: seq<Step>, m: System, b: seq<Step>, r: System)
    requires LeadsBy(c, s, a, m) && LeadsBy(c, m, b, r)
    ensures LeadsBy(c, s, a + b, r)
    decreases |a|
  {
    if a == [] {
      assert a + b == b;
    } else {
      assert (a + b)[1..] == a[1..] + b;
      Concat(c, Next(s, a[0]), a[1..], m, b, r);
    }
  }

  lemma Compose(c: Care, s: System, m: System, r: System)
    requires Leads(c, s, m) && Leads(c, m, r)
    ensures Leads(c, s, r)
  {
    var a :| LeadsBy(c, s, a, m);
    var b :| LeadsBy(c, m, b, r);
    Concat(c, s, a, m, b, r);
  }

  lemma Stay(c: Care, s: System)
    requires ValidState(s)
    ensures Leads(c, s, s)
  {
    assert LeadsBy(c, s, [], s);
  }

  lemma One(c: Care, s: System, t: Step)
    requires ValidState(s) && Enabled(s, t) && Careful(c, s, t)
    ensures Leads(c, s, Next(s, t))
  {
    var r := Next(s, t);
    assert [t][1..] == [];
    assert LeadsBy(c, r, [], r);
    assert LeadsBy(c, s, [t], r);
  }

  /** One more step. */
  lemma Then(c: Care, s: System, m: System, t: Step)
    requires Leads(c, s, m) && ValidState(m) && Enabled(m, t) && Careful(c, m, t)
    ensures Leads(c, s, Next(m, t))
  {
    One(c, m, t);
    Compose(c, s, m, Next(m, t));
  }

  /** A careful run from a new slot that ends with a receiver not up to date. */
  lemma Unsafe(c: Care, stale: set<u16>, s: System)
    requires ValidState(s) && Leads(c, Opened([], stale), s) && !UpToDate(s)
    ensures !SafeFrom(c, stale)
  {
    var log: seq<Op> := [];
    var ts :| LeadsBy(c, Opened(log, stale), ts, s);
    assert AtOpening(log) && Runs(Opened(log, stale), ts);
  }

  predicate AtRest(s: System) {
    ValidState(s) && s.phase.Idle?
  }

  /** The sender between two commands, able to send the next one carefully. */
  predicate CanSend(c: Care, s: System, e: Event) {
    && AtRest(s) && Careful(c, s, Begin(e)) && (c.unwrapped ==> s.seqNo < 0xFFFF_FFFF) && (c.atomic ==> !s.decided)
  }

  function Following(seqNo: u32): u32 {
    (seqNo + 1) % 0x1_0000_0000
  }

  function JournalAfter(s: System, e: Event): (j: Journal.State)
    requires ValidState(s)
    ensures Valid(j)
  {
    if e.SendOther? then s.journal else Do(s.journal, AsOp(e, Following(s.seqNo)))
  }

  /** The state after sending one whole command. */
  function AfterSend(s: System, e: Event): (r: System)
    requires AtRest(s)
    ensures AtRest(r) && |r.sent| == |s.sent| + 1
    ensures r.seqNo == Following(s.seqNo) && r.journal == JournalAfter(s, e)
    ensures r.delivered == s.delivered && r.receiver == s.receiver && r.acks == s.acks && r.decided == s.decided
  {
    var n := Following(s.seqNo);
    s.(seqNo := n, sent := s.sent + [Packet(n % 0x1_0000, JournalWire.Packed(s.journal), Carry(s.journal), e)], journal := JournalAfter(s, e),
       log := if e.SendOther? then s.log else s.log + [AsOp(e, n)])
  }

  lemma StepsOfSend(s: System, e: Event)
    requires AtRest(s)
    ensures var s1 := Next(s, Begin(e));
            && s1.seqNo == s.seqNo && s1.decided == s.decided && Enabled(s1, Transmit)
            && var s2 := Next(s1, Transmit); Enabled(s2, Record) && Next(s2, Record) == AfterSend(s, e)
  {
  }

  lemma SendOne(c: Care, s: System, e: Event)
    requires CanSend(c, s, e)
    ensures Leads(c, s, AfterSend(s, e))
  {
    var s1 := Next(s, Begin(e));
    StepsOfSend(s, e);
    One(c, s, Begin(e));
    Then(c, s, s1, Transmit);
    Then(c, s, Next(s1, Transmit), Record);
  }

  /** One more command sent. */
  lemma ThenSend(c: Care, s: System, m: System, e: Event)
    requires Leads(c, s, m) && CanSend(c, m, e)
    ensures Leads(c, s, AfterSend(m, e))
  {
    SendOne(c, m, e);
    Compose(c, s, m, AfterSend(m, e));
  }

  /** What the sender has told by its last packet. */
  function LastTold(s: System): Memory {
    Knowledge(s.sent, |s.sent|)
  }

  /** What sending a command changes. */
  predicate SentFrom(s: System, e: Event, r: System) {
    && AtRest(s) && AtRest(r)
    && |r.sent| == |s.sent| + 1 && r.seqNo == Following(s.seqNo) && r.journal == JournalAfter(s, e)
    && r.delivered == s.delivered && r.receiver == s.receiver && r.acks == s.acks && r.decided == s.decided
    && LastTold(r) == Effect(LastTold(s), e)
  }

  lemma ToldAfterSend(s: System, e: Event)
    requires AtRest(s)
    ensures SentFrom(s, e, AfterSend(s, e))
  {
    var r := AfterSend(s, e);
    KnowledgePrefix(s.sent, r.sent[|s.sent|..], |s.sent|);
    assert r.sent == s.sent + r.sent[|s.sent|..];
    KnowledgeStep(r.sent, |s.sent|);
  }

  lemma NoDataTellsNothing(j: Journal.State)
    requires Valid(j) && !HasData(j)
    ensures Told(Carry(j)) == Blank()
  {
    SameMemory(Told(Carry(j)), Blank());
  }

  /** Send a command and deliver it, when the journal is empty. */
  function AfterDelivery(s: System, e: Event): (r: System)
    requires AtRest(s) && s.delivered <= |s.sent|
    ensures AtRest(r)
  {
    Next(AfterSend(s, e), Deliver(|s.sent|))
  }

  lemma SendDelivered(c: Care, s: System, m: System, e: Event)
    requires Leads(c, s, m) && CanSend(c, m, e) && m.delivered <= |m.sent|
    ensures Leads(c, s, AfterDelivery(m, e))
  {
    ThenSend(c, s, m, e);
    Then(c, s, AfterSend(m, e), Deliver(|m.sent|));
  }

  lemma AfterBareDelivery(s: System, e: Event)
    requires AtRest(s) && !HasData(s.journal) && s.delivered <= |s.sent|
    ensures var r := AfterDelivery(s, e);
            && r.seqNo == Following(s.seqNo) && r.journal == JournalAfter(s, e)
            && r.receiver == Effect(s.receiver, e) && LastTold(r) == Effect(LastTold(s), e)
            && r.delivered == |r.sent| == |s.sent| + 1 && r.decided == s.decided
            && r.acks == s.acks + {r.seqNo % 0x1_0000}
  {
    NoDataTellsNothing(s.journal);
    OverlayBlank(s.receiver);
    ToldAfterSend(s, e);
  }

  // Room in the journal.

  predicate OnlySeven(j: Journal.State)
    requires Valid(j)
  {
    forall i: nibble :: ControlsOf(j, i).Keys <= {7}
  }

  lemma OnlySevenIsRoomy(j: Journal.State)
    requires Valid(j) && OnlySeven(j)
    ensures Roomy(j)
  {
    forall i: nibble
      ensures HasRoom(ControlsOf(j, i))
    {
      var n: byte := 0;
      assert n < ChapterC.CONTROLLERS && n !in ControlsOf(j, i);
    }
  }

  lemma SevenStays(s: System, e: Event)
    requires AtRest(s) && OnlySeven(s.journal) && (e.SendOther? || (e.SendControl? && e.number == 7))
    ensures OnlySeven(JournalAfter(s, e)) && Roomy(JournalAfter(s, e))
  {
    if !e.SendOther? {
      forall i: nibble
        ensures ControlsOf(JournalAfter(s, e), i).Keys <= {7}
      {
        DoControls(s.journal, AsOp(e, Following(s.seqNo)), i);
      }
    }
    OnlySevenIsRoomy(JournalAfter(s, e));
  }

  lemma ClearedIsEmpty(j: Journal.State)
    requires Valid(j)
    ensures OnlySeven(Cleared(j)) && Roomy(Cleared(j)) && !HasData(Cleared(j))
  {
    forall i: nibble
      ensures ControlsOf(Cleared(j), i).Keys <= {7}
    {
      DoControls(j, Clear, i);
    }
    OnlySevenIsRoomy(Cleared(j));
  }

  const FIRST := SendControl(0, 7, 1)
  const SECOND := SendControl(0, 7, 2)

  /** A controller was set to 1 and delivered, and acknowledged by 2. */
  predicate FirstDelivered(s: System) {
    && AtRest(s) && s.seqNo == 2 && !s.decided && 2 in s.acks && s.delivered == |s.sent| == 1
    && s.receiver == Effect(Blank(), FIRST) && LastTold(s) == Effect(Blank(), FIRST)
    && OnlySeven(s.journal) && Roomy(s.journal)
  }

  lemma DeliverFirst()
    ensures FirstDelivered(AfterDelivery(Start(), FIRST))
  {
    EmptyIsRoomy();
    SevenStays(Start(), FIRST);
    AfterBareDelivery(Start(), FIRST);
    assert LastTold(Start()) == Blank();
  }

  /** The opening both runs share. */
  lemma Opening(c: Care) returns (s: System)
    ensures Leads(c, Start(), s) && FirstDelivered(s)
  {
    EmptyIsRoomy();
    Stay(c, Start());
    SendDelivered(c, Start(), Start(), FIRST);
    DeliverFirst();
    s := AfterDelivery(Start(), FIRST);
  }

  /** Set it to 2 and lose the packet. */
  lemma LoseSecond(c: Care, s: System, m: System) returns (r: System)
    requires Leads(c, s, m) && CanSend(c, m, SECOND) && OnlySeven(m.journal)
    requires m.receiver == Effect(Blank(), FIRST) && LastTold(m) == m.receiver
    ensures Leads(c, s, r) && SentFrom(m, SECOND, r) && r.receiver != LastTold(r) && Roomy(r.journal)
  {
    r := AfterSend(m, SECOND);
    ThenSend(c, s, m, SECOND);
    ToldAfterSend(m, SECOND);
    SevenStays(m, SECOND);
    SecondNotFirst();
  }

  lemma SecondNotFirst()
    ensures Effect(Effect(Blank(), FIRST), SECOND) != Effect(Blank(), FIRST)
  {
    assert Effect(Effect(Blank(), FIRST), SECOND).controls[0][7] == 2;
    assert Effect(Blank(), FIRST).controls[0][7] == 1;
  }

  /** Clear the journal while the receiver lags behind, and deliver one more packet. */
  lemma ClearAndDeliver(c: Care, stale: set<u16>, m: System)
    requires Leads(c, Opened([], stale), m) && AtRest(m) && m.decided && m.delivered <= |m.sent|
    requires (c.unwrapped ==> m.seqNo < 0xFFFF_FFFF) && m.receiver != LastTold(m)
    ensures !SafeFrom(c, stale)
  {
    var cleared := Next(m, ClearJournal);
    ClearedIsEmpty(m.journal);
    Then(c, Opened([], stale), m, ClearJournal);
    SendDelivered(c, Opened([], stale), cleared, SendOther);
    AfterBareDelivery(cleared, SendOther);
    Unsafe(c, stale, AfterDelivery(cleared, SendOther));
  }

  /** A transmission between the halves of a responder call. */
  lemma SplitCallLoses(c: Care)
    requires !c.atomic
    ensures !Safe(c)
  {
    var s1 := Opening(c);
    var s2 := s1.(decided := true);
    assert Next(s1, Judge(2)) == s2;
    Then(c, Start(), s1, Judge(2));
    var s3 := LoseSecond(c, Start(), s2);
    ClearAndDeliver(c, {}, s3);
  }

  /** Only the sequence number has changed. */
  predicate Counted(s: System, r: System, n: nat) {
    && AtRest(s) && AtRest(r)
    && r.seqNo == (s.seqNo + n) % 0x1_0000_0000 && |r.sent| == |s.sent| + n
    && r.journal == s.journal && r.receiver == s.receiver && r.acks == s.acks && r.decided == s.decided
    && r.delivered == s.delivered && LastTold(r) == LastTold(s)
  }

  lemma CountsOneMore(s: System, m: System, n: nat, r: System)
    requires Counted(s, m, n) && SentFrom(m, SendOther, r)
    ensures Counted(s, r, n + 1)
  {
    Residue(s.seqNo, n);
  }

  lemma {:induction false} SendOthers(c: Care, s: System, m: System, n: nat) returns (r: System)
    requires Leads(c, s, m) && AtRest(m) && !c.unwrapped && !m.decided && Roomy(m.journal)
    ensures Leads(c, s, r) && Counted(m, r, n)
    decreases n
  {
    if n == 0 {
      r := m;
    } else {
      var before := SendOthers(c, s, m, n - 1);
      ThenSend(c, s, before, SendOther);
      ToldAfterSend(before, SendOther);
      r := AfterSend(before, SendOther);
      CountsOneMore(m, before, n - 1, r);
    }
  }

  lemma Residue(a: u32, n: nat)
    ensures ((a + n) % 0x1_0000_0000 + 1) % 0x1_0000_0000 == (a + (n + 1)) % 0x1_0000_0000
  {
  }

  /** Enough packets bring the sequence number round to zero, where every old acknowledgement
      is high enough. */
  lemma RoundToZero(c: Care, s: System)
    requires Leads(c, Start(), s) && AtRest(s) && !c.unwrapped && !s.decided && Roomy(s.journal)
    requires s.seqNo == 3 && 2 in s.acks && s.delivered <= |s.sent| && s.receiver != LastTold(s)
    ensures !Safe(c)
  {
    var r := SendOthers(c, Start(), s, 0xFFFF_FFFD);
    assert r.seqNo == 0;
    Then(c, Start(), r, Judge(2));
    ClearAndDeliver(c, {}, Next(r, Judge(2)));
  }

  lemma WrapLoses(c: Care)
    requires !c.unwrapped
    ensures !Safe(c)
  {
    var s := Opening(c);
    var r := LoseSecond(c, Start(), s);
    RoundToZero(c, r);
  }

  const LAST := SendControl(15, 7, 1)

  lemma LastCounts(j: Journal.State, seqNo: u32, n: nat)
    requires Valid(j) && j.header.totchan == n % 256
    ensures Do(j, AsOp(LAST, seqNo)).header.totchan == (n + 1) % 256
  {
    DoCounts(j, AsOp(LAST, seqNo));
    CountsUp(j.header.totchan, n);
  }

  /** After `n` adds of the same controller on channel 15. */
  predicate LastSent(s: System, n: nat) {
    && AtRest(s) && s.seqNo == 1 + n && !s.decided && s.delivered == 0 && |s.sent| == n
    && OnlySeven(s.journal) && s.journal.header.totchan == n % 256
    && s.receiver == Blank() && (n > 0 ==> LastTold(s).controls[15] == map[7 := 1])
  }

  lemma LastSentMore(s: System, n: nat, r: System)
    requires LastSent(s, n) && n < 256 && SentFrom(s, LAST, r)
    ensures LastSent(r, n + 1)
  {
    OnlySevenIsRoomy(s.journal);
    SevenStays(s, LAST);
    LastCounts(s.journal, Following(s.seqNo), n);
    assert Effect(LastTold(s), LAST).controls[15] == LastTold(s).controls[15][7 := 1];
    if n == 0 {
      assert LastTold(s) == Blank();
    }
  }

  /** Adds on channel 15, each of which counts one more channel. */
  lemma {:induction false} SendLast(c: Care, n: nat) returns (r: System)
    requires !c.lowOnly && n <= 256
    ensures Leads(c, Start(), r) && LastSent(r, n)
    decreases n
  {
    if n == 0 {
      r := Start();
      Stay(c, r);
      EmptyIsRoomy();
    } else {
      var before := SendLast(c, n - 1);
      OnlySevenIsRoomy(before.journal);
      ThenSend(c, Start(), before, LAST);
      ToldAfterSend(before, LAST);
      r := AfterSend(before, LAST);
      LastSentMore(before, n - 1, r);
    }
  }

  /** After 256 adds on channel 15 the channel count is zero and the journal is not sent. */
  lemma LastChannelLoses(c: Care)
    requires !c.lowOnly
    ensures !Safe(c)
  {
    var s := SendLast(c, 256);
    OnlySevenIsRoomy(s.journal);
    SendDelivered(c, Start(), s, SendOther);
    NothingDelivered(s);
    Unsafe(c, {}, AfterDelivery(s, SendOther));
  }

  lemma NothingDelivered(s: System)
    requires LastSent(s, 256)
    ensures !UpToDate(AfterDelivery(s, SendOther))
  {
    AfterBareDelivery(s, SendOther);
    assert 7 !in Blank().controls[15] && 7 in LastTold(s).controls[15];
  }

  /** After controllers 0, 1, … of channel 0 were each set to 1. */
  predicate ControllersSent(s: System, n: nat) {
    && AtRest(s) && s.seqNo == 1 + n && !s.decided && s.delivered == 0 && |s.sent| == n
    && ControllersHeld(s.journal, n)
    && s.receiver == Blank() && (n > 0 ==> 0 in LastTold(s).controls[0] && LastTold(s).controls[0][0] == 1)
  }

  /** What the journal then holds. */
  predicate ControllersHeld(j: Journal.State, n: nat)
    requires Valid(j)
  {
    && (forall k: byte :: k < n ==> k in ControlsOf(j, 0))
    && j.header.totchan == (if n > 0 then 1 else 0) && (Marked(j, 0) <==> n > 0)
  }

  lemma ControllerHeld(j: Journal.State, n: seven, seqNo: u32)
    requires Valid(j) && ControllersHeld(j, n)
    ensures ControllersHeld(Do(j, AsOp(SendControl(0, n, 1), seqNo)), n + 1)
  {
    var op := AsOp(SendControl(0, n, 1), seqNo);
    DoControls(j, op, 0);
    DoCounts(j, op);
    DoMarks(j, op, 0);
  }

  lemma ControllerTold(m: Memory, n: seven)
    requires ValidMemory(m) && (n > 0 ==> 0 in m.controls[0] && m.controls[0][0] == 1)
    ensures var r := Effect(m, SendControl(0, n, 1)); 0 in r.controls[0] && r.controls[0][0] == 1
  {
  }

  lemma ControllersSentMore(s: System, n: seven, r: System)
    requires ControllersSent(s, n) && SentFrom(s, SendControl(0, n, 1), r)
    ensures ControllersSent(r, n + 1)
  {
    ControllerHeld(s.journal, n, Following(s.seqNo));
    ControllerTold(LastTold(s), n);
  }

  lemma {:induction false} SendControllers(c: Care, n: nat) returns (r: System)
    requires !c.roomy && n <= 128
    ensures Leads(c, Start(), r) && ControllersSent(r, n)
    decreases n
  {
    if n == 0 {
      r := Start();
      Stay(c, r);
    } else {
      var before := SendControllers(c, n - 1);
      var e := SendControl(0, n - 1, 1);
      ThenSend(c, Start(), before, e);
      ToldAfterSend(before, e);
      r := AfterSend(before, e);
      ControllersSentMore(before, n - 1, r);
    }
  }

  lemma {:induction false} ZerosSetZero(m: map<byte, byte>, n: nat)
    ensures ChapterC.DecodeLogs(seq(2 * n, i => 0)).Some?
    ensures n > 0 ==> var es := ChapterC.DecodeLogs(seq(2 * n, i => 0)).value;
                      0 in ChapterC.Apply(m, es) && ChapterC.Apply(m, es)[0] == 0
    decreases n
  {
    var s: seq<byte> := seq(2 * n, i => 0);
    if n > 0 {
      assert s[2..] == seq(2 * (n - 1), i => 0);
      ZerosSetZero(m[0 := 0], n - 1);
      var rest := ChapterC.DecodeLogs(s[2..]).value;
      assert ([ChapterC.Entry(0, 0)] + rest)[1..] == rest;
      if n == 1 {
        assert s[2..] == [] && rest == [];
      }
    }
  }

  /** A full chapter tells that controller 0 is 0. */
  lemma FullChapterTellsZero(c: ChapterC.Chapter)
    requires ChapterC.Valid(c) && forall k: byte :: k < ChapterC.CONTROLLERS ==> k in ChapterC.Values(c)
    ensures var m := ReadControls(ChapterC.Packed(c)); 0 in m && m[0] == 0
  {
    forall k | 0 <= k < |c.logs|
      ensures ChapterC.IsActive(c.logs, k)
    {
      assert k in ChapterC.Values(c);
    }
    ChapterC.ActiveCount(c.logs, 0);
    var s := ChapterC.Packed(c);
    assert s[1..] == seq(256, i => 0);
    ZerosSetZero(map[], 128);
  }

  lemma FullChannelTellsZero(j: Journal.State)
    requires Valid(j) && HasData(j) && forall k: byte :: k < 128 ==> k in ControlsOf(j, 0)
    ensures 0 in Told(Carry(j)).controls[0] && Told(Carry(j)).controls[0][0] == 0
  {
    assert 0 in ControlsOf(j, 0);
    FullChapterTellsZero(ChannelOf(j, 0).c.value);
    assert Carry(j).controls[0] == PackedControls(j, 0);
  }

  /** A packet that carries a full chapter, delivered to a receiver that knows nothing. */
  lemma FullDelivered(s: System)
    requires AtRest(s) && s.delivered <= |s.sent| && s.receiver == Blank()
    requires HasData(s.journal) && forall k: byte :: k < 128 ==> k in ControlsOf(s.journal, 0)
    requires 0 in LastTold(s).controls[0] && LastTold(s).controls[0][0] == 1
    ensures !UpToDate(AfterDelivery(s, SendOther))
  {
    ToldAfterSend(s, SendOther);
    FullChannelTellsZero(s.journal);
    assert AfterDelivery(s, SendOther).receiver == Overlay(Blank(), Told(Carry(s.journal)));
    assert AfterDelivery(s, SendOther).receiver.controls[0][0] == 0;
  }

  /** A journal with all 128 controllers of a channel. */
  lemma FullChannelLoses(c: Care)
    requires !c.roomy
    ensures !Safe(c)
  {
    var s := SendControllers(c, 128);
    SendDelivered(c, Start(), s, SendOther);
    FullDelivered(s);
    Unsafe(c, {}, AfterDelivery(s, SendOther));
  }

  /** Recovery holds in all runs that keep a choice of the conditions, from the opening of a
      session in any slot, exactly when all four are kept. */
  lemma RecoveryExactly(c: Care)
    ensures Safe(c) <==> c == FULL_CARE
  {
    if !c.atomic {
      SplitCallLoses(c);
    } else if !c.unwrapped {
      WrapLoses(c);
    } else if !c.lowOnly {
      LastChannelLoses(c);
    } else if !c.roomy {
      FullChannelLoses(c);
    } else {
      FullCareIsSafe({});
    }
  }

  lemma FullCareIsSafe(stale: set<u16>)
    requires Harmless(stale)
    ensures SafeFrom(FULL_CARE, stale)
  {
    forall log: seq<Op>, ts | AtOpening(log) && Runs(Opened(log, stale), ts) && CarefulRun(FULL_CARE, Opened(log, stale), ts)
      ensures UpToDate(Reach(Opened(log, stale), ts))
    {
      RecoveryTheorem(log, stale, ts);
    }
  }

  /** An acknowledgement of the session before clears what the new one has not yet delivered. */
  lemma StaleAckLoses(stale: set<u16>, a: u16)
    requires a in stale && a >= 2
    ensures !SafeFrom(FULL_CARE, stale)
  {
    var c, s := FULL_CARE, Opened([], stale);
    EmptyIsRoomy();
    Stay(c, s);
    ThenSend(c, s, s, FIRST);
    ToldAfterSend(s, FIRST);
    var sent := AfterSend(s, FIRST);
    Then(c, s, sent, Judge(a));
    assert Effect(Blank(), FIRST).controls[0][7] == 1;
    ClearAndDeliver(c, stale, Next(sent, Judge(a)));
  }

  lemma EmptyIsRoomy()
    ensures OnlySeven(Create()) && Roomy(Create())
  {
    forall i: nibble
      ensures ControlsOf(Create(), i).Keys <= {7}
    {
    }
    OnlySevenIsRoomy(Create());
  }

  /** Recovery holds in all careful runs of a session exactly when no acknowledgement of a packet
      of the session before it can still arrive: the first packet is numbered 2. */
  lemma StaleAcksExactly(stale: set<u16>)
    ensures SafeFrom(FULL_CARE, stale) <==> Harmless(stale)
  {
    if a :| a in stale && a >= 2 {
      StaleAckLoses(stale, a);
    } else {
      FullCareIsSafe(stale);
    }
  }
}
