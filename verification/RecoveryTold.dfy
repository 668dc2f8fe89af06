/** What the journal of a packet tells a receiver is what the journal holds. */
module RecoveryTold {
  import opened Bytes
  import opened Journal
  import opened JournalHistory
  import opened Recovery
  import ChapterC
  import ChapterP

  function Held(j: Journal.State): (m: Memory)
    requires Valid(j)
    ensures ValidMemory(m)
  {
    Memory(seq(MAX_CHANNELS, i requires 0 <= i < MAX_CHANNELS => ControlsOf(j, i)),
           seq(MAX_CHANNELS, i requires 0 <= i < MAX_CHANNELS => ProgramOf(j, i)))
  }

  /** Nothing was recorded on channel 15 since the last reset. */
  predicate LowOnly(ops: seq<Op>) {
    AddsOnLast(ops) == 0
  }

  lemma {:induction false} HeldIsTouched(ops: seq<Op>, i: nibble)
    requires LowOnly(ops)
    ensures LatestControls(ops, i) != map[] || LatestProgram(ops, i).Some? ==> i in TouchedLow(ops)
    decreases |ops|
  {
    if ops != [] && !ops[|ops| - 1].Clear? {
      HeldIsTouched(ops[..|ops| - 1], i);
    }
  }

  lemma TotchanIsTouched(ops: seq<Op>)
    requires LowOnly(ops)
    ensures After(ops).header.totchan == |TouchedLow(ops)| <= 15
  {
    TouchedAtMost(ops);
    CountInvariant(ops);
    SmallResidue(|TouchedLow(ops)|);
  }

  lemma SmallResidue(n: nat)
    requires n <= 15
    ensures n % 256 == n
  {
  }

  lemma NoDataUntouched(ops: seq<Op>)
    requires LowOnly(ops) && !HasData(After(ops))
    ensures TouchedLow(ops) == {}
  {
    TotchanIsTouched(ops);
  }

  lemma NoDataHoldsNothing(ops: seq<Op>)
    requires LowOnly(ops) && !HasData(After(ops))
    ensures Held(After(ops)) == Blank()
  {
    NoDataUntouched(ops);
    forall i: nibble
      ensures ControlsOf(After(ops), i) == map[] && ProgramOf(After(ops), i) == None
    {
      HeldIsTouched(ops, i);
      ControlsInvariant(ops, i);
      ProgramInvariant(ops, i);
    }
    assert Held(After(ops)).controls == Blank().controls && Held(After(ops)).programs == Blank().programs;
  }

  lemma ChapterTold(c: ChapterC.Chapter)
    requires ChapterC.Valid(c) && HasRoom(ChapterC.Values(c))
    ensures ReadControls(ChapterC.Packed(c)) == ChapterC.Values(c)
  {
    var n: byte :| n < ChapterC.CONTROLLERS && n !in ChapterC.Values(c);
    assert !ChapterC.IsActive(c.logs, n);
    ChapterC.ActiveCount(c.logs, 0);
    ChapterC.DecodePackedExact(c);
    ChapterC.ApplySetsValues(map[], c);
    assert map[] + ChapterC.Values(c) == ChapterC.Values(c);
  }

  lemma ChannelTold(j: Journal.State, i: nibble)
    requires Valid(j) && HasRoom(ControlsOf(j, i))
    ensures ReadControls(PackedControls(j, i)) == ControlsOf(j, i)
    ensures ReadProgram(PackedProgram(j, i)) == ProgramOf(j, i)
  {
    var ch := ChannelOf(j, i);
    if ch.c.Some? {
      ChapterTold(ch.c.value);
    }
    if ch.header.hasP && ch.p.Some? {
      ChapterP.RoundTrip(ch.p.value, []);
      assert ChapterP.Packed(ch.p.value) + [] == ChapterP.Packed(ch.p.value);
    }
  }

  lemma CarryTellsHeld(ops: seq<Op>)
    requires LowOnly(ops) && Roomy(After(ops))
    ensures Told(Carry(After(ops))) == Held(After(ops))
  {
    var j := After(ops);
    if HasData(j) {
      forall i: nibble
        ensures ReadControls(PackedControls(j, i)) == ControlsOf(j, i) && ReadProgram(PackedProgram(j, i)) == ProgramOf(j, i)
      {
        ChannelTold(j, i);
      }
      assert Told(Carry(j)).controls == Held(j).controls && Told(Carry(j)).programs == Held(j).programs;
    } else {
      NoDataHoldsNothing(ops);
      assert Told(Carry(j)).controls == Blank().controls && Told(Carry(j)).programs == Blank().programs;
    }
  }

  lemma DoHeld(j: Journal.State, e: Event, seqNo: u32)
    requires Valid(j) && !e.SendOther?
    ensures Held(Do(j, AsOp(e, seqNo))) == Effect(Held(j), e)
  {
    var op := AsOp(e, seqNo);
    forall i: nibble
      ensures ControlsOf(Do(j, op), i) == Effect(Held(j), e).controls[i]
      ensures ProgramOf(Do(j, op), i) == Effect(Held(j), e).programs[i]
    {
      DoControls(j, op, i);
      DoProgram(j, op, i);
    }
    assert Held(Do(j, op)).controls == Effect(Held(j), e).controls;
    assert Held(Do(j, op)).programs == Effect(Held(j), e).programs;
  }

  lemma ClearedHeld(j: Journal.State)
    requires Valid(j)
    ensures Held(Cleared(j)) == Blank()
  {
    forall i: nibble
      ensures ControlsOf(Cleared(j), i) == map[] && ProgramOf(Cleared(j), i) == None
    {
      DoControls(j, Clear, i);
      DoProgram(j, Clear, i);
    }
    assert Held(Cleared(j)).controls == Blank().controls && Held(Cleared(j)).programs == Blank().programs;
  }

  // Algebra of overlays.

  lemma SameMemory(a: Memory, b: Memory)
    requires ValidMemory(a) && ValidMemory(b)
    requires forall i: nibble :: a.controls[i] == b.controls[i] && a.programs[i] == b.programs[i]
    ensures a == b
  {
    assert a.controls == b.controls && a.programs == b.programs;
  }

  lemma OverlayBlank(m: Memory)
    requires ValidMemory(m)
    ensures Overlay(m, Blank()) == m
  {
    forall i: nibble
      ensures Overlay(m, Blank()).controls[i] == m.controls[i]
    {
      assert m.controls[i] + map[] == m.controls[i];
    }
    SameMemory(Overlay(m, Blank()), m);
  }

  lemma OverlayAssign(a: map<byte, byte>, b: map<byte, byte>, number: byte, value: byte)
    ensures a + Assign(b, number, value) == Assign(a + b, number, value)
    ensures Assign(a, number, value) + Assign(b, number, value) == Assign(a + b, number, value)
  {
  }

  lemma OverlayEffect(m: Memory, j: Memory, e: Event)
    requires ValidMemory(m) && ValidMemory(j)
    ensures Overlay(m, Effect(j, e)) == Effect(Overlay(m, j), e)
    ensures Overlay(Effect(m, e), Effect(j, e)) == Effect(Overlay(m, j), e)
  {
    if e.SendControl? {
      OverlayAssign(m.controls[e.channel], j.controls[e.channel], e.number, e.value);
    }
    SameMemory(Overlay(m, Effect(j, e)), Effect(Overlay(m, j), e));
    SameMemory(Overlay(Effect(m, e), Effect(j, e)), Effect(Overlay(m, j), e));
  }
}
