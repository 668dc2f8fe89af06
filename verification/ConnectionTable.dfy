/** The table of connections and the session packets that open and close them
    (net_connection.c, applemidi_inv.c, applemidi_by.c). Slots are reused and never removed. */
module ConnectionTable {
  import opened Bytes
  import opened Connection
  import AppleMidi
  import Journal

  datatype Slot = Slot(used: bool, session: Session)

  predicate Matches(slot: Slot, ssrc: u32) {
    slot.used && slot.session.ssrc == ssrc
  }

  /** Index of the first slot in use for `ssrc`, from `k` on. */
  function FindSsrc(slots: seq<Slot>, ssrc: u32, k: nat): (r: Option<nat>)
    requires k <= |slots|
    ensures r.Some? ==> k <= r.value < |slots| && Matches(slots[r.value], ssrc)
    ensures r.None? <==> forall i :: k <= i < |slots| ==> !Matches(slots[i], ssrc)
    decreases |slots| - k
  {
    if k == |slots| then None else if Matches(slots[k], ssrc) then Some(k) else FindSsrc(slots, ssrc, k + 1)
  }

  function FindUnused(slots: seq<Slot>, k: nat): (r: Option<nat>)
    requires k <= |slots|
    ensures r.Some? ==> k <= r.value < |slots| && !slots[r.value].used
    ensures r.None? <==> forall i :: k <= i < |slots| ==> slots[i].used
    decreases |slots| - k
  {
    if k == |slots| then None else if !slots[k].used then Some(k) else FindUnused(slots, k + 1)
  }

  /** The slots after an IN packet. */
  function Opened(slots: seq<Slot>, s: Session): seq<Slot> {
    if FindSsrc(slots, s.ssrc, 0).Some? then slots
    else
      var i := FindUnused(slots, 0);
      if i.Some? then slots[i.value := Slot(true, s)] else slots + [Slot(true, s)]
  }

  /** The slots after a BY packet. */
  function Closed(slots: seq<Slot>, ssrc: u32): seq<Slot> {
    var i := FindSsrc(slots, ssrc, 0);
    if i.Some? then slots[i.value := slots[i.value].(used := false)] else slots
  }

  /** The OK command for a session. */
  function Acceptance(s: Session, serviceName: AppleMidi.CString): AppleMidi.Command {
    AppleMidi.Command(0xFFFF, AppleMidi.CMD_ACCEPT, AppleMidi.Invitation(2, s.initiator, s.sendSsrc, Some(serviceName)))
  }

  /** The octets begin with FF FF and OK, and the fields follow. */
  method Accept(s: Session, serviceName: AppleMidi.CString) returns (response: seq<byte>)
    ensures [0xFF, 0xFF, 0x4F, 0x4B] <= response
    ensures var r := AppleMidi.Unpacked(response);
            r.Done? && r.command.body == AppleMidi.Invitation(2, s.initiator, s.sendSsrc, Some(serviceName))
  {
    var command := Acceptance(s, serviceName);
    AppleMidi.RoundTrip(command);
    AppleMidi.HeadOctets(command);
    AppleMidi.Codes();
    var packed := AppleMidi.Pack(command);
    response := packed.octets;
    assert response[..4] == [0xFF, 0xFF, 0x4F, 0x4B];
  }

  class Table {
    var items: seq<Context>

    ghost predicate Valid()
      reads this, items, set i | 0 <= i < |items| :: items[i].journal
    {
      Distinct(items) && forall i :: 0 <= i < |items| ==> items[i].Valid()
    }

    ghost function View(): (s: seq<Slot>)
      reads this, items
      ensures |s| == |items|
      ensures forall i :: 0 <= i < |s| ==> s[i] == Slot(items[i].used, items[i].session)
    {
      seq(|items|, i requires 0 <= i < |items| reads this, items => Slot(items[i].used, items[i].session))
    }

    constructor ()
      ensures Valid() && View() == []
    {
      items := [];
    }

    /** `net_ctx_find_by_ssrc`. */
    method FindBySsrc(ssrc: u32) returns (r: Option<nat>)
      ensures r == FindSsrc(View(), ssrc, 0)
    {
      var i := 0;
      while i < |items|
        invariant 0 <= i <= |items|
        invariant FindSsrc(View(), ssrc, 0) == FindSsrc(View(), ssrc, i)
      {
        if items[i].used && items[i].session.ssrc == ssrc {
          return Some(i);
        }
        i := i + 1;
      }
      return None;
    }

    /** `net_ctx_find_unused`. */
    method FindFree() returns (r: Option<nat>)
      ensures r == FindUnused(View(), 0)
    {
      var i := 0;
      while i < |items|
        invariant 0 <= i <= |items|
        invariant FindUnused(View(), 0) == FindUnused(View(), i)
      {
        if !items[i].used {
          return Some(i);
        }
        i := i + 1;
      }
      return None;
    }

    /** `net_ctx_register`: an SSRC already in use keeps its session; otherwise an unused slot is
        taken before a new one is made. */
    method Register(s: Session) returns (ctx: Context)
      requires Valid()
      modifies this`items, items
      ensures Valid() && old(items) <= items
      ensures View() == Opened(old(View()), s)
      ensures ctx in items && ctx.used && ctx.session.ssrc == s.ssrc
      ensures FindSsrc(old(View()), s.ssrc, 0).None? ==> ctx.session == s
      ensures forall i :: 0 <= i < |old(items)| ==> items[i].seqNo == old(items[i].seqNo)
      ensures |items| > |old(items)| ==> ctx.seqNo == 1 && ctx.journal.View() == Journal.Create()
    {
      var found := FindBySsrc(s.ssrc);
      if found.Some? {
        return items[found.value];
      }
      var free := FindFree();
      if free.Some? {
        ctx := Reuse(free.value, s);
      } else {
        ctx := AddNew(s);
      }
    }

    /** An unused slot is opened. */
    method Reuse(i: nat, s: Session) returns (ctx: Context)
      requires Valid() && i < |items|
      modifies items
      ensures Valid() && items == old(items) && ctx == items[i]
      ensures View() == old(View())[i := Slot(true, s)]
      ensures forall k :: 0 <= k < |items| ==> items[k].seqNo == old(items[k].seqNo)
    {
      ghost var before := View();
      ctx := items[i];
      ctx.Open(s);
      assert View() == before[i := Slot(true, s)];
    }

    /** A new connection at the end of the table. */
    method AddNew(s: Session) returns (ctx: Context)
      requires Valid()
      modifies this`items
      ensures Valid() && items == old(items) + [ctx]
      ensures View() == old(View()) + [Slot(true, s)]
      ensures ctx.used && ctx.session == s && ctx.seqNo == 1 && ctx.journal.View() == Journal.Create()
    {
      ctx := new Context();
      ctx.Open(s);
      items := items + [ctx];
    }

    /** `applemidi_inv_responder`: register, then accept: OK, version 2, the initiator and the
        identifier of the session that the SSRC then has, and the name of the service. For the
        first invitation of an SSRC that is the session of the invitation. */
    method Invited(s: Session, serviceName: AppleMidi.CString) returns (response: seq<byte>)
      requires Valid()
      modifies this`items, items
      ensures Valid() && View() == Opened(old(View()), s)
      ensures [0xFF, 0xFF, 0x4F, 0x4B] <= response
      ensures var i, r := FindSsrc(View(), s.ssrc, 0), AppleMidi.Unpacked(response);
              && i.Some? && r.Done? && r.command.body.Invitation?
              && r.command.body.version == 2 && r.command.body.name == Some(serviceName)
              && r.command.body.initiator == View()[i.value].session.initiator
              && r.command.body.ssrc == View()[i.value].session.sendSsrc
              && (FindSsrc(old(View()), s.ssrc, 0).None? ==> View()[i.value].session == s)
    {
      ghost var before := View();
      var _ := Register(s);
      OpenedFinds(before, s);
      response := Answer(s.ssrc, serviceName);
    }

    /** The answer to an SSRC with a session. */
    method Answer(ssrc: u32, serviceName: AppleMidi.CString) returns (response: seq<byte>)
      requires FindSsrc(View(), ssrc, 0).Some?
      ensures [0xFF, 0xFF, 0x4F, 0x4B] <= response
      ensures var i, r := FindSsrc(View(), ssrc, 0), AppleMidi.Unpacked(response);
              && r.Done? && r.command.body.Invitation?
              && r.command.body.version == 2 && r.command.body.name == Some(serviceName)
              && r.command.body.initiator == View()[i.value].session.initiator
              && r.command.body.ssrc == View()[i.value].session.sendSsrc
    {
      var found := FindBySsrc(ssrc);
      response := Accept(items[found.value].session, serviceName);
    }

    /** `applemidi_by_responder`. */
    method Ended(ssrc: u32)
      requires Valid()
      modifies items, set i | 0 <= i < |items| :: items[i].journal
      ensures Valid() && items == old(items)
      ensures View() == Closed(old(View()), ssrc)
      ensures var found := FindSsrc(old(View()), ssrc, 0);
              forall i :: 0 <= i < |items| ==>
                items[i].View() == if found == Some(i) then ResetOf(old(items[i].View())) else old(items[i].View())
    {
      ghost var before := View();
      var found := FindBySsrc(ssrc);
      if found.Some? {
        items[found.value].Reset();
        assert View() == before[found.value := before[found.value].(used := false)];
      }
    }
  }

  lemma OpenedFinds(slots: seq<Slot>, s: Session)
    ensures var i := FindSsrc(Opened(slots, s), s.ssrc, 0);
            i.Some? && (FindSsrc(slots, s.ssrc, 0).None? ==> Opened(slots, s)[i.value].session == s)
  {
    var r := Opened(slots, s);
    if FindSsrc(slots, s.ssrc, 0).None? {
      assert forall i :: 0 <= i < |slots| ==> !Matches(slots[i], s.ssrc);
      var i := FindUnused(slots, 0);
      var k := if i.Some? then i.value else |slots|;
      assert Matches(r[k], s.ssrc) && forall n :: 0 <= n < |r| && n != k ==> r[n] == slots[n];
    }
  }

  // Histories of session packets.

  datatype Packet = In(session: Session) | By(ssrc: u32)

  function Slots(h: seq<Packet>): seq<Slot> {
    if h == [] then []
    else
      var before := Slots(h[..|h| - 1]);
      match h[|h| - 1]
      case In(s) => Opened(before, s)
      case By(ssrc) => Closed(before, ssrc)
  }

  /** The sessions open after a history: the first IN of an SSRC opens it, a BY closes it. */
  function Sessions(h: seq<Packet>): map<u32, Session> {
    if h == [] then map[]
    else
      var before := Sessions(h[..|h| - 1]);
      match h[|h| - 1]
      case In(s) => if s.ssrc in before then before else before[s.ssrc := s]
      case By(ssrc) => before - {ssrc}
  }

  /** The most sessions ever open at once. */
  function HighWater(h: seq<Packet>): nat {
    if h == [] then 0
    else
      var before, now := HighWater(h[..|h| - 1]), |Sessions(h)|;
      if now > before then now else before
  }

  function Used(slots: seq<Slot>): (n: nat)
    ensures n <= |slots|
  {
    if slots == [] then 0 else Used(slots[..|slots| - 1]) + if slots[|slots| - 1].used then 1 else 0
  }

  /** Every slot in use is an open session. */
  predicate Sound(slots: seq<Slot>, m: map<u32, Session>) {
    forall i :: 0 <= i < |slots| && slots[i].used ==> slots[i].session.ssrc in m && m[slots[i].session.ssrc] == slots[i].session
  }

  predicate Unique(slots: seq<Slot>) {
    forall i, j :: 0 <= i < j < |slots| && slots[i].used && slots[j].used ==> slots[i].session.ssrc != slots[j].session.ssrc
  }

  /** Every open session has a slot. */
  predicate Complete(slots: seq<Slot>, m: map<u32, Session>) {
    forall ssrc :: ssrc in m ==> FindSsrc(slots, ssrc, 0).Some?
  }

  /** The slots in use are the open sessions, each once. */
  predicate Represents(slots: seq<Slot>, m: map<u32, Session>) {
    Sound(slots, m) && Unique(slots) && Complete(slots, m) && |m| == Used(slots)
  }

  lemma {:induction false} UsedUpdate(slots: seq<Slot>, i: nat, slot: Slot)
    requires i < |slots|
    ensures Used(slots[i := slot]) + (if slots[i].used then 1 else 0) == Used(slots) + (if slot.used then 1 else 0)
    decreases |slots|
  {
    var n := |slots| - 1;
    if i < n {
      assert slots[i := slot][..n] == slots[..n][i := slot];
      UsedUpdate(slots[..n], i, slot);
    } else {
      assert slots[i := slot][..n] == slots[..n];
    }
  }

  lemma {:induction false} AllUsed(slots: seq<Slot>)
    ensures Used(slots) == |slots| <==> forall i :: 0 <= i < |slots| ==> slots[i].used
    decreases |slots|
  {
    if slots != [] {
      AllUsed(slots[..|slots| - 1]);
    }
  }

  lemma UsedAppend(slots: seq<Slot>, slot: Slot)
    ensures Used(slots + [slot]) == Used(slots) + if slot.used then 1 else 0
  {
    assert (slots + [slot])[..|slots|] == slots;
  }

  /** `r` is `slots` with the session `s` put at `k`, which was unused or is new. */
  predicate PutAt(slots: seq<Slot>, r: seq<Slot>, k: nat, s: Session) {
    && k < |r| && |slots| <= |r| <= |slots| + 1
    && r[k] == Slot(true, s)
    && (k < |slots| ==> !slots[k].used)
    && (forall i :: 0 <= i < |r| && i != k ==> i < |slots| && r[i] == slots[i])
  }

  lemma PutKeeps(slots: seq<Slot>, m: map<u32, Session>, r: seq<Slot>, k: nat, s: Session)
    requires Sound(slots, m) && Unique(slots) && s.ssrc !in m && PutAt(slots, r, k, s)
    ensures Sound(r, m[s.ssrc := s]) && Unique(r)
  {
  }

  lemma PutCompletes(slots: seq<Slot>, m: map<u32, Session>, r: seq<Slot>, k: nat, s: Session)
    requires Complete(slots, m) && PutAt(slots, r, k, s)
    ensures Complete(r, m[s.ssrc := s])
  {
    forall ssrc | ssrc in m[s.ssrc := s]
      ensures FindSsrc(r, ssrc, 0).Some?
    {
      var i := if ssrc == s.ssrc then k else FindSsrc(slots, ssrc, 0).value;
      assert Matches(r[i], ssrc);
    }
  }

  lemma OpenedPuts(slots: seq<Slot>, s: Session) returns (k: nat)
    requires FindSsrc(slots, s.ssrc, 0).None?
    ensures PutAt(slots, Opened(slots, s), k, s)
    ensures Used(Opened(slots, s)) == Used(slots) + 1
    ensures |Opened(slots, s)| == if Used(slots) == |slots| then |slots| + 1 else |slots|
  {
    var i := FindUnused(slots, 0);
    AllUsed(slots);
    if i.Some? {
      k := i.value;
      UsedUpdate(slots, k, Slot(true, s));
    } else {
      k := |slots|;
      UsedAppend(slots, Slot(true, s));
    }
  }

  lemma OpenedRepresents(slots: seq<Slot>, m: map<u32, Session>, s: Session)
    requires Represents(slots, m) && s.ssrc !in m
    ensures Represents(Opened(slots, s), m[s.ssrc := s])
    ensures |Opened(slots, s)| == if Used(slots) == |slots| then |slots| + 1 else |slots|
  {
    assert forall i :: 0 <= i < |slots| ==> !Matches(slots[i], s.ssrc);
    var k := OpenedPuts(slots, s);
    PutKeeps(slots, m, Opened(slots, s), k, s);
    PutCompletes(slots, m, Opened(slots, s), k, s);
  }

  lemma ClosedCompletes(slots: seq<Slot>, m: map<u32, Session>, ssrc: u32, k: nat)
    requires Complete(slots, m) && k < |slots| && Matches(slots[k], ssrc)
    ensures Complete(slots[k := slots[k].(used := false)], m - {ssrc})
  {
    var r := slots[k := slots[k].(used := false)];
    forall other | other in m - {ssrc}
      ensures FindSsrc(r, other, 0).Some?
    {
      var i := FindSsrc(slots, other, 0).value;
      assert Matches(r[i], other);
    }
  }

  lemma ClosedKeeps(slots: seq<Slot>, m: map<u32, Session>, ssrc: u32, k: nat)
    requires Sound(slots, m) && Unique(slots) && k < |slots| && Matches(slots[k], ssrc)
    ensures Sound(slots[k := slots[k].(used := false)], m - {ssrc})
    ensures Unique(slots[k := slots[k].(used := false)])
  {
  }

  lemma ClosedRepresents(slots: seq<Slot>, m: map<u32, Session>, ssrc: u32)
    requires Represents(slots, m)
    ensures Represents(Closed(slots, ssrc), m - {ssrc})
  {
    var i := FindSsrc(slots, ssrc, 0);
    if i.None? {
      assert ssrc !in m;
      assert m - {ssrc} == m;
    } else {
      ClosedKeeps(slots, m, ssrc, i.value);
      ClosedCompletes(slots, m, ssrc, i.value);
      UsedUpdate(slots, i.value, slots[i.value].(used := false));
      assert m == (m - {ssrc})[ssrc := m[ssrc]];
    }
  }

  lemma {:induction false} HistoryRepresented(h: seq<Packet>)
    ensures Represents(Slots(h), Sessions(h)) && |Slots(h)| == HighWater(h)
    decreases |h|
  {
    if h != [] {
      var before, p := h[..|h| - 1], h[|h| - 1];
      HistoryRepresented(before);
      match p {
        case In(s) =>
          if s.ssrc !in Sessions(before) {
            OpenedRepresents(Slots(before), Sessions(before), s);
          }
        case By(ssrc) => ClosedRepresents(Slots(before), Sessions(before), ssrc);
      }
    }
  }

  /** Over every history of IN and BY packets: no SSRC has two slots in use; looking an SSRC up
      finds its open session, and nothing when none is open; and the table is no longer than
      the most sessions that were ever open at once. */
  lemma TableIsSessionMap(h: seq<Packet>, ssrc: u32)
    ensures forall i, j :: 0 <= i < |Slots(h)| && 0 <= j < |Slots(h)| && Matches(Slots(h)[i], ssrc) && Matches(Slots(h)[j], ssrc) ==> i == j
    ensures var i := FindSsrc(Slots(h), ssrc, 0);
            && (i.Some? <==> ssrc in Sessions(h))
            && (i.Some? ==> Slots(h)[i.value].session == Sessions(h)[ssrc])
    ensures |Slots(h)| == HighWater(h)
  {
    HistoryRepresented(h);
  }
}
