/** One entry of the connection table (net_connection.c). */
module Connection {
  import opened Bytes
  import Journal
  import JournalWire

  /** What a session was opened with. */
  datatype Session = Session(ssrc: u32, initiator: u32, sendSsrc: u32, port: u16, ip: seq<byte>, name: Option<seq<byte>>)

  const NO_SESSION := Session(0, 0, 0, 0, [], None)

  /** What sending reads and writes of a connection. */
  datatype Snapshot = Snapshot(session: Session, seqNo: u32, journal: Journal.State)

  /** What is left by closing a session. */
  function ResetOf(was: Snapshot): Snapshot
    requires Journal.Valid(was.journal)
  {
    Snapshot(was.session, 1, Journal.Cleared(was.journal))
  }

  class Context {
    var used: bool  // status other than NET_CTX_STATUS_UNUSED
    var session: Session
    var seqNo: u32
    const journal: Journal.MidiJournal

    ghost predicate Valid()
      reads this, journal
    {
      Journal.Valid(journal.View())
    }

    ghost function View(): Snapshot
      reads this, journal
    {
      Snapshot(session, seqNo, journal.View())
    }

    /** `net_ctx_create`: not in use, sequence number 1, an empty journal. */
    constructor ()
      ensures Valid() && fresh(journal)
      ensures !used && seqNo == 1 && journal.View() == Journal.Create() && session == NO_SESSION
    {
      used, session, seqNo := false, NO_SESSION, 1;
      journal := new Journal.MidiJournal();
    }

    /** `net_ctx_set`: the sequence number and the journal are left as they are. */
    method Open(s: Session)
      modifies this`used, this`session
      ensures used && session == s
    {
      session := s;
      used := true;
    }

    /** `net_ctx_reset`. */
    method Reset()
      requires Valid()
      modifies this`used, this`seqNo, journal
      ensures Valid() && !used && View() == ResetOf(old(View()))
    {
      journal.Reset();
      seqNo := 1;
      used := false;
    }

    method IncrementSeq()
      modifies this`seqNo
      ensures seqNo == (old(seqNo) + 1) % 0x1_0000_0000
    {
      seqNo := (seqNo + 1) % 0x1_0000_0000;
    }

    method PackJournal() returns (packed: seq<byte>)
      requires Valid()
      ensures packed == JournalWire.Packed(journal.View())
    {
      packed := JournalWire.Pack(journal);
    }

    /** `applemidi_feedback_responder` for this connection, as one step: the acknowledged
        16-bit number is compared with the 32-bit one of the connection. */
    method Feedback(ack: u16)
      requires Valid()
      modifies journal
      ensures Valid()
      ensures journal.View() == if ack >= seqNo then Journal.Cleared(old(journal.View())) else old(journal.View())
    {
      if ack >= seqNo {
        journal.Reset();
      }
    }
  }

  /** No two entries are one object or share a journal. */
  predicate Distinct(items: seq<Context>) {
    forall i, j :: 0 <= i < j < |items| ==> items[i] != items[j] && items[i].journal != items[j].journal
  }
}
