/** Readers of the whole wire form of the recovery journal, as section 5 and Appendix A of
    RFC 6295 define it, and when they understand what `journal_pack` writes. Both take the
    number of channels that TOTCHAN says, each as long as its LENGTH says, and in each the
    chapters that its header announces. A strict reader refuses a journal with octets left over
    behind these; a skipping reader ignores them. */
module JournalReader {
  import opened Bytes
  import opened Journal
  import opened JournalHistory
  import opened JournalWire
  import ChapterC
  import ChapterN
  import ChapterP
  import Recovery
  import RecoveryTold

  datatype ChapterViews = ChapterViews(p: Option<ChapterP.Chapter>, c: Option<seq<ChapterC.Entry>>, n: Option<ChapterN.Decoded>)

  const NO_CHAPTERS := ChapterViews(None, None, None)

  datatype ChannelView = ChannelView(channel: nat, chapters: ChapterViews)

  /** The A flag, the checkpoint and the channels. */
  datatype JournalView = JournalView(active: bool, checkpoint: u16, channels: seq<ChannelView>)

  /** What was read off the front, and what follows it. */
  datatype Part<T> = Part(value: T, rest: seq<byte>)

  function ReadP(s: seq<byte>, on: bool): Option<Part<Option<ChapterP.Chapter>>> {
    if !on then Some(Part(None, s))
    else if |s| < ChapterP.PACKED_SIZE then None
    else Some(Part(ChapterP.Unpacked(s), s[ChapterP.PACKED_SIZE..]))
  }

  /** The size of Chapter C by its LEN field. */
  function SizeC(s: seq<byte>): nat
    requires |s| > 0
  {
    ChapterC.HEADER_SIZE + ChapterC.LOG_SIZE * (s[0] % 128 + 1)
  }

  function ReadC(s: seq<byte>, on: bool): Option<Part<Option<seq<ChapterC.Entry>>>> {
    if !on then Some(Part(None, s))
    else if |s| == 0 || |s| < SizeC(s) || ChapterC.Decode(s[..SizeC(s)]).None? then None
    else Some(Part(ChapterC.Decode(s[..SizeC(s)]), s[SizeC(s)..]))
  }

  function ReadN(s: seq<byte>, on: bool): Option<Part<Option<ChapterN.Decoded>>> {
    if !on then Some(Part(None, s))
    else if |s| < ChapterN.HEADER_SIZE || |s| < ChapterN.Size(s) || ChapterN.Decode(s[..ChapterN.Size(s)]).None? then None
    else Some(Part(ChapterN.Decode(s[..ChapterN.Size(s)]), s[ChapterN.Size(s)..]))
  }

  function ReadChapters(s: seq<byte>, hasP: bool, hasC: bool, hasN: bool): Option<Part<ChapterViews>> {
    var p := ReadP(s, hasP);
    if p.None? then None
    else
      var c := ReadC(p.value.rest, hasC);
      if c.None? then None
      else
        var n := ReadN(c.value.rest, hasN);
        if n.None? then None else Some(Part(ChapterViews(p.value.value, c.value.value, n.value.value), n.value.rest))
  }

  /** The chapters M, W, E, T and A are not read. */
  function ReadChannel(s: seq<byte>, strict: bool): Option<ChannelView> {
    if |s| < CHANNEL_HEADER_SIZE || s[2] / 16 % 4 != 0 || s[2] % 8 != 0 then None
    else
      var r := ReadChapters(s[CHANNEL_HEADER_SIZE..], s[2] / 128 % 2 == 1, s[2] / 64 % 2 == 1, s[2] / 8 % 2 == 1);
      if r.None? || (strict && r.value.rest != []) then None
      else Some(ChannelView(GetU16(s, 0) / 0x800 % 16, r.value.value))
  }

  function ReadChannels(parts: seq<seq<byte>>, strict: bool): Option<seq<ChannelView>> {
    if parts == [] then Some([])
    else
      var first, rest := ReadChannel(parts[0], strict), ReadChannels(parts[1..], strict);
      if first.None? || rest.None? then None else Some([first.value] + rest.value)
  }

  /** The first `n` channels, each as long as its LENGTH. */
  function Take(s: seq<byte>, n: nat): Option<Part<seq<seq<byte>>>> {
    if n == 0 then Some(Part([], s))
    else if |s| < CHANNEL_HEADER_SIZE || !(CHANNEL_HEADER_SIZE <= LengthField(s) <= |s|) then None
    else
      var more := Take(s[LengthField(s)..], n - 1);
      if more.None? then None else Some(Part([s[..LengthField(s)]] + more.value.value, more.value.rest))
  }

  /** TOTCHAN is the number of channels less one. A journal without the A flag has none, and one
      with the Y flag has a system journal, which is not read. */
  function ReadJournal(s: seq<byte>, strict: bool): Option<JournalView> {
    if |s| < JOURNAL_HEADER_SIZE || s[0] / 0x40 % 2 == 1 then None
    else
      var active := s[0] / 0x20 % 2 == 1;
      var r := Take(s[JOURNAL_HEADER_SIZE..], if active then s[0] % 16 + 1 else 0);
      if r.None? || (strict && r.value.rest != []) then None
      else
        var channels := ReadChannels(r.value.value, strict);
        if channels.None? then None else Some(JournalView(active, s[1] as int * 256 + s[2] as int, channels.value))
  }

  // What there is to be read.

  function ViewOf(ch: Channel): ChapterViews
    requires ValidChannel(ch)
  {
    ChapterViews(if ch.header.hasP then ch.p else None,
                 if ch.header.hasC && ch.c.Some? then Some(ChapterC.Entries(ch.c.value.logs, 0)) else None,
                 if ch.header.hasN && ch.n.Some?
                 then Some(ChapterN.Decoded(ChapterN.NoteList(ch.n.value), ChapterN.Released(ch.n.value.offbits))) else None)
  }

  /** The channels in use from `i` on. */
  function Views(j: State, i: nat): (views: seq<ChannelView>)
    requires Valid(j) && i <= MAX_CHANNELS
    ensures |views| == |MarkedFrom(j, i)|
    decreases j, MAX_CHANNELS - i
  {
    if i == MAX_CHANNELS then []
    else
      MarkedStep(j, i);
      (if Marked(j, i) then [ChannelView(i, ViewOf(ChannelOf(j, i)))] else []) + Views(j, i + 1)
  }

  /** Every chapter that packs to something is flagged, and the other way round. */
  predicate Announced(ch: Channel)
    requires ValidChannel(ch)
  {
    && ch.header.hasP == ch.p.Some?
    && ch.header.hasC == (ch.c.Some? && ChapterC.ActiveFrom(ch.c.value.logs, 0) > 0)
    && ch.header.hasN == ch.n.Some?
  }

  /** What every channel of a reachable journal satisfies: the flags never announce too much,
      Chapter C is flagged just when it packs to something, Chapter P holds only a program, the
      S bits of the channel and its Chapter C are set and the H bit is clear, the logs in use have their S bit set, the notes their Y bit clear, and a Chapter N in use
      its B bit set. */
  predicate WellFlagged(ch: Channel)
    requires ValidChannel(ch)
  {
    && ch.header.s == 1 && ch.header.h == 0 && (ch.c.Some? ==> ch.c.value.s == 1)
    && (ch.header.hasP ==> ch.p.Some?)
    && (ch.p.Some? ==> ch.p.value == ChapterP.Chapter(1, ch.p.value.program, 0, 0, 0, 0))
    && ch.header.hasC == (ch.c.Some? && ChapterC.ActiveFrom(ch.c.value.logs, 0) > 0)
    && (ch.c.Some? ==> forall k :: 0 <= k < ChapterC.CONTROLLERS && ChapterC.IsActive(ch.c.value.logs, k) ==> ch.c.value.logs[k].s == 1)
    && (ch.header.hasN ==> ch.n.Some? && ch.n.value.b == 1)
    && (ch.n.Some? ==> forall k :: 0 <= k < ch.n.value.numNotes ==> ChapterN.NoteList(ch.n.value)[k].y == 0)
  }

  predicate AnyFlag(h: ChannelHeader) {
    h.hasP || h.hasC || h.hasN
  }

  /** The chapters are in the range their own formats cover. */
  predicate Readable(ch: Channel)
    requires ValidChannel(ch)
  {
    && (ch.c.Some? ==> ChapterC.ActiveFrom(ch.c.value.logs, 0) < ChapterC.CONTROLLERS)
    && (ch.n.Some? ==> !(ch.n.value.numNotes == 127 && ch.n.value.low == 15 && ch.n.value.high == 0))
  }

  /** A Chapter P left allocated is packed in front of the chapters announced. Its octets say
      what those say in one case: a program of 0, and no controller but 0 at 0, and no notes. */
  predicate Coincides(ch: Channel)
    requires ValidChannel(ch) && ch.p.Some?
  {
    && ch.p.value.program == 0
    && (ch.header.hasC ==> ViewOf(ch).c == Some([ChapterC.Entry(0, 0)]))
    && (ch.header.hasN ==> ViewOf(ch).n == Some(ChapterN.Decoded([], {})))
  }

  /** No Chapter P was left behind that a skipping reader would take for something else. */
  predicate Undisturbed(ch: Channel)
    requires ValidChannel(ch)
  {
    ch.p.Some? && !ch.header.hasP ==> Coincides(ch)
  }

  predicate Legible(ch: Channel, strict: bool)
    requires ValidChannel(ch)
  {
    if strict then Announced(ch) else Undisturbed(ch)
  }

  // The parts of a packed channel.

  function PartP(ch: Channel): seq<byte> {
    if ch.p.Some? then ChapterP.Packed(ch.p.value) else []
  }

  function PartC(ch: Channel): seq<byte>
    requires ValidChannel(ch)
  {
    if ch.c.Some? then ChapterC.Packed(ch.c.value) else []
  }

  function PartN(ch: Channel): seq<byte>
    requires ValidChannel(ch)
  {
    if ch.n.Some? then ChapterN.Packed(ch.n.value) else []
  }

  lemma ChaptersAreParts(ch: Channel)
    requires ValidChannel(ch)
    ensures Chapters(ch) == PartP(ch) + (PartC(ch) + PartN(ch))
  {
    Associative(PartP(ch), PartC(ch), PartN(ch));
  }

  /** Reading a chapter whose size is known off the front. */
  lemma ReadsC(s: seq<byte>, rest: seq<byte>, es: seq<ChapterC.Entry>)
    requires s != [] && |s| == SizeC(s) && ChapterC.Decode(s) == Some(es)
    ensures ReadC(s + rest, true) == Some(Part(Some(es), rest))
  {
    assert (s + rest)[..|s|] == s && (s + rest)[|s|..] == rest;
  }

  lemma ReadsN(s: seq<byte>, rest: seq<byte>, d: ChapterN.Decoded)
    requires ChapterN.Decode(s) == Some(d)
    ensures ReadN(s + rest, true) == Some(Part(Some(d), rest))
  {
    assert ChapterN.Size(s + rest) == ChapterN.Size(s);
    assert (s + rest)[..|s|] == s && (s + rest)[|s|..] == rest;
  }

  lemma ReadsPartP(ch: Channel, rest: seq<byte>)
    ensures ReadP(PartP(ch) + rest, ch.p.Some?) == Some(Part(ch.p, rest))
  {
    if ch.p.Some? {
      ChapterP.RoundTrip(ch.p.value, rest);
      assert (PartP(ch) + rest)[ChapterP.PACKED_SIZE..] == rest;
    } else {
      assert PartP(ch) + rest == rest;
    }
  }

  lemma PackedSizeC(c: ChapterC.Chapter)
    requires ChapterC.Valid(c) && 0 < ChapterC.ActiveFrom(c.logs, 0) <= ChapterC.CONTROLLERS
    ensures var s := ChapterC.Packed(c); s != [] && |s| == SizeC(s) && s[0] % 128 == ChapterC.ActiveFrom(c.logs, 0) - 1
  {
    var n := ChapterC.ActiveFrom(c.logs, 0);
    assert ChapterC.Packed(c)[0] == c.s * 128 + (n - 1);
    BitAndSeven(c.s, n - 1);
  }

  lemma ReadsPartC(ch: Channel, rest: seq<byte>)
    requires ValidChannel(ch) && WellFlagged(ch) && Readable(ch)
    ensures ReadC(PartC(ch) + rest, ch.header.hasC) == Some(Part(ViewOf(ch).c, rest))
  {
    if ch.header.hasC {
      var c := ch.c.value;
      PackedSizeC(c);
      ChapterC.DecodePackedExact(c);
      ReadsC(PartC(ch), rest, ChapterC.Entries(c.logs, 0));
    } else {
      assert PartC(ch) + rest == rest;
    }
  }

  lemma ReadsPartN(ch: Channel)
    requires ValidChannel(ch) && WellFlagged(ch) && Readable(ch)
    ensures ReadN(PartN(ch), ch.header.hasN) == Some(Part(ViewOf(ch).n, if ch.header.hasN then [] else PartN(ch)))
  {
    if ch.header.hasN {
      ChapterN.DecodePackedExact(ch.n.value);
      ReadsN(PartN(ch), [], ViewOf(ch).n.value);
      assert PartN(ch) + [] == PartN(ch);
    }
  }

  lemma ReadsInTurn(s: seq<byte>, hasP: bool, hasC: bool, hasN: bool, v: ChapterViews,
                    afterP: seq<byte>, afterC: seq<byte>, afterN: seq<byte>)
    requires ReadP(s, hasP) == Some(Part(v.p, afterP))
    requires ReadC(afterP, hasC) == Some(Part(v.c, afterC))
    requires ReadN(afterC, hasN) == Some(Part(v.n, afterN))
    ensures ReadChapters(s, hasP, hasC, hasN) == Some(Part(v, afterN))
  {
  }

  lemma PartNSize(ch: Channel)
    requires ValidChannel(ch) && ch.n.Some?
    ensures |PartN(ch)| >= ChapterN.HEADER_SIZE && PartN(ch) != []
  {
  }

  /** Without a leftover Chapter P every announced chapter is read; a leftover Chapter N is left
      over. */
  lemma ReadsAnnounced(ch: Channel)
    requires ValidChannel(ch) && WellFlagged(ch) && Readable(ch) && ch.header.hasP == ch.p.Some?
    ensures ReadChapters(Chapters(ch), ch.header.hasP, ch.header.hasC, ch.header.hasN) ==
            Some(Part(ViewOf(ch), if ch.header.hasN then [] else PartN(ch)))
  {
    var afterP, afterC := PartC(ch) + PartN(ch), PartN(ch);
    ChaptersAreParts(ch);
    ReadsPartP(ch, afterP);
    ReadsPartC(ch, afterC);
    ReadsPartN(ch);
    ReadsInTurn(PartP(ch) + afterP, ch.header.hasP, ch.header.hasC, ch.header.hasN, ViewOf(ch),
                afterP, afterC, if ch.header.hasN then [] else PartN(ch));
  }

  /** What it takes for a channel to be read as what it holds. */
  predicate ReadsAs(r: Option<Part<ChapterViews>>, v: ChapterViews, strict: bool) {
    r.Some? && r.value.value == v && (strict ==> r.value.rest == [])
  }

  lemma AnnouncedExact(ch: Channel, strict: bool)
    requires ValidChannel(ch) && WellFlagged(ch) && Readable(ch) && ch.header.hasP == ch.p.Some?
    ensures ReadsAs(ReadChapters(Chapters(ch), ch.header.hasP, ch.header.hasC, ch.header.hasN), ViewOf(ch), strict) <==>
            Legible(ch, strict)
  {
    ReadsAnnounced(ch);
    if ch.n.Some? {
      PartNSize(ch);
    }
  }

  // A leftover Chapter P.

  lemma PartPOctets(ch: Channel, rest: seq<byte>)
    requires ValidChannel(ch) && WellFlagged(ch) && ch.p.Some?
    ensures var s := PartP(ch) + rest;
            |s| == 3 + |rest| && s[0] == 128 + ch.p.value.program && s[1] == 0 && s[2] == 0 && s[3..] == rest
  {
  }

  lemma {:induction false} FirstLogFlagged(c: ChapterC.Chapter, k: nat)
    requires ChapterC.Valid(c) && k <= ChapterC.CONTROLLERS && ChapterC.ActiveFrom(c.logs, k) > 0
    requires forall i :: 0 <= i < ChapterC.CONTROLLERS && ChapterC.IsActive(c.logs, i) ==> c.logs[i].s == 1
    ensures ChapterC.PackedLogs(c.logs, k)[0] == 128 + ChapterC.Entries(c.logs, k)[0].number
    ensures ChapterC.PackedLogs(c.logs, k)[1] == ChapterC.Entries(c.logs, k)[0].value
    decreases ChapterC.CONTROLLERS - k
  {
    if ChapterC.IsActive(c.logs, k) {
      assert ChapterC.PackedLog(c.logs[k])[0] == 128 + k;
    } else {
      FirstLogFlagged(c, k + 1);
    }
  }

  /** The octets of a Chapter C in use. */
  lemma PartCOctets(ch: Channel, rest: seq<byte>)
    requires ValidChannel(ch) && WellFlagged(ch) && Readable(ch) && ch.header.hasC
    ensures var es, s := ChapterC.Entries(ch.c.value.logs, 0), PartC(ch) + rest;
            && |es| > 0 && |s| >= 3 && s[0] % 128 == |es| - 1 && s[1] == 128 + es[0].number && s[2] == es[0].value
  {
    var c := ch.c.value;
    var logs := ChapterC.PackedLogs(c.logs, 0);
    FirstLogFlagged(c, 0);
    PackedSizeC(c);
    assert PartC(ch)[1..] == logs;
    assert PartC(ch)[1] == logs[0] && PartC(ch)[2] == logs[1];
  }

  /** A Chapter C that starts with an unflagged zero log, before a flagged one. */
  lemma ZeroLogAlone(s: seq<byte>)
    requires |s| >= 5 && s[1] == 0 && s[2] == 0 && s[4] >= 128
    ensures ReadC(s, true) == if s[0] % 128 == 0 then Some(Part(Some([ChapterC.Entry(0, 0)]), s[3..])) else None
  {
    if |s| >= SizeC(s) {
      var logs := s[..SizeC(s)][1..];
      assert logs[0] == 0 && logs[1] == 0;
      if s[0] % 128 == 0 {
        assert logs == [0, 0] && logs[2..] == [];
        assert ChapterC.DecodeLogs(logs[2..]) == Some([]);
        assert [ChapterC.Entry(0, 0)] + [] == [ChapterC.Entry(0, 0)];
      } else {
        assert logs[2..][1] == s[4];
        assert ChapterC.DecodeLogs(logs[2..]).None?;
      }
    }
  }

  lemma ReadsNothing(s: seq<byte>)
    requires |s| >= 2 && s[0] % 128 == 0 && s[1] == 128
    ensures ReadN(s, true) == Some(Part(Some(ChapterN.Decoded([], {})), s[2..]))
  {
    var d := s[..2];
    assert d + s[2..] == s;
    ChapterN.NothingReleased(ChapterN.Field(d[2..], 8, 0));
    assert ChapterN.Decode(d) == Some(ChapterN.Decoded([], {}));
    ReadsN(d, s[2..], ChapterN.Decoded([], {}));
  }

  /** Three octets of a leftover Chapter P, and the octets behind it. */
  predicate LeftoverP(s: seq<byte>, program: seven, rest: seq<byte>) {
    |s| >= 3 && s[0] == 128 + program && s[1] == 0 && s[2] == 0 && s[3..] == rest
  }

  lemma LeftoverShape(ch: Channel)
    requires ValidChannel(ch) && WellFlagged(ch) && ch.p.Some?
    ensures LeftoverP(Chapters(ch), ch.p.value.program, PartC(ch) + PartN(ch))
  {
    ChaptersAreParts(ch);
    PartPOctets(ch, PartC(ch) + PartN(ch));
  }

  /** What three octets of a Chapter P say to a skipping reader that expects other chapters. */
  predicate SaysAsMuch(program: seven, v: ChapterViews, hasC: bool, hasN: bool, strict: bool) {
    && !strict && program == 0
    && (hasC ==> v.c == Some([ChapterC.Entry(0, 0)]))
    && (hasN ==> v.n == Some(ChapterN.Decoded([], {})))
  }

  lemma LegibleLeftover(ch: Channel, strict: bool)
    requires ValidChannel(ch) && ch.p.Some? && !ch.header.hasP
    ensures Legible(ch, strict) <==> SaysAsMuch(ch.p.value.program, ViewOf(ch), ch.header.hasC, ch.header.hasN, strict)
  {
  }

  /** A Chapter C in front, and what is to be read of it. */
  predicate StartsWithC(rest: seq<byte>, v: ChapterViews, hasN: bool) {
    && v.p == None && v.c.Some? && v.c.value != [] && v.n.Some? == hasN
    && |rest| >= 3 && rest[0] % 128 == |v.c.value| - 1 && rest[1] == 128 + v.c.value[0].number
  }

  lemma PartCStarts(ch: Channel)
    requires ValidChannel(ch) && WellFlagged(ch) && Readable(ch) && !ch.header.hasP && ch.header.hasC
    ensures StartsWithC(PartC(ch) + PartN(ch), ViewOf(ch), ch.header.hasN)
  {
    PartCOctets(ch, PartN(ch));
  }

  /** A reader that expects Chapter C first. */
  lemma TakenForC(s: seq<byte>, program: seven, rest: seq<byte>, hasN: bool, v: ChapterViews, strict: bool)
    requires LeftoverP(s, program, rest) && StartsWithC(rest, v, hasN)
    ensures ReadsAs(ReadChapters(s, false, true, hasN), v, strict) <==> SaysAsMuch(program, v, true, hasN, strict)
  {
    assert s[4] == rest[1];
    ZeroLogAlone(s);
    if v.c == Some([ChapterC.Entry(0, 0)]) && hasN {
      ReadsNothing(rest);
    }
  }

  /** Before a Chapter C the leftover is taken for a Chapter C of its own, and the true one, if
      anything, for a Chapter N. */
  lemma LeftoverBeforeC(ch: Channel, strict: bool)
    requires ValidChannel(ch) && WellFlagged(ch) && Readable(ch) && ch.p.Some? && !ch.header.hasP && ch.header.hasC
    ensures ReadsAs(ReadChapters(Chapters(ch), ch.header.hasP, ch.header.hasC, ch.header.hasN), ViewOf(ch), strict) <==>
            Legible(ch, strict)
  {
    LeftoverShape(ch);
    PartCStarts(ch);
    TakenForC(Chapters(ch), ch.p.value.program, PartC(ch) + PartN(ch), ch.header.hasN, ViewOf(ch), strict);
    LegibleLeftover(ch, strict);
  }

  /** The first note decoded comes from the first two octets. */
  lemma {:induction false} FirstNote(s: seq<byte>)
    requires |s| % 2 == 0
    ensures 2 * |ChapterN.DecodeNotes(s)| == |s|
    ensures s != [] ==> ChapterN.DecodeNotes(s)[0].y == s[1] / 128
    decreases |s|
  {
    if |s| > 2 {
      FirstNote(s[..|s| - 2]);
    } else if |s| == 2 {
      assert s[..0] == [];
    }
  }

  /** Three octets and a Chapter N, read as a Chapter N: none of its notes is unmarked. */
  lemma MarkedNotes(s: seq<byte>)
    requires |s| >= 4 && s[1] == 0 && s[2] == 0 && s[3] >= 128
    ensures var r := ReadN(s, true);
            && (s[0] % 128 == 0 ==> r == Some(Part(Some(ChapterN.Decoded([], {})), s[3..])))
            && (s[0] % 128 > 0 && r.Some? ==> r.value.value.Some? && r.value.value.value.notes != [] && r.value.value.value.notes[0].y == 1)
  {
    var k := ChapterN.Size(s);
    if s[0] % 128 == 0 {
      var d := s[..3];
      assert d + s[3..] == s && d[2..] == [0];
      ChapterN.NothingReleased(ChapterN.Field(d[2..], 0, 0));
      assert ChapterN.Decode(d) == Some(ChapterN.Decoded([], {}));
      ReadsN(d, s[3..], ChapterN.Decoded([], {}));
    } else if |s| >= k {
      var notes := s[..k][2..2 + 2 * (s[0] % 128)];
      FirstNote(notes);
      assert notes[1] == s[3];
    }
  }

  /** A Chapter N in front, and what is to be read of it. */
  predicate StartsWithN(rest: seq<byte>, v: ChapterViews) {
    && v.p == None && v.c == None && v.n.Some? && (v.n.value.notes != [] ==> v.n.value.notes[0].y == 0)
    && rest != [] && rest[0] >= 128
  }

  lemma PartNStarts(ch: Channel)
    requires ValidChannel(ch) && WellFlagged(ch) && !ch.header.hasP && !ch.header.hasC && ch.header.hasN
    ensures StartsWithN(PartC(ch) + PartN(ch), ViewOf(ch))
  {
    assert PartC(ch) == [] && PartC(ch) + PartN(ch) == PartN(ch);
    assert PartN(ch)[0] == 128 + ch.n.value.numNotes;
  }

  /** A reader that expects Chapter N first. */
  lemma TakenForN(s: seq<byte>, program: seven, rest: seq<byte>, v: ChapterViews, strict: bool)
    requires LeftoverP(s, program, rest) && StartsWithN(rest, v)
    ensures ReadsAs(ReadChapters(s, false, false, true), v, strict) <==> SaysAsMuch(program, v, false, true, strict)
  {
    assert s[3] == rest[0];
    MarkedNotes(s);
  }

  /** Before a Chapter N it is taken for a Chapter N. */
  lemma LeftoverBeforeN(ch: Channel, strict: bool)
    requires ValidChannel(ch) && WellFlagged(ch) && ch.p.Some? && !ch.header.hasP && !ch.header.hasC && ch.header.hasN
    ensures ReadsAs(ReadChapters(Chapters(ch), ch.header.hasP, ch.header.hasC, ch.header.hasN), ViewOf(ch), strict) <==>
            Legible(ch, strict)
  {
    LeftoverShape(ch);
    PartNStarts(ch);
    TakenForN(Chapters(ch), ch.p.value.program, PartC(ch) + PartN(ch), ViewOf(ch), strict);
    LegibleLeftover(ch, strict);
  }

  /** A channel in use is read as what it holds exactly when it is legible. */
  lemma ChaptersReadExact(ch: Channel, strict: bool)
    requires ValidChannel(ch) && WellFlagged(ch) && Readable(ch) && AnyFlag(ch.header)
    ensures ReadsAs(ReadChapters(Chapters(ch), ch.header.hasP, ch.header.hasC, ch.header.hasN), ViewOf(ch), strict) <==>
            Legible(ch, strict)
  {
    if ch.header.hasP == ch.p.Some? {
      AnnouncedExact(ch, strict);
    } else if ch.header.hasC {
      LeftoverBeforeC(ch, strict);
    } else {
      LeftoverBeforeN(ch, strict);
    }
  }

  lemma WordChannel(h: ChannelHeader, len: ten)
    ensures ChannelWord(h, len) / 0x800 % 16 == if h.chan == 0 then 0 else h.chan - 1
  {
    var chan: int := if h.chan == 0 then 0 else h.chan - 1;
    assert ChannelWord(h, len) / 0x800 == h.s * 16 + chan;
  }

  lemma HeaderReads(h: ChannelHeader, len: ten, rest: seq<byte>)
    ensures var s := PackedChannelHeader(h, len) + rest;
            && GetU16(s, 0) == ChannelWord(h, len) && s[2] == Contents(h) && s[CHANNEL_HEADER_SIZE..] == rest
  {
    var word := ChannelWord(h, len);
    var s := PackedChannelHeader(h, len) + rest;
    assert s == [] + BigEndian(word, SIZEOF_U16) + ([Contents(h)] + rest);
    GetPutU16([], word, [Contents(h)] + rest);
  }

  lemma ReadsBehindHeader(h: ChannelHeader, len: ten, chapters: seq<byte>, strict: bool)
    ensures var r := ReadChapters(chapters, h.hasP, h.hasC, h.hasN);
            ReadChannel(PackedChannelHeader(h, len) + chapters, strict) ==
              if r.None? || (strict && r.value.rest != []) then None
              else Some(ChannelView(if h.chan == 0 then 0 else h.chan - 1, r.value.value))
  {
    HeaderReads(h, len, chapters);
    WordChannel(h, len);
    ContentsBits(h);
  }

  lemma ReadsAsBehindHeader(h: ChannelHeader, len: ten, chapters: seq<byte>, i: nibble, v: ChapterViews, strict: bool)
    requires h.chan == i + 1
    ensures ReadChannel(PackedChannelHeader(h, len) + chapters, strict) == Some(ChannelView(i, v)) <==>
            ReadsAs(ReadChapters(chapters, h.hasP, h.hasC, h.hasN), v, strict)
  {
    ReadsBehindHeader(h, len, chapters, strict);
  }

  lemma ChannelReadsExact(ch: Channel, i: nibble, strict: bool)
    requires ValidChannel(ch) && WellFlagged(ch) && Readable(ch) && AnyFlag(ch.header) && ch.header.chan == i + 1
    ensures ReadChannel(PackedChannel(ch), strict) == Some(ChannelView(i, ViewOf(ch))) <==> Legible(ch, strict)
  {
    ChaptersReadExact(ch, strict);
    ReadsAsBehindHeader(ch.header, CHANNEL_HEADER_SIZE + |Chapters(ch)|, Chapters(ch), i, ViewOf(ch), strict);
  }

  /** A channel out of use announces nothing, so nothing is read from it. */
  lemma UnusedReads(ch: Channel, strict: bool)
    requires ValidChannel(ch) && !AnyFlag(ch.header)
    ensures var r := ReadChannel(PackedChannel(ch), strict);
            r.Some? ==> r.value.chapters == NO_CHAPTERS
  {
    ReadsBehindHeader(ch.header, CHANNEL_HEADER_SIZE + |Chapters(ch)|, Chapters(ch), strict);
  }

  // The journal.

  function MarkedFrom(j: State, i: nat): (s: set<nat>)
    requires Valid(j) && i <= MAX_CHANNELS
    ensures forall k :: k in s ==> i <= k < MAX_CHANNELS
    ensures forall k: nibble :: k in s <==> i <= k && Marked(j, k)
    decreases j, MAX_CHANNELS - i
  {
    if i == MAX_CHANNELS then {} else (if Marked(j, i) then {i} else {}) + MarkedFrom(j, i + 1)
  }

  lemma MarkedStep(j: State, i: nibble)
    requires Valid(j)
    ensures |MarkedFrom(j, i)| == |MarkedFrom(j, i + 1)| + if Marked(j, i) then 1 else 0
  {
    assert i !in MarkedFrom(j, i + 1);
    if !Marked(j, i) {
      assert MarkedFrom(j, i) == MarkedFrom(j, i + 1);
    }
  }

  lemma MarkedExists(j: State, i: nat)
    requires Valid(j) && i <= MAX_CHANNELS
    ensures |MarkedFrom(j, i)| > 0 <==> exists k: nibble :: k >= i && Marked(j, k)
  {
    if k: nibble :| k >= i && Marked(j, k) {
      assert k in MarkedFrom(j, i);
    }
    if |MarkedFrom(j, i)| > 0 {
      var k :| k in MarkedFrom(j, i);
    }
  }

  predicate NoneLeftFrom(j: State, i: nat)
    requires Valid(j)
  {
    forall k: nibble :: k >= i && j.channels[k].Some? ==> Marked(j, k)
  }

  lemma {:induction false} AllocatedCount(j: State, i: nat)
    requires Valid(j) && i <= MAX_CHANNELS
    ensures |PackedFrom(j, i)| >= |MarkedFrom(j, i)|
    ensures |PackedFrom(j, i)| == |MarkedFrom(j, i)| <==> NoneLeftFrom(j, i)
    decreases MAX_CHANNELS - i
  {
    if i < MAX_CHANNELS {
      AllocatedCount(j, i + 1);
      MarkedStep(j, i);
      NoneLeftStep(j, i);
    }
  }

  lemma NoneLeftStep(j: State, i: nibble)
    requires Valid(j)
    ensures NoneLeftFrom(j, i) <==> NoneLeftFrom(j, i + 1) && (j.channels[i].Some? ==> Marked(j, i))
    ensures Marked(j, i) ==> j.channels[i].Some?
  {
  }

  /** The channels of a reachable journal: those in use have a flag, and the others none. */
  predicate OrderlyChannel(j: State, i: nibble)
    requires Valid(j)
  {
    j.channels[i].Some? ==>
      WellFlagged(j.channels[i].value) && (Marked(j, i) <==> AnyFlag(j.channels[i].value.header))
  }

  predicate Orderly(j: State)
    requires Valid(j)
  {
    forall i: nibble :: OrderlyChannel(j, i)
  }

  predicate AllReadable(j: State)
    requires Valid(j)
  {
    forall i: nibble :: j.channels[i].Some? ==> Readable(j.channels[i].value)
  }

  /** From `i` on, every channel in use is legible, and none out of use stands before it. */
  predicate LegibleFrom(j: State, i: nat, strict: bool)
    requires Valid(j)
  {
    && (forall k: nibble :: k >= i && Marked(j, k) ==> Legible(ChannelOf(j, k), strict))
    && (forall k, m: nibble :: i <= k < m && j.channels[k].Some? && Marked(j, m) ==> Marked(j, k))
  }

  lemma LegibleUsed(j: State, i: nibble, strict: bool)
    requires Valid(j) && Marked(j, i)
    ensures LegibleFrom(j, i, strict) <==> Legible(ChannelOf(j, i), strict) && LegibleFrom(j, i + 1, strict)
  {
  }

  lemma LegibleUnused(j: State, i: nibble, strict: bool)
    requires Valid(j) && j.channels[i].Some? && !Marked(j, i)
    ensures LegibleFrom(j, i, strict) <==> |MarkedFrom(j, i + 1)| == 0
  {
    MarkedExists(j, i + 1);
  }

  lemma LegibleNone(j: State, i: nibble, strict: bool)
    requires Valid(j) && j.channels[i].None?
    ensures LegibleFrom(j, i, strict) <==> LegibleFrom(j, i + 1, strict)
    ensures !Marked(j, i)
  {
  }

  lemma ReadChannelsCons(one: seq<byte>, parts: seq<seq<byte>>, view: ChannelView, views: seq<ChannelView>, strict: bool)
    ensures ReadChannels([one] + parts, strict) == Some([view] + views) <==>
            ReadChannel(one, strict) == Some(view) && ReadChannels(parts, strict) == Some(views)
  {
    var all := [one] + parts;
    assert all[0] == one && all[1..] == parts;
    if ReadChannels(all, strict).Some? {
      var first, rest := ReadChannel(one, strict).value, ReadChannels(parts, strict).value;
      assert ([first] + rest)[0] == first && ([first] + rest)[1..] == rest;
      assert ([view] + views)[0] == view && ([view] + views)[1..] == views;
    }
  }

  /** The first channels of the packed ones, as many as are in use. */
  function InPlace(j: State, i: nat): seq<seq<byte>>
    requires Valid(j) && i <= MAX_CHANNELS
  {
    AllocatedCount(j, i);
    PackedFrom(j, i)[..|MarkedFrom(j, i)|]
  }

  predicate ReadFrom(j: State, i: nat, strict: bool)
    requires Valid(j) && i <= MAX_CHANNELS
  {
    ReadChannels(InPlace(j, i), strict) == Some(Views(j, i))
  }

  lemma {:induction false} ViewsNotEmpty(j: State, i: nat)
    requires Valid(j) && i <= MAX_CHANNELS && Orderly(j) && Views(j, i) != []
    ensures Views(j, i)[0].chapters != NO_CHAPTERS
    decreases MAX_CHANNELS - i
  {
    if Marked(j, i) {
      assert Views(j, i)[0] == ChannelView(i, ViewOf(ChannelOf(j, i)));
      assert OrderlyChannel(j, i);
    } else {
      assert Views(j, i) == Views(j, i + 1);
      ViewsNotEmpty(j, i + 1);
    }
  }

  lemma InPlaceUsed(j: State, i: nibble)
    requires Valid(j) && Marked(j, i)
    ensures InPlace(j, i) == [PackedChannel(ChannelOf(j, i))] + InPlace(j, i + 1)
  {
    AllocatedCount(j, i + 1);
    MarkedStep(j, i);
    NoneLeftStep(j, i);
    Front(PackedChannel(ChannelOf(j, i)), PackedFrom(j, i + 1), |MarkedFrom(j, i + 1)|);
  }

  lemma InPlaceNone(j: State, i: nibble, strict: bool)
    requires Valid(j) && j.channels[i].None?
    ensures ReadFrom(j, i, strict) <==> ReadFrom(j, i + 1, strict)
  {
    MarkedStep(j, i);
    assert PackedFrom(j, i) == PackedFrom(j, i + 1);
    assert Views(j, i) == Views(j, i + 1);
  }

  lemma InPlaceUnused(j: State, i: nibble)
    requires Valid(j) && j.channels[i].Some? && Views(j, i) != []
    ensures InPlace(j, i) != [] && InPlace(j, i)[0] == PackedChannel(j.channels[i].value)
  {
    var n := |MarkedFrom(j, i)|;
    AllocatedCount(j, i);
    assert PackedFrom(j, i)[0] == PackedChannel(j.channels[i].value);
    assert PackedFrom(j, i)[..n][0] == PackedFrom(j, i)[0];
  }

  lemma Front(one: seq<byte>, more: seq<seq<byte>>, n: nat)
    requires n <= |more|
    ensures ([one] + more)[..n + 1] == [one] + more[..n]
  {
  }

  /** A channel in use is read and the rest decides. */
  lemma UsedStep(j: State, i: nibble, strict: bool)
    requires Valid(j) && Orderly(j) && AllReadable(j) && Marked(j, i)
    ensures ReadFrom(j, i, strict) <==> Legible(ChannelOf(j, i), strict) && ReadFrom(j, i + 1, strict)
  {
    var ch := ChannelOf(j, i);
    assert OrderlyChannel(j, i);
    InPlaceUsed(j, i);
    ChannelReadsExact(ch, i, strict);
    ReadChannelsCons(PackedChannel(ch), InPlace(j, i + 1), ChannelView(i, ViewOf(ch)), Views(j, i + 1), strict);
  }

  /** A channel out of use is read in the place of one in use, if there is any more of those. */
  lemma UnusedStep(j: State, i: nibble, strict: bool)
    requires Valid(j) && Orderly(j) && j.channels[i].Some? && !Marked(j, i)
    ensures ReadFrom(j, i, strict) <==> |MarkedFrom(j, i + 1)| == 0
  {
    var views := Views(j, i);
    MarkedStep(j, i);
    if views != [] {
      assert OrderlyChannel(j, i);
      UnusedReads(j.channels[i].value, strict);
      ViewsNotEmpty(j, i);
      InPlaceUnused(j, i);
      var parts := InPlace(j, i);
      assert parts == [parts[0]] + parts[1..] && views == [views[0]] + views[1..];
      ReadChannelsCons(parts[0], parts[1..], views[0], views[1..], strict);
    } else {
      assert InPlace(j, i) == [];
    }
  }

  lemma {:induction false} ChannelsReadExact(j: State, i: nat, strict: bool)
    requires Valid(j) && i <= MAX_CHANNELS && Orderly(j) && AllReadable(j)
    ensures ReadFrom(j, i, strict) <==> LegibleFrom(j, i, strict)
    decreases MAX_CHANNELS - i
  {
    if i < MAX_CHANNELS {
      ChannelsReadExact(j, i + 1, strict);
      if j.channels[i].None? {
        InPlaceNone(j, i, strict);
        LegibleNone(j, i, strict);
      } else if Marked(j, i) {
        UsedStep(j, i, strict);
        LegibleUsed(j, i, strict);
      } else {
        UnusedStep(j, i, strict);
        LegibleUnused(j, i, strict);
      }
    }
  }

  // Cutting the journal into channels.

  predicate SelfSized(part: seq<byte>) {
    |part| >= CHANNEL_HEADER_SIZE && LengthField(part) == |part|
  }

  lemma LengthOfFirst(part: seq<byte>, rest: seq<byte>)
    requires |part| >= CHANNEL_HEADER_SIZE
    ensures LengthField(part + rest) == LengthField(part)
  {
    assert (part + rest)[0..2] == part[0..2];
  }

  lemma {:induction false} AllSelfSized(j: State, i: nat)
    requires Valid(j) && i <= MAX_CHANNELS
    ensures forall k :: 0 <= k < |PackedFrom(j, i)| ==> SelfSized(PackedFrom(j, i)[k])
    decreases MAX_CHANNELS - i
  {
    if i < MAX_CHANNELS {
      AllSelfSized(j, i + 1);
      if j.channels[i].Some? {
        var one := PackedChannel(j.channels[i].value);
        LengthIsSize(j.channels[i].value, []);
        assert one + [] == one;
      }
    }
  }

  lemma {:induction false} TakeJoined(parts: seq<seq<byte>>, n: nat)
    requires n <= |parts| && forall k :: 0 <= k < |parts| ==> SelfSized(parts[k])
    ensures Take(Join(parts), n) == Some(Part(parts[..n], Join(parts[n..])))
    decreases n
  {
    if n > 0 {
      var one, rest := parts[0], Join(parts[1..]);
      LengthOfFirst(one, rest);
      TakeJoined(parts[1..], n - 1);
      assert (one + rest)[..|one|] == one && (one + rest)[|one|..] == rest;
      assert [one] + parts[1..][..n - 1] == parts[..n] && parts[1..][n - 1..] == parts[n..];
    } else {
      assert parts[0..] == parts;
    }
  }

  lemma JoinEmpty(parts: seq<seq<byte>>)
    requires forall k :: 0 <= k < |parts| ==> SelfSized(parts[k])
    ensures Join(parts) == [] <==> parts == []
  {
    if parts != [] {
      assert |Join(parts)| >= |parts[0]|;
    }
  }

  lemma TakePacked(j: State, n: nat) returns (rest: seq<byte>)
    requires Valid(j) && HasData(j) && n <= |PackedFrom(j, 0)|
    ensures Take(Packed(j)[JOURNAL_HEADER_SIZE..], n) == Some(Part(PackedFrom(j, 0)[..n], rest))
    ensures rest == [] <==> n == |PackedFrom(j, 0)|
  {
    var parts := PackedFrom(j, 0);
    rest := Join(parts[n..]);
    AllSelfSized(j, 0);
    assert Packed(j)[JOURNAL_HEADER_SIZE..] == Join(parts);
    TakeJoined(parts, n);
    JoinEmpty(parts[n..]);
  }

  // Reachable journals.

  lemma MarkedIsTouched(ops: seq<Op>)
    ensures MarkedFrom(After(ops), 0) == TouchedLow(ops)
  {
    TouchedBound(ops);
    forall i: nibble
      ensures i in MarkedFrom(After(ops), 0) <==> i in TouchedLow(ops)
    {
      MarksInvariant(ops, i);
    }
  }

  /** The channels counted are those in use. */
  lemma TotchanCountsMarked(ops: seq<Op>)
    requires RecoveryTold.LowOnly(ops)
    ensures After(ops).header.totchan == |MarkedFrom(After(ops), 0)| <= 15
  {
    RecoveryTold.TotchanIsTouched(ops);
    MarkedIsTouched(ops);
  }

  lemma RecordControlFlags(ch: Channel, number: byte, value: seven)
    requires ValidChannel(ch) && WellFlagged(ch) && number < ChapterC.CONTROLLERS
    ensures WellFlagged(ch.(header := ch.header.(hasC := true), c := Some(ChapterC.Record(ControlChapter(ch), number, value))))
  {
    var c := ChapterC.Record(ControlChapter(ch), number, value);
    assert ChapterC.IsActive(c.logs, number);
    ChapterC.ActiveCount(c.logs, 0);
  }

  lemma RecordNoteFlags(ch: Channel, note: seven, velocity: seven, stray: nibble)
    requires ValidChannel(ch) && WellFlagged(ch)
    ensures var n := ChapterN.RecordOn(NoteChapter(ch), note, velocity);
            WellFlagged(ch.(header := ch.header.(hasN := true), n := Some(n)))
    ensures var n := ChapterN.RecordOff(NoteChapter(ch), note, stray);
            WellFlagged(ch.(header := ch.header.(hasN := true), n := Some(n)))
  {
  }

  lemma ClearFlags(ch: Channel)
    requires ValidChannel(ch) && WellFlagged(ch)
    ensures WellFlagged(ResetChannel(ch))
  {
    if ch.c.Some? {
      ChapterC.ActiveCount(ChapterC.Reset(ch.c.value).logs, 0);
    }
  }

  lemma CreatedFlags()
    ensures WellFlagged(CreateChannel())
  {
  }

  lemma DoFlags(j: State, op: Op, i: nibble)
    requires Valid(j) && (j.channels[i].Some? ==> WellFlagged(j.channels[i].value))
    ensures var r := Do(j, op); r.channels[i].Some? ==> WellFlagged(r.channels[i].value)
  {
    var ch := ChannelOf(j, i);
    CreatedFlags();
    match op {
      case Clear =>
        assert Do(j, op).channels[i] == ResetSlot(j.channels[i]);
        ClearFlags(ch);
      case Control(channel, number, value, _) =>
        if channel == i && number < ChapterC.CONTROLLERS {
          RecordControlFlags(ch, number, value);
        }
      case NoteOff(channel, note, stray, _) => RecordNoteFlags(ch, note, 0, stray);
      case NoteOn(channel, note, velocity, _) => RecordNoteFlags(ch, note, velocity, 0);
      case _ =>
    }
  }

  lemma DoMarksFlags(j: State, op: Op, i: nibble)
    requires Valid(j) && i < 15
    requires j.channels[i].Some? ==> (Marked(j, i) <==> AnyFlag(j.channels[i].value.header))
    ensures var r := Do(j, op); r.channels[i].Some? ==> (Marked(r, i) <==> AnyFlag(r.channels[i].value.header))
  {
    if op.Clear? {
      assert Do(j, op).channels[i] == ResetSlot(j.channels[i]);
    }
  }

  lemma {:induction false} FlagsInvariant(ops: seq<Op>, i: nibble)
    ensures After(ops).channels[i].Some? ==> WellFlagged(After(ops).channels[i].value)
    ensures After(ops).channels[i].Some? && i < 15 ==> (Marked(After(ops), i) <==> AnyFlag(After(ops).channels[i].value.header))
    decreases |ops|
  {
    if ops != [] {
      var before, op := ops[..|ops| - 1], ops[|ops| - 1];
      FlagsInvariant(before, i);
      DoFlags(After(before), op, i);
      if i < 15 {
        DoMarksFlags(After(before), op, i);
      }
    }
  }

  lemma {:induction false} LastUnflagged(ops: seq<Op>)
    requires RecoveryTold.LowOnly(ops)
    ensures After(ops).channels[15].Some? ==> !AnyFlag(After(ops).channels[15].value.header)
    decreases |ops|
  {
    if ops != [] {
      var before, op := ops[..|ops| - 1], ops[|ops| - 1];
      if op.Clear? {
        assert After(ops).channels[15] == ResetSlot(After(before).channels[15]);
      } else {
        LastUnflagged(before);
      }
    }
  }

  lemma OrderlyInvariant(ops: seq<Op>)
    requires RecoveryTold.LowOnly(ops)
    ensures Orderly(After(ops))
  {
    LastUnflagged(ops);
    forall i: nibble
      ensures OrderlyChannel(After(ops), i)
    {
      FlagsInvariant(ops, i);
    }
  }

  /** No channel was left allocated but out of use by a reset, and no chapter of a channel in
      use was left allocated but unflagged. */
  predicate Fresh(j: State)
    requires Valid(j)
  {
    NoneLeftFrom(j, 0) && LegibleFrom(j, 0, true)
  }

  /** Reading behind a journal header with the A flag. */
  lemma ReadTaken(s: seq<byte>, n: nat, checkpoint: u16, parts: seq<seq<byte>>, rest: seq<byte>, strict: bool)
    requires |s| >= JOURNAL_HEADER_SIZE && s[0] / 0x40 % 2 == 0 && s[0] / 0x20 % 2 == 1 && s[0] % 16 + 1 == n
    requires s[1] as int * 256 + s[2] as int == checkpoint && Take(s[JOURNAL_HEADER_SIZE..], n) == Some(Part(parts, rest))
    ensures var channels := ReadChannels(parts, strict);
            ReadJournal(s, strict) ==
              if channels.None? || (strict && rest != []) then None else Some(JournalView(true, checkpoint, channels.value))
  {
  }

  lemma TakeInPlace(j: State) returns (rest: seq<byte>)
    requires Valid(j) && HasData(j)
    ensures Take(Packed(j)[JOURNAL_HEADER_SIZE..], |MarkedFrom(j, 0)|) == Some(Part(InPlace(j, 0), rest))
    ensures rest == [] <==> NoneLeftFrom(j, 0)
  {
    AllocatedCount(j, 0);
    rest := TakePacked(j, |MarkedFrom(j, 0)|);
  }

  lemma OpeningReads(j: State)
    requires Valid(j) && HasData(j) && j.header.active && 0 < j.header.totchan <= 16
    ensures var s := Packed(j);
            && |s| >= JOURNAL_HEADER_SIZE && s[0] / 0x40 % 2 == 0 && s[0] / 0x20 % 2 == 1
            && s[0] % 16 + 1 == j.header.totchan && s[1] as int * 256 + s[2] as int == j.header.seqNo
  {
    HeaderOctets(j);
  }

  /** The reading of a journal whose TOTCHAN counts its channels in use. */
  lemma PackedReads(j: State, strict: bool)
    requires Valid(j) && HasData(j) && j.header.active && j.header.totchan == |MarkedFrom(j, 0)| <= 15
    ensures var channels := ReadChannels(InPlace(j, 0), strict);
            ReadJournal(Packed(j), strict) ==
              if channels.None? || (strict && !NoneLeftFrom(j, 0)) then None
              else Some(JournalView(true, j.header.seqNo, channels.value))
  {
    var rest := TakeInPlace(j);
    OpeningReads(j);
    ReadTaken(Packed(j), |MarkedFrom(j, 0)|, j.header.seqNo, InPlace(j, 0), rest, strict);
  }

  /** What is to be read of a journal: its A flag is set, its checkpoint is the low half of the
      number of the latest add, and its channels are those in use. */
  function Whole(ops: seq<Op>): JournalView
    requires LatestAdd(ops).Some?
  {
    JournalView(true, LatestAdd(ops).value % 0x1_0000, Views(After(ops), 0))
  }

  /** After any history without channel 15 since the last reset, a strict reader of the packed
      journal gets exactly the checkpoint and the channels in use with the chapters recorded
      since then if and only if the resets left nothing behind; a skipping reader, if and only
      if no channel out of use stands before one in use, and no Chapter P left behind says
      something else than the chapters behind it. */
  lemma JournalReadsExactly(ops: seq<Op>, strict: bool)
    requires RecoveryTold.LowOnly(ops) && HasData(After(ops)) && AllReadable(After(ops))
    ensures LatestAdd(ops).Some?
    ensures ReadJournal(Packed(After(ops)), strict) == Some(Whole(ops)) <==>
            if strict then Fresh(After(ops)) else LegibleFrom(After(ops), 0, false)
  {
    CountedWasAdded(ops);
    HeaderInvariant(ops);
    TotchanCountsMarked(ops);
    OrderlyInvariant(ops);
    PackedReads(After(ops), strict);
    ChannelsReadExact(After(ops), 0, strict);
  }

  // What a reader learns.


  /** The chapters of a channel among those read. */
  function ViewFor(views: seq<ChannelView>, i: nat): Option<ChapterViews> {
    if views == [] then None
    else if views[0].channel == i then Some(views[0].chapters)
    else ViewFor(views[1..], i)
  }

  function LearnedControls(views: seq<ChannelView>, i: nat): map<byte, byte> {
    var v := ViewFor(views, i);
    if v.Some? && v.value.c.Some? then ChapterC.Apply(map[], v.value.c.value) else map[]
  }

  function LearnedProgram(views: seq<ChannelView>, i: nat): Option<byte> {
    var v := ViewFor(views, i);
    if v.Some? && v.value.p.Some? then Some(v.value.p.value.program) else None
  }

  function Learned(views: seq<ChannelView>): Recovery.Memory {
    Recovery.Memory(seq(MAX_CHANNELS, i requires 0 <= i < MAX_CHANNELS => LearnedControls(views, i)),
                    seq(MAX_CHANNELS, i requires 0 <= i < MAX_CHANNELS => LearnedProgram(views, i)))
  }

  lemma {:induction false} ViewForMarked(j: State, k: nat, i: nibble)
    requires Valid(j) && k <= MAX_CHANNELS
    ensures ViewFor(Views(j, k), i) == if k <= i && Marked(j, i) then Some(ViewOf(ChannelOf(j, i))) else None
    decreases MAX_CHANNELS - k
  {
    if k < MAX_CHANNELS {
      ViewForMarked(j, k + 1, i);
      if Marked(j, k) {
        assert Views(j, k)[0] == ChannelView(k, ViewOf(ChannelOf(j, k)));
        assert Views(j, k)[1..] == Views(j, k + 1);
      } else {
        assert Views(j, k) == Views(j, k + 1);
      }
    }
  }

  lemma ChapterLearned(c: ChapterC.Chapter)
    requires ChapterC.Valid(c)
    ensures ChapterC.Apply(map[], ChapterC.Entries(c.logs, 0)) == ChapterC.Values(c)
    ensures ChapterC.ActiveFrom(c.logs, 0) == 0 ==> ChapterC.Values(c) == map[]
    ensures ChapterC.ActiveFrom(c.logs, 0) < ChapterC.CONTROLLERS ==> Recovery.HasRoom(ChapterC.Values(c))
  {
    ChapterC.ApplySetsValues(map[], c);
    assert map[] + ChapterC.Values(c) == ChapterC.Values(c);
    ChapterC.ActiveCount(c.logs, 0);
    if ChapterC.ActiveFrom(c.logs, 0) < ChapterC.CONTROLLERS {
      var k: byte :| k < ChapterC.CONTROLLERS && !ChapterC.IsActive(c.logs, k);
      assert k !in ChapterC.Values(c);
    }
  }

  lemma {:induction false} UnmarkedHolds(ops: seq<Op>, i: nibble)
    requires RecoveryTold.LowOnly(ops) && !Marked(After(ops), i)
    ensures ControlsOf(After(ops), i) == map[] && ProgramOf(After(ops), i) == None
  {
    MarksInvariant(ops, i);
    RecoveryTold.HeldIsTouched(ops, i);
    ControlsInvariant(ops, i);
    ProgramInvariant(ops, i);
  }

  lemma MarkedLearned(j: State, i: nibble)
    requires Valid(j) && OrderlyChannel(j, i) && Marked(j, i)
    ensures LearnedControls(Views(j, 0), i) == ControlsOf(j, i) && LearnedProgram(Views(j, 0), i) == ProgramOf(j, i)
  {
    var ch := ChannelOf(j, i);
    ViewForMarked(j, 0, i);
    if ch.c.Some? {
      ChapterLearned(ch.c.value);
    }
  }

  lemma RoomHere(j: State, i: nibble)
    requires Valid(j) && AllReadable(j)
    ensures Recovery.HasRoom(ControlsOf(j, i))
  {
    var ch := ChannelOf(j, i);
    if ch.c.Some? {
      ChapterLearned(ch.c.value);
    } else {
      assert 0 !in ControlsOf(j, i);
    }
  }

  lemma ChannelLearned(ops: seq<Op>, i: nibble)
    requires RecoveryTold.LowOnly(ops)
    ensures LearnedControls(Views(After(ops), 0), i) == ControlsOf(After(ops), i)
    ensures LearnedProgram(Views(After(ops), 0), i) == ProgramOf(After(ops), i)
  {
    OrderlyInvariant(ops);
    assert OrderlyChannel(After(ops), i);
    if Marked(After(ops), i) {
      MarkedLearned(After(ops), i);
    } else {
      ViewForMarked(After(ops), 0, i);
      UnmarkedHolds(ops, i);
    }
  }

  /** So where a journal is read, a reader of the whole wire form learns exactly what the recovery
      theorem takes a packet to tell. */
  lemma WireTellsCarried(ops: seq<Op>, strict: bool)
    requires RecoveryTold.LowOnly(ops) && HasData(After(ops)) && AllReadable(After(ops))
    requires if strict then Fresh(After(ops)) else LegibleFrom(After(ops), 0, false)
    ensures var r := ReadJournal(Packed(After(ops)), strict);
            r.Some? && Learned(r.value.channels) == Recovery.Told(Recovery.Carry(After(ops)))
  {
    var j := After(ops);
    JournalReadsExactly(ops, strict);
    forall i: nibble
      ensures LearnedControls(Views(j, 0), i) == ControlsOf(j, i) && LearnedProgram(Views(j, 0), i) == ProgramOf(j, i)
      ensures Recovery.HasRoom(ControlsOf(j, i))
    {
      ChannelLearned(ops, i);
      RoomHere(j, i);
    }
    RecoveryTold.CarryTellsHeld(ops);
    RecoveryTold.SameMemory(Learned(Views(j, 0)), RecoveryTold.Held(j));
  }

  // Journals that were never reset.

  lemma DoFresh(j: State, op: Op, i: nibble)
    requires Valid(j) && !op.Clear? && op.channel < 15
    requires j.channels[i].Some? ==> Marked(j, i) && Announced(j.channels[i].value)
    ensures var r := Do(j, op); r.channels[i].Some? ==> Marked(r, i) && Announced(r.channels[i].value)
  {
    var r := Do(j, op);
    DoMarks(j, op, i);
    if op.Control? && op.channel == i && op.number < ChapterC.CONTROLLERS {
      assert ChapterC.IsActive(r.channels[i].value.c.value.logs, op.number);
      ChapterC.ActiveCount(r.channels[i].value.c.value.logs, 0);
    }
  }

  lemma {:induction false} UnresetChannel(ops: seq<Op>, i: nibble)
    requires forall k :: 0 <= k < |ops| ==> !ops[k].Clear? && ops[k].channel < 15
    ensures After(ops).channels[i].Some? ==> Marked(After(ops), i) && Announced(After(ops).channels[i].value)
    decreases |ops|
  {
    if ops != [] {
      UnresetChannel(ops[..|ops| - 1], i);
      DoFresh(After(ops[..|ops| - 1]), ops[|ops| - 1], i);
    }
  }

  /** Until the first reset both readers get every journal. */
  lemma UnresetIsFresh(ops: seq<Op>)
    requires forall k :: 0 <= k < |ops| ==> !ops[k].Clear? && ops[k].channel < 15
    ensures Fresh(After(ops)) && LegibleFrom(After(ops), 0, false)
  {
    forall i: nibble
      ensures After(ops).channels[i].Some? ==> Marked(After(ops), i) && Announced(After(ops).channels[i].value)
    {
      UnresetChannel(ops, i);
    }
  }

  // Examples of journals that are not read.

  /** A controller on channel `a`, a reset, a controller on channel `b`. */
  function Leftover(a: nibble, b: nibble): seq<Op> {
    [Control(a, 7, 100, 2), Clear, Control(b, 7, 100, 3)]
  }

  /** The journal before its last add. */
  lemma LeftoverCleared(a: nibble, b: nibble)
    ensures var j1, j2 := Do(Create(), Leftover(a, b)[0]), After(Leftover(a, b)[..2]);
            j2 == Cleared(j1) && RecoveryTold.LowOnly(Leftover(a, b)[..2]) && After(Leftover(a, b)) == Do(j2, Leftover(a, b)[2])
  {
    var ops := Leftover(a, b);
    assert ops[..2][..1] == ops[..1] && ops[..1][..0] == [];
    assert After(ops[..1]) == Do(After([]), ops[0]);
  }

  lemma LeftoverHistory(a: nibble, b: nibble)
    requires a < 15 && b < 15 && a != b
    ensures var j := After(Leftover(a, b));
            && RecoveryTold.LowOnly(Leftover(a, b)) && HasData(j)
            && j.channels[a].Some? && !Marked(j, a) && Marked(j, b) && ChannelOf(j, b).p.None?
            && forall i: nibble :: i != a && i != b ==> j.channels[i].None?
  {
    var ops := Leftover(a, b);
    var j1 := Do(Create(), ops[0]);
    var j2 := Cleared(j1);
    LeftoverCleared(a, b);
    DoMarks(j1, Clear, a);
    DoMarks(j1, Clear, b);
    DoMarks(j2, ops[2], a);
    DoMarks(j2, ops[2], b);
    DoCounts(j2, ops[2]);
  }

  lemma LeftoverLegible(j: State, a: nibble, b: nibble)
    requires Valid(j) && a != b && j.channels[a].Some? && !Marked(j, a) && Marked(j, b) && ChannelOf(j, b).p.None?
    requires forall i: nibble :: i != a && i != b ==> j.channels[i].None?
    ensures !NoneLeftFrom(j, 0) && (LegibleFrom(j, 0, false) <==> b < a)
  {
    forall i: nibble
      ensures Marked(j, i) <==> i == b
    {
    }
  }

  /** The strict reader never gets such a journal; the skipping reader, if and only if the
      channel left behind comes after the one in use. */
  lemma LeftoverExact(a: nibble, b: nibble)
    requires a < 15 && b < 15 && a != b
    ensures !Fresh(After(Leftover(a, b))) && (LegibleFrom(After(Leftover(a, b)), 0, false) <==> b < a)
  {
    LeftoverHistory(a, b);
    LeftoverLegible(After(Leftover(a, b)), a, b);
  }

  // Channel 15.

  lemma DoLastNumber(j: State, op: Op)
    requires Valid(j) && (j.channels[15].Some? ==> j.channels[15].value.header.chan == 0)
    ensures var r := Do(j, op); r.channels[15].Some? ==> r.channels[15].value.header.chan == 0
  {
    if op.Clear? {
      assert Do(j, op).channels[15] == ResetSlot(j.channels[15]);
    }
  }

  lemma {:induction false} LastHasNoNumber(ops: seq<Op>)
    ensures After(ops).channels[15].Some? ==> After(ops).channels[15].value.header.chan == 0
    decreases |ops|
  {
    if ops != [] {
      LastHasNoNumber(ops[..|ops| - 1]);
      DoLastNumber(After(ops[..|ops| - 1]), ops[|ops| - 1]);
    }
  }

  /** Whatever is recorded on channel 15, a reader takes it for channel 0. */
  lemma LastReadAsFirst(ops: seq<Op>, strict: bool)
    requires After(ops).channels[15].Some?
    ensures var r := ReadChannel(PackedChannel(After(ops).channels[15].value), strict);
            r.Some? ==> r.value.channel == 0
  {
    var ch := After(ops).channels[15].value;
    LastHasNoNumber(ops);
    ReadsBehindHeader(ch.header, CHANNEL_HEADER_SIZE + |Chapters(ch)|, Chapters(ch), strict);
  }

  lemma OneControl(number: seven, value: seven)
    ensures var c := ChapterC.Record(ChapterC.Create(), number, value);
            ChapterC.Entries(c.logs, 0) == [ChapterC.Entry(number, value)]
  {
    OneEntry(ChapterC.Record(ChapterC.Create(), number, value).logs, number, 0);
  }

  lemma {:induction false} OneEntry(logs: seq<ChapterC.Log>, number: seven, k: nat)
    requires k <= |logs| == ChapterC.CONTROLLERS
    requires forall i :: 0 <= i < |logs| ==> (ChapterC.IsActive(logs, i) <==> i == number)
    ensures ChapterC.Entries(logs, k) == if k <= number then [ChapterC.Entry(number, logs[number].value)] else []
    decreases |logs| - k
  {
    if k < |logs| {
      OneEntry(logs, number, k + 1);
    }
  }

  /** The journal after one controller on channel 15. */
  lemma LastChannelOnly(number: seven, value: seven, seqNo: u32)
    ensures var j := After([Control(15, number, value, seqNo)]);
            var c := ChapterC.Record(ChapterC.Create(), number, value);
            && j.header == JournalHeader(true, 1, seqNo % 0x1_0000)
            && j.channels[15] == Some(Channel(ChannelHeader(1, 0, 0, false, true, false), None, Some(c), None))
            && forall i: nibble :: i < 15 ==> j.channels[i].None?
  {
    var ops := [Control(15, number, value, seqNo)];
    assert ops[..0] == [] && After(ops) == Do(After([]), ops[0]);
  }

  /** One controller on channel 15 is enough: both readers set it on channel 0. */
  lemma OneControlOnLast(number: seven, value: seven, seqNo: u32, strict: bool)
    ensures var j := After([Control(15, number, value, seqNo)]);
            HasData(j) &&
            ReadJournal(Packed(j), strict) ==
            Some(JournalView(true, seqNo % 0x1_0000,
                             [ChannelView(0, ChapterViews(None, Some([ChapterC.Entry(number, value)]), None))]))
  {
    var j := After([Control(15, number, value, seqNo)]);
    LastChannelOnly(number, value, seqNo);
    var ch := j.channels[15].value;
    RecordControlFlags(CreateChannel(), number, value);
    OneControl(number, value);
    OneChannelReads(ch, ChapterC.Entry(number, value), strict);
    PackedOnlyLast(j, 0);
    OnePartReads(j, PackedChannel(ch), strict);
    ReadChannelsCons(PackedChannel(ch), [], ChannelView(0, ViewOf(ch)), [], strict);
    assert [PackedChannel(ch)] + [] == [PackedChannel(ch)] && [ChannelView(0, ViewOf(ch))] + [] == [ChannelView(0, ViewOf(ch))];
  }

  lemma OnePartReads(j: State, one: seq<byte>, strict: bool)
    requires Valid(j) && j.header.active && j.header.totchan == 1 && PackedFrom(j, 0) == [one]
    ensures var channels := ReadChannels([one], strict);
            ReadJournal(Packed(j), strict) ==
              if channels.None? then None else Some(JournalView(true, j.header.seqNo, channels.value))
  {
    var rest := TakePacked(j, 1);
    HeaderOctets(j);
    assert [one][..1] == [one];
    ReadTaken(Packed(j), 1, j.header.seqNo, [one], rest, strict);
  }

  lemma OneChannelReads(ch: Channel, e: ChapterC.Entry, strict: bool)
    requires ValidChannel(ch) && WellFlagged(ch) && ch.header.chan == 0 && ch.p.None? && ch.n.None? && ch.header.hasC
    requires ChapterC.Entries(ch.c.value.logs, 0) == [e]
    ensures ReadChannel(PackedChannel(ch), strict) == Some(ChannelView(0, ViewOf(ch)))
    ensures ViewOf(ch) == ChapterViews(None, Some([e]), None)
  {
    ReadsAnnounced(ch);
    ReadsBehindHeader(ch.header, CHANNEL_HEADER_SIZE + |Chapters(ch)|, Chapters(ch), strict);
  }

  lemma {:induction false} PackedOnlyLast(j: State, i: nat)
    requires Valid(j) && i <= 15 && j.channels[15].Some? && forall k :: 0 <= k < 15 ==> j.channels[k].None?
    ensures PackedFrom(j, i) == [PackedChannel(j.channels[15].value)]
    decreases 15 - i
  {
    if i < 15 {
      PackedOnlyLast(j, i + 1);
    } else {
      assert PackedFrom(j, 16) == [];
    }
  }
}
