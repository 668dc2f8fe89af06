/** The wire form of the recovery journal: a three-octet journal header, then for each channel
    a header with a ten-bit LENGTH and the chapters in the order P, C, N (section 5 of
    RFC 6295; `channel_pack` and `journal_pack` of midi_journal.c). */
module JournalWire {
  import opened Bytes
  import opened Journal
  import ChapterC
  import ChapterN
  import ChapterP

  const CHANNEL_HEADER_SIZE := 3
  const JOURNAL_HEADER_SIZE := 3
  const MAX_CHANNEL_SIZE := 535

  function ChannelWord(h: ChannelHeader, len: ten): u16 {
    h.s * 0x8000 + (if h.chan == 0 then 0 else h.chan - 1) * 0x800 + h.h * 0x400 + len
  }

  function Contents(h: ChannelHeader): byte {
    Flag(h.hasP, 0x80) + Flag(h.hasC, 0x40) + Flag(h.hasN, 0x08)
  }

  function PackedChannelHeader(h: ChannelHeader, len: ten): (s: seq<byte>)
    ensures |s| == CHANNEL_HEADER_SIZE
  {
    BigEndian(ChannelWord(h, len), SIZEOF_U16) + [Contents(h)]
  }

  /** A chapter is packed when it is allocated, flagged or not. */
  function Chapters(ch: Channel): (s: seq<byte>)
    requires ValidChannel(ch)
    ensures CHANNEL_HEADER_SIZE + |s| <= MAX_CHANNEL_SIZE
  {
    (if ch.p.Some? then ChapterP.Packed(ch.p.value) else []) +
    (if ch.c.Some? then ChapterC.Packed(ch.c.value) else []) +
    (if ch.n.Some? then ChapterN.Packed(ch.n.value) else [])
  }

  function PackedChannel(ch: Channel): (s: seq<byte>)
    requires ValidChannel(ch)
    ensures CHANNEL_HEADER_SIZE <= |s| <= MAX_CHANNEL_SIZE
  {
    PackedChannelHeader(ch.header, CHANNEL_HEADER_SIZE + |Chapters(ch)|) + Chapters(ch)
  }

  function PackedJournalHeader(h: JournalHeader): (s: seq<byte>)
    ensures |s| == JOURNAL_HEADER_SIZE
  {
    [(8 + Flag(h.active, 2)) * 16 + (if h.totchan == 0 then 0 else h.totchan - 1) % 16] + BigEndian(h.seqNo, SIZEOF_U16)
  }

  /** The packed channels from channel `i` on. */
  function PackedFrom(j: State, i: nat): seq<seq<byte>>
    requires Valid(j) && i <= MAX_CHANNELS
    decreases j, MAX_CHANNELS - i
  {
    if i == MAX_CHANNELS then []
    else (if j.channels[i].Some? then [PackedChannel(j.channels[i].value)] else []) + PackedFrom(j, i + 1)
  }

  function Join(parts: seq<seq<byte>>): seq<byte> {
    if parts == [] then [] else parts[0] + Join(parts[1..])
  }

  function Packed(j: State): seq<byte>
    requires Valid(j)
  {
    if HasData(j) then PackedJournalHeader(j.header) + Join(PackedFrom(j, 0)) else []
  }

  /** `channel_pack`: the LENGTH field is the sum kept in ten bits; the buffer is sized and
      filled from the chapter sizes. */
  method PackChannel(ch: Channel) returns (packed: seq<byte>)
    requires ValidChannel(ch)
    ensures packed == PackedChannel(ch)
  {
    var packedP, packedC, packedN := [], [], [];
    if ch.p.Some? {
      packedP := ChapterP.Packed(ch.p.value);
    }
    if ch.c.Some? {
      packedC := ChapterC.Pack(ch.c.value);
    }
    if ch.n.Some? {
      packedN := ChapterN.Pack(ch.n.value);
    }
    ghost var all := Chapters(ch);
    assert packedP + packedC + packedN == all;
    packed := JoinChannel(ch.header, packedP, packedC, packedN);
  }

  /** The second half of `channel_pack`. */
  method JoinChannel(h: ChannelHeader, packedP: seq<byte>, packedC: seq<byte>, packedN: seq<byte>) returns (packed: seq<byte>)
    requires CHANNEL_HEADER_SIZE + |packedP| + |packedC| + |packedN| <= MAX_CHANNEL_SIZE
    ensures var rest := packedP + packedC + packedN;
            packed == PackedChannelHeader(h, CHANNEL_HEADER_SIZE + |rest|) + rest
  {
    var len: ten := CHANNEL_HEADER_SIZE;
    len := (len + |packedP|) % 1024;
    assert len == CHANNEL_HEADER_SIZE + |packedP|;
    len := (len + |packedC|) % 1024;
    len := (len + |packedN|) % 1024;
    assert len == CHANNEL_HEADER_SIZE + |packedP + packedC + packedN|;
    packed := JoinFour(PackedChannelHeader(h, len), packedP, packedC, packedN);
  }

  lemma JoinStep(j: State, i: nat, packed: seq<byte>)
    requires Valid(j) && i < MAX_CHANNELS
    ensures packed + Join(PackedFrom(j, i)) ==
            (if j.channels[i].Some? then packed + PackedChannel(j.channels[i].value) else packed) + Join(PackedFrom(j, i + 1))
  {
    var rest := PackedFrom(j, i + 1);
    if j.channels[i].Some? {
      var one := PackedChannel(j.channels[i].value);
      assert PackedFrom(j, i) == [one] + rest && ([one] + rest)[1..] == rest;
      assert packed + (one + Join(rest)) == (packed + one) + Join(rest);
    } else {
      assert PackedFrom(j, i) == rest;
    }
  }

  /** `journal_pack`: nothing when the header counts no channel. */
  method Pack(j: MidiJournal) returns (packed: seq<byte>)
    requires Valid(j.View())
    ensures packed == Packed(j.View())
  {
    if j.header.totchan == 0 {
      return [];
    }
    var channels := PackChannels(j);
    packed := PackedJournalHeader(j.header) + channels;
  }

  /** The loop of `journal_pack`. */
  method PackChannels(j: MidiJournal) returns (packed: seq<byte>)
    requires Valid(j.View())
    ensures packed == Join(PackedFrom(j.View(), 0))
  {
    ghost var view := j.View();
    packed := [];
    var i := 0;
    while i < MAX_CHANNELS
      invariant 0 <= i <= MAX_CHANNELS
      invariant packed + Join(PackedFrom(view, i)) == Join(PackedFrom(view, 0))
    {
      JoinStep(view, i, packed);
      if j.channels[i].Some? {
        var one := PackChannel(j.channels[i].value);
        packed := packed + one;
      }
      i := i + 1;
    }
    assert packed + [] == packed;
  }

  /** The octets of the journal header as section 5 of RFC 6295 draws them: S, Y, A, H, TOTCHAN,
      and the checkpoint. */
  lemma HeaderOctets(j: State)
    requires Valid(j) && HasData(j)
    ensures var s := Packed(j);
            && |s| >= JOURNAL_HEADER_SIZE
            && s[0] / 0x80 == 1 && s[0] / 0x40 % 2 == 0 && (s[0] / 0x20 % 2 == 1 <==> j.header.active) && s[0] / 0x10 % 2 == 0
            && s[0] % 16 == (j.header.totchan - 1) % 16
            && s[1] == j.header.seqNo / 256 && s[2] == j.header.seqNo % 256
  {
    TwoOctetsOf(j.header.seqNo);
    assert Packed(j)[..JOURNAL_HEADER_SIZE] == PackedJournalHeader(j.header);
    assert Packed(j)[0] == PackedJournalHeader(j.header)[0];
    assert Packed(j)[1] == PackedJournalHeader(j.header)[1] && Packed(j)[2] == PackedJournalHeader(j.header)[2];
  }

  /** The octets of a channel header: S, CHAN, H, LENGTH, and the chapters announced, of which
      there are no others. */
  lemma ChannelHeaderOctets(h: ChannelHeader, len: ten)
    ensures var s := PackedChannelHeader(h, len);
            && s[0] / 0x80 == h.s && s[0] / 0x08 % 16 == (if h.chan == 0 then 0 else h.chan - 1)
            && s[0] / 0x04 % 2 == h.h && s[0] % 4 == len / 256 && s[1] == len % 256
            && (s[2] / 0x80 == 1 <==> h.hasP) && (s[2] / 0x40 % 2 == 1 <==> h.hasC) && (s[2] / 0x08 % 2 == 1 <==> h.hasN)
            && s[2] / 0x10 % 4 == 0 && s[2] % 8 == 0
  {
    var chan := if h.chan == 0 then 0 else h.chan - 1;
    TwoOctetsOf(ChannelWord(h, len));
    WordOctets(h.s, chan, h.h, len);
    FirstOctet(h.s, chan, h.h, len / 256);
    ContentsBits(h);
  }

  lemma FirstOctet(s: bit, chan: nibble, h: bit, high: bits2)
    ensures var o := s * 0x80 + chan * 8 + h * 4 + high;
            o / 0x80 == s && o / 0x08 % 16 == chan && o / 0x04 % 2 == h && o % 4 == high
  {
  }

  lemma ContentsBits(h: ChannelHeader)
    ensures var o := Contents(h);
            && (o / 0x80 == 1 <==> h.hasP) && (o / 0x40 % 2 == 1 <==> h.hasC) && (o / 0x08 % 2 == 1 <==> h.hasN)
            && o / 0x10 % 4 == 0 && o % 8 == 0
  {
  }

  lemma WordOctets(s: bit, chan: nibble, h: bit, len: ten)
    ensures var w := s * 0x8000 + chan * 0x800 + h * 0x400 + len;
            && w / 256 == s * 0x80 + chan * 8 + h * 4 + len / 256 && w % 256 == len % 256
  {
    var top: int := s * 0x80 + chan * 8 + h * 4;
    assert s * 0x8000 + chan * 0x800 + h * 0x400 + len == top * 256 + len;
  }

  // Walking the journal.

  /** The LENGTH field of a channel header. */
  function LengthField(s: seq<byte>): nat
    requires |s| >= CHANNEL_HEADER_SIZE
  {
    GetU16(s, 0) % 1024
  }

  /** Split the channels of a journal by stepping over each by its LENGTH. */
  function Walk(s: seq<byte>): Option<seq<seq<byte>>>
    decreases |s|
  {
    if s == [] then Some([])
    else if |s| < CHANNEL_HEADER_SIZE then None
    else
      var len := LengthField(s);
      if len < CHANNEL_HEADER_SIZE || len > |s| then None
      else
        var rest := Walk(s[len..]);
        if rest.None? then None else Some([s[..len]] + rest.value)
  }

  lemma WordLength(h: ChannelHeader, len: ten)
    ensures ChannelWord(h, len) % 1024 == len
  {
    var high: int := h.s * 32 + (if h.chan == 0 then 0 else h.chan - 1) * 2 + h.h;
    assert ChannelWord(h, len) == high * 1024 + len;
  }

  lemma LengthRead(h: ChannelHeader, len: ten, more: seq<byte>)
    ensures LengthField(PackedChannelHeader(h, len) + more) == len
  {
    var word := BigEndian(ChannelWord(h, len), SIZEOF_U16);
    assert PackedChannelHeader(h, len) + more == [] + word + ([Contents(h)] + more);
    GetPutU16([], ChannelWord(h, len), [Contents(h)] + more);
    WordLength(h, len);
  }

  /** LENGTH equals the number of octets packed for the channel. */
  lemma LengthIsSize(ch: Channel, rest: seq<byte>)
    requires ValidChannel(ch)
    ensures LengthField(PackedChannel(ch) + rest) == |PackedChannel(ch)|
  {
    var header := PackedChannelHeader(ch.header, CHANNEL_HEADER_SIZE + |Chapters(ch)|);
    assert header + Chapters(ch) + rest == header + (Chapters(ch) + rest);
    LengthRead(ch.header, CHANNEL_HEADER_SIZE + |Chapters(ch)|, Chapters(ch) + rest);
  }

  lemma {:induction false} WalkFrom(j: State, i: nat)
    requires Valid(j) && i <= MAX_CHANNELS
    ensures Walk(Join(PackedFrom(j, i))) == Some(PackedFrom(j, i))
    decreases MAX_CHANNELS - i
  {
    if i < MAX_CHANNELS {
      WalkFrom(j, i + 1);
      var rest := PackedFrom(j, i + 1);
      if j.channels[i].Some? {
        var ch := j.channels[i].value;
        var all := PackedFrom(j, i);
        assert all[1..] == rest;
        assert Join(all) == PackedChannel(ch) + Join(rest);
        LengthIsSize(ch, Join(rest));
        var s := Join(all);
        assert s[..|PackedChannel(ch)|] == PackedChannel(ch) && s[|PackedChannel(ch)|..] == Join(rest);
      } else {
        assert PackedFrom(j, i) == rest;
      }
    }
  }

  /** A walker that skips by LENGTH meets every channel boundary of the packed journal and ends
      exactly at its end. */
  lemma WalkVisitsEveryChannel(j: State)
    requires Valid(j) && HasData(j)
    ensures Walk(Packed(j)[JOURNAL_HEADER_SIZE..]) == Some(PackedFrom(j, 0))
  {
    WalkFrom(j, 0);
    assert Packed(j)[JOURNAL_HEADER_SIZE..] == Join(PackedFrom(j, 0));
  }
}
