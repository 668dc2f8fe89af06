/** Chapter N, the note log of a channel (Appendix A.6 of RFC 6295, chapter_n.c). */
module ChapterN {
  import opened Bytes

  const MAX_NOTES := 127
  const MAX_OFFBITS := 16
  const HEADER_SIZE := 2
  const NOTE_SIZE := 2

  datatype Note = Note(s: bit, num: seven, y: bit, velocity: seven)

  /** `notes` is the table of note pointers, `numNotes` the number in use. */
  datatype Chapter = Chapter(b: bit, low: nibble, high: nibble, numNotes: nat, notes: seq<Option<Note>>, offbits: seq<byte>)

  /** The notes below `numNotes` are present, and every octet of the NoteOff bit field that is
      not zero lies in the range that will be packed. */
  predicate Valid(c: Chapter) {
    && |c.notes| == MAX_NOTES && c.numNotes <= MAX_NOTES
    && (forall i :: 0 <= i < c.numNotes ==> c.notes[i].Some?)
    && |c.offbits| == MAX_OFFBITS
    && (forall i :: 0 <= i < MAX_OFFBITS && c.offbits[i] != 0 ==> c.low <= i <= c.high)
  }

  function Create(): (c: Chapter)
    ensures Valid(c) && NoteList(c) == [] && Released(c.offbits) == {}
  {
    var c := Chapter(0, 15, 0, 0, seq(MAX_NOTES, i => None), seq(MAX_OFFBITS, i => 0));
    NothingReleased(c.offbits);
    c
  }

  /** `chapter_n_reset`: the notes in use are freed and their pointers cleared. The range is
      left as 0..0, where a new chapter has the empty 15..0. */
  function Reset(c: Chapter): (r: Chapter)
    requires Valid(c)
    ensures Valid(r) && NoteList(r) == [] && Released(r.offbits) == {}
  {
    var r := Chapter(0, 0, 0, 0, seq(MAX_NOTES, i requires 0 <= i < MAX_NOTES => if i < c.numNotes then None else c.notes[i]),
                     seq(MAX_OFFBITS, i => 0));
    NothingReleased(r.offbits);
    r
  }

  predicate HasBit(octet: nat, k: nat) {
    if k == 0 then octet % 2 == 1 else HasBit(octet / 2, k - 1)
  }

  function Power2(n: nat): (r: nat)
    ensures r > 0
  {
    if n == 0 then 1 else 2 * Power2(n - 1)
  }

  /** `octet | ( 1 << k )` */
  function SetBit(octet: nat, k: nat): nat {
    if k == 0 then octet / 2 * 2 + 1 else SetBit(octet / 2, k - 1) * 2 + octet % 2
  }

  lemma Halves(high: nat, low: bit)
    ensures (high * 2 + low) / 2 == high && (high * 2 + low) % 2 == low
  {
  }

  lemma {:induction false} SetBitSets(octet: nat, k: nat, j: nat)
    ensures HasBit(SetBit(octet, k), j) <==> HasBit(octet, j) || j == k
    decreases k
  {
    if k == 0 {
      Halves(octet / 2, 1);
    } else {
      Halves(SetBit(octet / 2, k - 1), octet % 2);
      if j > 0 {
        SetBitSets(octet / 2, k - 1, j - 1);
      }
    }
  }

  lemma {:induction false} SetBitBound(octet: nat, k: nat, n: nat)
    requires k < n && octet < Power2(n)
    ensures SetBit(octet, k) < Power2(n)
    decreases k
  {
    assert octet / 2 < Power2(n - 1);
    if k > 0 {
      SetBitBound(octet / 2, k - 1, n - 1);
    }
  }

  lemma OctetBit(octet: byte, k: nat)
    requires k < 8
    ensures SetBit(octet, k) < 256
    ensures forall j: nat :: HasBit(SetBit(octet, k), j) <==> HasBit(octet, j) || j == k
  {
    assert Power2(8) == 256;
    SetBitBound(octet, k, 8);
    forall j: nat
      ensures HasBit(SetBit(octet, k), j) <==> HasBit(octet, j) || j == k
    {
      SetBitSets(octet, k, j);
    }
  }

  /** The notes released, as Appendix A.6 of RFC 6295 reads the NoteOff bit field: eight to an
      octet, the lowest in the most significant bit. */
  function Released(offbits: seq<byte>): set<seven>
    requires |offbits| == MAX_OFFBITS
  {
    set n: seven | 0 <= n < 128 && HasBit(offbits[n / 8], 7 - n % 8)
  }

  lemma {:induction false} ZeroHasNoBit(k: nat)
    ensures !HasBit(0, k)
  {
    if k > 0 {
      ZeroHasNoBit(k - 1);
    }
  }

  lemma NothingReleased(offbits: seq<byte>)
    requires |offbits| == MAX_OFFBITS && forall i :: 0 <= i < MAX_OFFBITS ==> offbits[i] == 0
    ensures Released(offbits) == {}
  {
    forall n: seven
      ensures n !in Released(offbits)
    {
      ZeroHasNoBit(7 - n % 8);
    }
  }

  /** The bit of its octet that a NoteOff sets. The program shifts by one less than the note's
      place, counted from the least significant bit. For a multiple of eight that shift is out
      of range: `stray` below eight stands for the bit the machine then sets, and any other for
      none, which is what a shift by 31 or more leaves in an octet. */
  function BitOf(note: seven, stray: nibble): (k: Option<nat>)
    ensures k.Some? ==> k.value < 8
  {
    if note % 8 != 0 then Some(note % 8 - 1) else if stray < 8 then Some(stray) else None
  }

  /** A NoteOff: its bit of the field is set, and every other is left as it was. */
  function RecordOff(c: Chapter, note: seven, stray: nibble): (r: Chapter)
    requires Valid(c)
    ensures Valid(r) && r.b == 1 && r.notes == c.notes && r.numNotes == c.numNotes
    ensures r.low <= note / 8 <= r.high && r.low in {c.low, note / 8} && r.high in {c.high, note / 8}
    ensures r.low <= c.low && r.high >= c.high
    ensures forall i, k: nat :: 0 <= i < MAX_OFFBITS ==>
              (HasBit(r.offbits[i], k) <==> HasBit(c.offbits[i], k) || (i == note / 8 && BitOf(note, stray) == Some(k)))
  {
    var offset, k := note / 8, BitOf(note, stray);
    OctetBit(c.offbits[offset], if k.Some? then k.value else 0);
    c.(b := 1,
       high := if offset > c.high then offset else c.high,
       low := if offset < c.low then offset else c.low,
       offbits := if k.None? then c.offbits else c.offbits[offset := SetBit(c.offbits[offset], k.value)])
  }

  /** The note a reader takes a NoteOff for. */
  function ReadAs(note: seven, stray: nibble): Option<seven> {
    var k := BitOf(note, stray);
    if k.None? then None else Some(note / 8 * 8 + (7 - k.value))
  }

  /** The program and the standard count the bits from opposite ends, and the program from
      zero for the second note of an octet: a NoteOff is read as the note released if and only
      if that is the fifth of its octet, or the machine's stray bit happens to be the top one
      for the first. */
  lemma ReadAsExact(note: seven, stray: nibble)
    ensures ReadAs(note, stray) == Some(note) <==> note % 8 == 4 || (note % 8 == 0 && stray == 7)
  {
  }

  lemma NoteBits(n: seven, i: nat, k: nat)
    requires k < 8
    ensures i == n / 8 && k == 7 - n % 8 <==> n == i * 8 + (7 - k)
  {
  }

  lemma RecordOffReleases(c: Chapter, note: seven, stray: nibble)
    requires Valid(c)
    ensures var read := ReadAs(note, stray);
            Released(RecordOff(c, note, stray).offbits) == Released(c.offbits) + if read.Some? then {read.value} else {}
  {
    var r, bit := RecordOff(c, note, stray), BitOf(note, stray);
    if bit.Some? {
      OctetBit(c.offbits[note / 8], bit.value);
    }
    forall n: seven
      ensures n in Released(r.offbits) <==> n in Released(c.offbits) || ReadAs(note, stray) == Some(n)
    {
      var i, k := n / 8, 7 - n % 8;
      assert HasBit(r.offbits[i], k) <==> HasBit(c.offbits[i], k) || (i == note / 8 && bit == Some(k));
      if bit.Some? {
        NoteBits(n, note / 8, bit.value);
      }
    }
  }

  /** A NoteOn is logged while there is room. */
  function RecordOn(c: Chapter, note: seven, velocity: seven): (r: Chapter)
    requires Valid(c)
    ensures Valid(r)
    ensures NoteList(r) == if c.numNotes == MAX_NOTES then NoteList(c) else NoteList(c) + [Note(0, note, 0, velocity)]
    ensures r.b == 1 && r.low == c.low && r.high == c.high && r.offbits == c.offbits
  {
    var marked := c.(b := 1);
    if c.numNotes == MAX_NOTES then marked
    else
      var r := marked.(notes := c.notes[c.numNotes := Some(Note(0, note, 0, velocity))], numNotes := c.numNotes + 1);
      assert NoteList(r) == NoteList(c) + [Note(0, note, 0, velocity)];
      r
  }

  /** The logged notes, oldest first. */
  function NoteList(c: Chapter): (s: seq<Note>)
    requires Valid(c)
    ensures |s| == c.numNotes
  {
    seq(c.numNotes, i requires 0 <= i < c.numNotes => c.notes[i].value)
  }

  function PackedNote(n: Note): (s: seq<byte>)
    ensures |s| == NOTE_SIZE
  {
    [n.s * 128 + n.num, n.y * 128 + n.velocity]
  }

  function PackedNotes(ns: seq<Note>): (s: seq<byte>)
    ensures |s| == NOTE_SIZE * |ns|
  {
    if ns == [] then [] else PackedNotes(ns[..|ns| - 1]) + PackedNote(ns[|ns| - 1])
  }

  function PackedOffbits(c: Chapter): seq<byte>
    requires Valid(c)
  {
    if c.low <= c.high then c.offbits[c.low..c.high + 1] else []
  }

  function PackedHeader(c: Chapter): seq<byte>
    requires Valid(c)
  {
    [c.b * 128 + c.numNotes, c.low * 16 + c.high]
  }

  function Packed(c: Chapter): (s: seq<byte>)
    requires Valid(c)
    ensures |s| <= HEADER_SIZE + NOTE_SIZE * MAX_NOTES + MAX_OFFBITS
  {
    PackedHeader(c) + PackedNotes(NoteList(c)) + PackedOffbits(c)
  }

  /** The note buffer of `chapter_n_pack`. */
  method PackNotes(c: Chapter) returns (packed: seq<byte>)
    requires Valid(c)
    ensures packed == PackedNotes(NoteList(c))
  {
    var buffer := new byte[NOTE_SIZE * c.numNotes](_ => 0);
    ghost var list := NoteList(c);
    var p := 0;
    for i := 0 to c.numNotes
      invariant p == NOTE_SIZE * i && buffer[..p] == PackedNotes(list[..i])
    {
      assert list[..i + 1][..i] == list[..i];
      p := Put(buffer, p, PackedNote(c.notes[i].value));
    }
    assert list[..c.numNotes] == list && buffer[..p] == buffer[..];
    return buffer[..];
  }

  /** `chapter_n_pack`: the notes and the NoteOff octets are packed apart and joined. */
  method Pack(c: Chapter) returns (packed: seq<byte>)
    requires Valid(c)
    ensures packed == Packed(c)
  {
    var noteBuffer := PackNotes(c);
    var offbits := PackOffbits(c);
    packed := JoinFour(PackedHeader(c), noteBuffer, offbits, []);
    Rejoin(PackedHeader(c), noteBuffer, offbits);
  }

  /** The octets of the bit field in the range, none when it is empty. */
  method PackOffbits(c: Chapter) returns (offbits: seq<byte>)
    requires Valid(c)
    ensures offbits == PackedOffbits(c)
  {
    var offbitsSize: int := c.high - c.low + 1;
    offbits := [];
    if offbitsSize > 0 {
      offbits := c.offbits[c.low..c.low + offbitsSize];
    }
  }

  lemma Rejoin(a: seq<byte>, b: seq<byte>, c: seq<byte>)
    ensures a + (b + c + []) == a + b + c
  {
  }

  // Reading the chapter, as Appendix A.6 of RFC 6295 defines it.

  datatype Decoded = Decoded(notes: seq<Note>, released: set<seven>)

  function DecodeNotes(s: seq<byte>): seq<Note>
    requires |s| % NOTE_SIZE == 0
  {
    if s == [] then []
    else
      var k := |s| - NOTE_SIZE;
      DecodeNotes(s[..k]) + [Note(s[k] / 128, s[k] % 128, s[k + 1] / 128, s[k + 1] % 128)]
  }

  /** The whole bit field from its octets LOW..HIGH; the octets outside are zero. */
  function Field(s: seq<byte>, low: nibble, high: nibble): (f: seq<byte>)
    requires |s| == if low <= high then high - low + 1 else 0
    ensures |f| == MAX_OFFBITS
  {
    seq(MAX_OFFBITS, i requires 0 <= i < MAX_OFFBITS => if low <= i <= high then s[i - low] else 0)
  }

  /** LEN, where 127 with LOW 15 and HIGH 0 means 128 notes and no octets. */
  function Length(s: seq<byte>): nat
    requires |s| >= HEADER_SIZE
  {
    if s[0] % 128 == 127 && s[1] == 0xF0 then 128 else s[0] % 128
  }

  /** LEN notes, then the octets LOW..HIGH of the bit field. */
  function Size(s: seq<byte>): nat
    requires |s| >= HEADER_SIZE
  {
    var low, high := s[1] / 16, s[1] % 16;
    HEADER_SIZE + NOTE_SIZE * Length(s) + if low <= high then high - low + 1 else 0
  }

  function Decode(s: seq<byte>): Option<Decoded> {
    if |s| < HEADER_SIZE || |s| != Size(s) then None
    else
      var k := HEADER_SIZE + NOTE_SIZE * Length(s);
      Some(Decoded(DecodeNotes(s[HEADER_SIZE..k]), Released(Field(s[k..], s[1] / 16, s[1] % 16))))
  }

  lemma NoteRead(pre: seq<byte>, n: Note)
    ensures var s, k := pre + PackedNote(n), |pre|;
            s[..k] == pre && Note(s[k] / 128, s[k] % 128, s[k + 1] / 128, s[k + 1] % 128) == n
  {
    var s, k := pre + PackedNote(n), |pre|;
    assert s[k] == PackedNote(n)[0] && s[k + 1] == PackedNote(n)[1];
    BitAndSeven(n.s, n.num);
    BitAndSeven(n.y, n.velocity);
  }

  lemma {:induction false} DecodeNotesPacked(ns: seq<Note>)
    ensures DecodeNotes(PackedNotes(ns)) == ns
    decreases |ns|
  {
    if ns != [] {
      var last := ns[|ns| - 1];
      DecodeNotesPacked(ns[..|ns| - 1]);
      NoteRead(PackedNotes(ns[..|ns| - 1]), last);
      assert ns == ns[..|ns| - 1] + [last];
    }
  }

  lemma HeaderFields(c: Chapter)
    requires Valid(c)
    ensures var s := Packed(c);
            && s[0] / 128 == c.b && s[0] % 128 == c.numNotes && s[1] / 16 == c.low && s[1] % 16 == c.high
            && (s[1] == 0xF0 <==> c.low == 15 && c.high == 0)
            && Length(s) == (if c.numNotes == 127 && c.low == 15 && c.high == 0 then 128 else c.numNotes)
  {
    BitAndSeven(c.b, c.numNotes);
    TwoNibbles(c.low, c.high);
  }

  lemma PackedPieces(c: Chapter)
    requires Valid(c)
    ensures var s, k := Packed(c), HEADER_SIZE + NOTE_SIZE * c.numNotes;
            && |s| == k + |PackedOffbits(c)| && s[HEADER_SIZE..k] == PackedNotes(NoteList(c)) && s[k..] == PackedOffbits(c)
  {
  }

  /** Reading what begins with these fields. */
  lemma DecodePieces(s: seq<byte>, numNotes: nat, low: nibble, high: nibble, notes: seq<Note>, offbits: seq<byte>)
    requires |offbits| == if low <= high then high - low + 1 else 0
    requires |s| == HEADER_SIZE + NOTE_SIZE * numNotes + |offbits| && s[1] / 16 == low && s[1] % 16 == high
    requires s[HEADER_SIZE..HEADER_SIZE + NOTE_SIZE * numNotes] == PackedNotes(notes) && s[HEADER_SIZE + NOTE_SIZE * numNotes..] == offbits
    ensures Length(s) == numNotes ==> Decode(s) == Some(Decoded(notes, Released(Field(offbits, low, high))))
    ensures Length(s) > numNotes ==> Decode(s) == None
  {
    if Length(s) == numNotes {
      DecodeNotesPacked(notes);
    }
  }

  /** The packed chapter decodes to the notes logged and to the notes that the whole NoteOff bit
      field says, exactly when it does not hold 127 notes and an untouched bit field. */
  lemma DecodePackedExact(c: Chapter)
    requires Valid(c)
    ensures Decode(Packed(c)) == Some(Decoded(NoteList(c), Released(c.offbits))) <==>
            !(c.numNotes == 127 && c.low == 15 && c.high == 0)
  {
    HeaderFields(c);
    PackedPieces(c);
    DecodePieces(Packed(c), c.numNotes, c.low, c.high, NoteList(c), PackedOffbits(c));
    assert Field(PackedOffbits(c), c.low, c.high) == c.offbits;
  }
}
