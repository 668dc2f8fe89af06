/** Chapter P, the program change log of a channel (Appendix A.2 of RFC 6295, chapter_p.c). */
module ChapterP {
  import opened Bytes

  const PACKED_SIZE := 3

  datatype Chapter = Chapter(s: bit, program: seven, b: bit, bankMsb: seven, x: bit, bankLsb: seven)

  function Packed(c: Chapter): (s: seq<byte>)
    ensures |s| == PACKED_SIZE
  {
    [c.s * 128 + c.program, c.b * 128 + c.bankMsb, c.x * 128 + c.bankLsb]
  }

  function Unpacked(s: seq<byte>): Option<Chapter> {
    if |s| < PACKED_SIZE then None
    else Some(Chapter(s[0] / 128, s[0] % 128, s[1] / 128, s[1] % 128, s[2] / 128, s[2] % 128))
  }

  /** Unpacking undoes packing, whatever follows. */
  lemma RoundTrip(c: Chapter, rest: seq<byte>)
    ensures Unpacked(Packed(c) + rest) == Some(c)
  {
    var s := Packed(c) + rest;
    BitAndSeven(c.s, c.program);
    BitAndSeven(c.b, c.bankMsb);
    BitAndSeven(c.x, c.bankLsb);
    assert s[0] == c.s * 128 + c.program && s[1] == c.b * 128 + c.bankMsb && s[2] == c.x * 128 + c.bankLsb;
  }
}
