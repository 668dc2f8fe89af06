/** The MIDI command section (section 3 of RFC 6295) as midi_payload.c packs and unpacks it. */
module MidiPayload {
  import opened Bytes
  import opened MidiCommand

  datatype Payload = Payload(b: bool, j: bool, z: bool, p: bool, len: u16, buffer: seq<byte>)

  predicate Valid(pl: Payload) {
    pl.len <= |pl.buffer|
  }

  function Flags(pl: Payload): byte {
    Flag(pl.b, 0x80) + Flag(pl.j, 0x40) + Flag(pl.z, 0x20) + Flag(pl.p, 0x10)
  }

  /** The header octets. The choice of the long form looks at the length, not at the B flag,
      and the long form keeps twelve bits of it. */
  function PackedHeader(pl: Payload): seq<byte> {
    if pl.len <= 15 then [Flags(pl) + pl.len] else [Flags(pl) + pl.len / 256 % 16, pl.len % 256]
  }

  function Packed(pl: Payload): seq<byte>
    requires Valid(pl)
  {
    PackedHeader(pl) + pl.buffer[..pl.len]
  }

  function Unpacked(s: seq<byte>): Option<Payload> {
    if s == [] then None
    else
      var b := s[0] >= 0x80;
      if b && |s| == 1 then None
      else
        var header := if b then 2 else 1;
        var len: nat := if b then (s[0] % 16) as int * 256 + s[1] as int else s[0] % 16;
        if |s| - header < len then None
        else Some(Payload(b, s[0] / 64 % 2 == 1, s[0] / 32 % 2 == 1, s[0] / 16 % 2 == 1, len, s[header..header + len]))
  }

  /** `midi_command_to_payload`. A buffer that does not start with a status octet would get the
      (never assigned) remembered one in front; the length field keeps 16 bits. */
  function FromCommand(c: Command): (pl: Payload)
    ensures Valid(pl)
    ensures c.status >= 0x80 && |c.data| < 0xFFFF ==> pl.buffer[..pl.len] == [c.status] + c.data
    ensures c.status < 0x80 && |c.data| < 0xFFFE ==> pl.buffer[..pl.len] == [0, c.status] + c.data
    ensures !pl.b && !pl.j && !pl.z && !pl.p
  {
    var buffer := [c.status] + c.data;
    var whole := if c.status >= 0x80 then buffer else [0] + buffer;
    Payload(false, false, false, false, |whole| % 0x1_0000, whole)
  }

  method Pack(pl: Payload) returns (out: array<byte>)
    requires Valid(pl)
    ensures fresh(out) && out[..] == Packed(pl)
  {
    out := new byte[1 + pl.len + if pl.len > 15 then 1 else 0](_ => 0);
    var header := 0;
    if pl.b { header := header + 0x80; }
    if pl.j { header := header + 0x40; }
    if pl.z { header := header + 0x20; }
    if pl.p { header := header + 0x10; }
    var p := 0;
    if pl.len <= 15 {
      p := Put(out, p, [header + pl.len]);
    } else {
      p := Put(out, p, [header + pl.len / 256 % 16]);
      p := Put(out, p, [pl.len % 256]);
    }
    p := Put(out, p, pl.buffer[..pl.len]);
  }

  method Unpack(buffer: seq<byte>) returns (r: Option<Payload>)
    ensures r == Unpacked(buffer)
  {
    if |buffer| == 0 {
      return None;
    }
    var p, currentLen := 0, |buffer|;
    var flags := buffer[p];
    var b := flags >= 0x80;
    if b && currentLen == 1 {
      return None;
    }
    var len: nat := buffer[p] % 16;
    currentLen := currentLen - 1;
    if b {
      p := p + 1;
      currentLen := currentLen - 1;
      len := len * 256 + buffer[p];
    }
    p := p + 1;
    if currentLen < len {
      return None;
    }
    r := Some(Payload(b, flags / 64 % 2 == 1, flags / 32 % 2 == 1, flags / 16 % 2 == 1, len, buffer[p..p + len]));
  }

  lemma FlagsBits(pl: Payload, low: nat)
    requires low < 16
    ensures var o: byte := Flags(pl) + low;
            && (o >= 0x80 <==> pl.b) && (o / 64 % 2 == 1 <==> pl.j) && (o / 32 % 2 == 1 <==> pl.z)
            && (o / 16 % 2 == 1 <==> pl.p) && o % 16 == low
  {
  }

  /** The short form, read back. */
  lemma ShortForm(pl: Payload, journal: seq<byte>)
    requires 0 < pl.len == |pl.buffer| <= 15
    ensures Unpacked(Packed(pl) + journal) == Some(pl) <==> !pl.b
  {
    var s := Packed(pl) + journal;
    FlagsBits(pl, pl.len);
    assert s[0] == Flags(pl) + pl.len && s[0] % 16 == pl.len;
    if !pl.b {
      assert s[1..1 + pl.len] == pl.buffer;
    } else if |s| > 1 {
      assert (s[0] % 16) as int * 256 + s[1] as int > pl.len;
    }
  }

  /** The long form, read back. */
  lemma LongForm(pl: Payload, journal: seq<byte>)
    requires 15 < pl.len == |pl.buffer|
    ensures Unpacked(Packed(pl) + journal) == Some(pl) <==> pl.b && pl.len < 4096
  {
    var s := Packed(pl) + journal;
    FlagsBits(pl, pl.len / 256 % 16);
    assert s[0] == Flags(pl) + pl.len / 256 % 16 && s[1] == pl.len % 256;
    assert s[2..2 + pl.len] == pl.buffer;
    TwelveBits(pl.len);
  }

  lemma TwelveBits(len: u16)
    ensures len / 256 % 16 * 256 + len % 256 == len % 4096
  {
  }

  /** Unpacking undoes packing, whatever journal follows, for exactly the payloads whose
      length fits twelve bits and whose B flag says whether it needs more than four. The
      empty payload is apart: no command makes one. */
  lemma RoundTripExact(pl: Payload, journal: seq<byte>)
    requires 0 < pl.len == |pl.buffer|
    ensures Unpacked(Packed(pl) + journal) == Some(pl) <==> pl.len < 4096 && (pl.b <==> pl.len > 15)
  {
    if pl.len <= 15 {
      ShortForm(pl, journal);
    } else {
      LongForm(pl, journal);
    }
  }

  /** The octets of a payload in the form that its B flag says. */
  predicate Begins(s: seq<byte>, pl: Payload) {
    && |pl.buffer| == pl.len && s != []
    && (s[0] / 0x80 == 1 <==> pl.b) && (s[0] / 0x40 % 2 == 1 <==> pl.j)
    && (s[0] / 0x20 % 2 == 1 <==> pl.z) && (s[0] / 0x10 % 2 == 1 <==> pl.p)
    && if pl.b then |s| >= 2 && pl.len / 256 == s[0] % 16 && pl.len % 256 == s[1] && pl.buffer <= s[2..]
       else pl.len == s[0] % 16 && pl.buffer <= s[1..]
  }

  lemma UnpackSound(s: seq<byte>)
    requires Unpacked(s).Some?
    ensures Begins(s, Unpacked(s).value)
  {
    if Unpacked(s).value.b {
      SplitLength(s[0] % 16, s[1]);
    }
  }

  lemma UnpackComplete(s: seq<byte>, pl: Payload)
    requires Begins(s, pl)
    ensures Unpacked(s) == Some(pl)
  {
    var header := if pl.b then 2 else 1;
    LengthOf(pl.len);
    assert s[header..][..pl.len] == s[header..header + pl.len];
    assert s[header..header + pl.len] == pl.buffer;
  }

  /** Of any buffer exactly that payload is unpacked which it begins with, and none if it begins
      with none. */
  lemma UnpackExact(s: seq<byte>, pl: Payload)
    ensures Unpacked(s) == Some(pl) <==> Begins(s, pl)
  {
    if Unpacked(s) == Some(pl) {
      UnpackSound(s);
    }
    if Begins(s, pl) {
      UnpackComplete(s, pl);
    }
  }

  lemma LengthOf(len: u16)
    ensures len == len / 256 * 256 + len % 256
  {
  }

  lemma SplitLength(high: nibble, low: byte)
    ensures (high * 256 + low) / 256 == high && (high * 256 + low) % 256 == low
  {
  }

  /** The header octets of a packed payload as section 3 of RFC 6295 draws them. */
  lemma HeaderOctets(pl: Payload)
    requires Valid(pl)
    ensures var s := Packed(pl);
            && (s[0] / 0x80 == 1 <==> pl.b) && (s[0] / 0x40 % 2 == 1 <==> pl.j)
            && (s[0] / 0x20 % 2 == 1 <==> pl.z) && (s[0] / 0x10 % 2 == 1 <==> pl.p)
            && if pl.len <= 15 then s[0] % 16 == pl.len && s[1..] == pl.buffer[..pl.len]
               else s[0] % 16 == pl.len / 256 % 16 && s[1] == pl.len % 256 && s[2..] == pl.buffer[..pl.len]
  {
    FlagsBits(pl, if pl.len <= 15 then pl.len else pl.len / 256 % 16);
  }
}
