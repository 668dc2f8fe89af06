/** The RTP fixed header (section 5.1 of RFC 3550) as rtp_packet.c packs and unpacks it. */
module RtpPacket {
  import opened Bytes

  const HEADER_SIZE := 12
  const VERSION := 2
  const DYNAMIC_PAYLOAD_97 := 97

  datatype Header = Header(v: bits2, p: bit, x: bit, cc: nibble, m: bit, pt: seven, seqNo: u16, timestamp: u32, ssrc: u32)

  datatype Packet = Packet(header: Header, payload: seq<byte>)

  /** The first 16 bits of the header. */
  function HeaderWord(h: Header): u16 {
    (h.v * 0x40 + h.p * 0x20 + h.x * 0x10 + h.cc) * 0x100 + (h.m * 0x80 + h.pt)
  }

  function PackedHeader(h: Header): (s: seq<byte>)
    ensures |s| == HEADER_SIZE
  {
    BigEndian(HeaderWord(h), SIZEOF_U16) + BigEndian(h.seqNo, SIZEOF_U16) + BigEndian(h.timestamp, SIZEOF_U32) + BigEndian(h.ssrc, SIZEOF_U32)
  }

  function Packed(packet: Packet): seq<byte> {
    PackedHeader(packet.header) + packet.payload
  }

  /** Assigning to a bit field keeps its low bits, so `p` and `x` need no mask. The header is
      read without a length check; `None` stands for the buffers on which the program reads on
      past the end. */
  function Unpacked(s: seq<byte>): Option<Packet> {
    if |s| < HEADER_SIZE then None
    else
      var w := GetU16(s, 0);
      var top := w / 256;
      Some(Packet(Header(top / 64, top / 32 % 2, top / 16 % 2, top % 16, w % 256 / 128, w % 128,
                         GetU16(s, 2), GetU32(s, 4), GetU32(s, 8)),
                  s[HEADER_SIZE..]))
  }

  method PackHeader(h: Header) returns (out: array<byte>)
    ensures fresh(out) && out[..] == PackedHeader(h)
  {
    out := new byte[HEADER_SIZE](_ => 0);
    var p := PutUint(out, 0, HeaderWord(h), SIZEOF_U16);
    p := PutUint(out, p, h.seqNo, SIZEOF_U16);
    p := PutUint(out, p, h.timestamp, SIZEOF_U32);
    p := PutUint(out, p, h.ssrc, SIZEOF_U32);
    assert out[..p] == out[..];
  }

  method Pack(packet: Packet) returns (out: array<byte>)
    ensures fresh(out) && out[..] == Packed(packet)
  {
    out := PackHeader(packet.header);
    if |packet.payload| > 0 {
      var grown := new byte[out.Length + |packet.payload|](_ => 0);
      var p := Put(grown, 0, out[..]);
      p := Put(grown, p, packet.payload);
      out := grown;
    }
  }

  method Unpack(buffer: seq<byte>) returns (packet: Option<Packet>)
    ensures packet == Unpacked(buffer)
  {
    if |buffer| < HEADER_SIZE {
      return None;
    }
    var p, currentLen := 0, |buffer|;
    var w := GetU16(buffer, p);
    p, currentLen := p + 2, currentLen - 2;
    var top := w / 256;
    var seqNo := GetU16(buffer, p);
    p, currentLen := p + 2, currentLen - 2;
    var timestamp := GetU32(buffer, p);
    p, currentLen := p + 4, currentLen - 4;
    var ssrc := GetU32(buffer, p);
    p, currentLen := p + 4, currentLen - 4;
    var header := Header(top / 64, top / 32 % 2, top / 16 % 2, top % 16, w % 256 / 128, w % 128, seqNo, timestamp, ssrc);
    var payload := if currentLen > 0 then buffer[p..p + currentLen] else [];
    assert payload == buffer[HEADER_SIZE..];
    packet := Some(Packet(header, payload));
  }

  lemma TopFields(v: bits2, p: bit, x: bit, cc: nibble)
    ensures var top := v * 64 + p * 32 + x * 16 + cc;
            top / 64 == v && top / 32 % 2 == p && top / 16 % 2 == x && top % 16 == cc
  {
  }

  lemma TwoOctets(top: byte, low: byte)
    ensures (top * 256 + low) / 256 == top && (top * 256 + low) % 256 == low && (top * 256 + low) % 128 == low % 128
  {
  }

  lemma HeaderWordFields(h: Header)
    ensures var w := HeaderWord(h);
            var top := w / 256;
            && top / 64 == h.v && top / 32 % 2 == h.p && top / 16 % 2 == h.x && top % 16 == h.cc
            && w % 256 / 128 == h.m && w % 128 == h.pt
  {
    TopFields(h.v, h.p, h.x, h.cc);
    var top, low: byte := h.v * 64 + h.p * 32 + h.x * 16 + h.cc, h.m * 128 + h.pt;
    TwoOctets(top, low);
  }

  lemma FourSlices(a: seq<byte>, b: seq<byte>, c: seq<byte>, d: seq<byte>, payload: seq<byte>)
    requires |a| == 2 && |b| == 2 && |c| == 4 && |d| == 4
    ensures var s := a + b + c + d + payload;
            s[0..2] == a && s[2..4] == b && s[4..8] == c && s[8..12] == d && s[12..] == payload
  {
  }

  /** Unpacking undoes packing, for every header and every payload. */
  lemma RoundTrip(packet: Packet)
    ensures Unpacked(Packed(packet)) == Some(packet)
  {
    var h := packet.header;
    FourSlices(BigEndian(HeaderWord(h), SIZEOF_U16), BigEndian(h.seqNo, SIZEOF_U16),
               BigEndian(h.timestamp, SIZEOF_U32), BigEndian(h.ssrc, SIZEOF_U32), packet.payload);
    FixedWidthRoundTrip(HeaderWord(h));
    FixedWidthRoundTrip(h.seqNo);
    FixedWidthRoundTrip(h.timestamp);
    FixedWidthRoundTrip(h.ssrc);
    HeaderWordFields(h);
  }

  lemma FirstOctets(h: Header)
    ensures BigEndian(HeaderWord(h), SIZEOF_U16) == [h.v * 0x40 + h.p * 0x20 + h.x * 0x10 + h.cc, h.m * 0x80 + h.pt]
  {
    var top, low: byte := h.v * 64 + h.p * 32 + h.x * 16 + h.cc, h.m * 128 + h.pt;
    TwoOctetsOf(HeaderWord(h));
    TwoOctets(top, low);
  }

  /** The octets as section 5.1 of RFC 3550 draws them. */
  lemma HeaderOctets(packet: Packet)
    ensures var s, h := Packed(packet), packet.header;
            && |s| >= HEADER_SIZE && s[0] == h.v * 0x40 + h.p * 0x20 + h.x * 0x10 + h.cc && s[1] == h.m * 0x80 + h.pt
            && GetU16(s, 2) == h.seqNo && GetU32(s, 4) == h.timestamp && GetU32(s, 8) == h.ssrc && s[HEADER_SIZE..] == packet.payload
  {
    var h, s := packet.header, Packed(packet);
    var first := BigEndian(HeaderWord(h), SIZEOF_U16);
    FirstOctets(h);
    FourSlices(first, BigEndian(h.seqNo, SIZEOF_U16), BigEndian(h.timestamp, SIZEOF_U32), BigEndian(h.ssrc, SIZEOF_U32), packet.payload);
    FixedWidthRoundTrip(h.seqNo);
    FixedWidthRoundTrip(h.timestamp);
    FixedWidthRoundTrip(h.ssrc);
    assert s[0] == s[0..2][0] && s[1] == s[0..2][1];
  }
}
