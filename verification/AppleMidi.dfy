/** AppleMIDI session packets (net_applemidi.c). */
module AppleMidi {
  import opened Bytes

  const CMD_INV := 0x494E
  const CMD_SYNC := 0x434B
  const CMD_ACCEPT := 0x4F4B
  const CMD_REJECT := 0x4E4F
  const CMD_END := 0x4259
  const CMD_FEEDBACK := 0x5253
  const CMD_BITRATE := 0x524C

  const COMMAND_SIZE := 4
  const SYNC_SIZE := 32
  const INV_STATIC_SIZE := 16
  const POINTER_SIZE := 8  // on a 64-bit host

  /** A C string without its terminator. */
  type CString = s: seq<byte> | 0 !in s

  type Three = s: seq<byte> | |s| == 3 witness [0, 0, 0]

  datatype Body =
    | Invitation(version: u32, initiator: u32, ssrc: u32, name: Option<CString>)
    | Feedback(ssrc: u32, appleSeq: u32)
    | Bitrate(ssrc: u32, limit: u32)
    | Sync(ssrc: u32, count: byte, padding: Three, timestamp1: u64, timestamp2: u64, timestamp3: u64)
    | NoData

  datatype Command = Command(signature: u16, command: u16, body: Body)

  predicate IsInvitation(command: u16) {
    command == CMD_INV || command == CMD_ACCEPT || command == CMD_REJECT || command == CMD_END
  }

  /** The body a command code goes with. */
  predicate Matches(c: Command) {
    if IsInvitation(c.command) then c.body.Invitation?
    else if c.command == CMD_FEEDBACK then c.body.Feedback?
    else if c.command == CMD_BITRATE then c.body.Bitrate?
    else if c.command == CMD_SYNC then c.body.Sync?
    else c.body.NoData?
  }

  /** What packing accepts: data that goes with the command code, or none. */
  predicate Packable(c: Command) {
    Matches(c) || c.body.NoData?
  }

  function PackedName(name: Option<CString>): seq<byte> {
    if name.Some? then name.value + [0] else []
  }

  function PackedBody(b: Body): seq<byte> {
    match b
    case Invitation(version, initiator, ssrc, name) =>
      BigEndian(version, SIZEOF_U32) + BigEndian(initiator, SIZEOF_U32) + BigEndian(ssrc, SIZEOF_U32) + PackedName(name)
    case Feedback(ssrc, appleSeq) => BigEndian(ssrc, SIZEOF_U32) + BigEndian(appleSeq, SIZEOF_U32)
    case Bitrate(ssrc, limit) => BigEndian(ssrc, SIZEOF_U32) + BigEndian(limit, SIZEOF_U32)
    case Sync(ssrc, count, padding, t1, t2, t3) =>
      BigEndian(ssrc, SIZEOF_U32) + ([count] + padding) + BigEndian(t1, SIZEOF_U64) + BigEndian(t2, SIZEOF_U64) +
      BigEndian(t3, SIZEOF_U64)
    case NoData => []
  }

  /** `NullData` is not a status of the program: it stands for a sync command without data,
      whose data the program uses unchecked. */
  datatype Packing = Packed(octets: seq<byte>) | Missing | NullData

  function Packet(c: Command): Packing
    requires Packable(c)
  {
    if c.body.NoData? && (IsInvitation(c.command) || c.command == CMD_FEEDBACK || c.command == CMD_BITRATE) then Missing
    else if c.body.NoData? && c.command == CMD_SYNC then NullData
    else Packed(BigEndian(c.signature, SIZEOF_U16) + BigEndian(c.command, SIZEOF_U16) + PackedBody(c.body))
  }

  method Pack(c: Command) returns (out: Packing)
    requires Packable(c)
    ensures out == Packet(c)
  {
    var buffer := BigEndian(c.signature, SIZEOF_U16);
    buffer := buffer + BigEndian(c.command, SIZEOF_U16);
    ghost var head := buffer;
    if IsInvitation(c.command) {
      if c.body.NoData? {
        return Missing;
      }
      buffer := buffer + BigEndian(c.body.version, SIZEOF_U32);
      buffer := buffer + BigEndian(c.body.initiator, SIZEOF_U32);
      buffer := buffer + BigEndian(c.body.ssrc, SIZEOF_U32);
      if c.body.name.Some? {
        buffer := buffer + c.body.name.value;
        buffer := buffer + [0];
      }
    }
    if c.command == CMD_FEEDBACK {
      if c.body.NoData? {
        return Missing;
      }
      buffer := buffer + BigEndian(c.body.ssrc, SIZEOF_U32);
      buffer := buffer + BigEndian(c.body.appleSeq, SIZEOF_U32);
    }
    if c.command == CMD_BITRATE {
      if c.body.NoData? {
        return Missing;
      }
      buffer := buffer + BigEndian(c.body.ssrc, SIZEOF_U32);
      buffer := buffer + BigEndian(c.body.limit, SIZEOF_U32);
    }
    if c.command == CMD_SYNC {
      if c.body.NoData? {
        return NullData;
      }
      buffer := buffer + BigEndian(c.body.ssrc, SIZEOF_U32);
      buffer := buffer + [c.body.count];
      buffer := buffer + c.body.padding;
      buffer := buffer + BigEndian(c.body.timestamp1, SIZEOF_U64);
      buffer := buffer + BigEndian(c.body.timestamp2, SIZEOF_U64);
      buffer := buffer + BigEndian(c.body.timestamp3, SIZEOF_U64);
    }
    assert buffer == head + PackedBody(c.body);
    return Packed(buffer);
  }

  /** `Overrun` is not a status of the program: it stands for the inputs on which the program
      reads on past the end of the buffer, where the model stops. */
  datatype Unpacking = Done(command: Command) | NeedData | Overrun

  /** `strdup`: the octets before the first NUL. */
  function CStringAt(s: seq<byte>, k: nat): (r: Option<CString>)
    requires k <= |s|
    decreases |s| - k
  {
    if k == |s| then None
    else if s[k] == 0 then Some([])
    else
      var rest := CStringAt(s, k + 1);
      if rest.None? then None else Some([s[k]] + rest.value)
  }

  /** The length is tested against the size of the structure less that of a pointer, which on a
      64-bit host is one word too little. With pointers of four octets it is right, and only a
      name without its NUL overruns. */
  function UnpackedInvitation(s: seq<byte>, signature: u16, command: u16): Unpacking
    requires |s| >= COMMAND_SIZE
  {
    if |s| < COMMAND_SIZE + (INV_STATIC_SIZE - POINTER_SIZE) then NeedData
    else if |s| < 16 then Overrun
    else
      var name := if |s| == 16 then None else CStringAt(s, 16);
      if |s| > 16 && name.None? then Overrun
      else Done(Command(signature, command, Invitation(GetU32(s, 4), GetU32(s, 8), GetU32(s, 12), name)))
  }

  function UnpackedSync(s: seq<byte>, signature: u16, command: u16): Unpacking
    requires |s| >= COMMAND_SIZE
  {
    if |s| < COMMAND_SIZE + SYNC_SIZE then NeedData
    else Done(Command(signature, command,
                      Sync(GetU32(s, 4), s[8], s[9..12], GetU64(s, 12), GetU64(s, 20), GetU64(s, 28))))
  }

  function Unpacked(s: seq<byte>): Unpacking {
    if |s| < COMMAND_SIZE then NeedData
    else
      var signature, command := GetU16(s, 0), GetU16(s, 2);
      if IsInvitation(command) then UnpackedInvitation(s, signature, command)
      else if command == CMD_FEEDBACK then
        if |s| < 12 then NeedData else Done(Command(signature, command, Feedback(GetU32(s, 4), GetU32(s, 8))))
      else if command == CMD_BITRATE then
        if |s| < 12 then NeedData else Done(Command(signature, command, Bitrate(GetU32(s, 4), GetU32(s, 8))))
      else if command == CMD_SYNC then UnpackedSync(s, signature, command)
      else Done(Command(signature, command, NoData))
  }

  /** The moving pointer `p` and the length left, as the program keeps them. */
  method Unpack(s: seq<byte>) returns (r: Unpacking)
    ensures r == Unpacked(s)
  {
    var left := |s|;
    if left < COMMAND_SIZE {
      return NeedData;
    }
    var p := 0;
    var signature := GetU16(s, p);
    p, left := p + 2, left - 2;
    var command := GetU16(s, p);
    p, left := p + 2, left - 2;
    if IsInvitation(command) {
      if left < INV_STATIC_SIZE - POINTER_SIZE {
        return NeedData;
      }
      if left < 12 {
        return Overrun;
      }
      var version := GetU32(s, p);
      p, left := p + 4, left - 4;
      var initiator := GetU32(s, p);
      p, left := p + 4, left - 4;
      var ssrc := GetU32(s, p);
      p, left := p + 4, left - 4;
      var name := None;
      if left > 0 {
        name := CStringAt(s, p);
        if name.None? {
          return Overrun;
        }
      }
      return Done(Command(signature, command, Invitation(version, initiator, ssrc, name)));
    }
    if command == CMD_FEEDBACK || command == CMD_BITRATE {
      if left < 8 {
        return NeedData;
      }
      var ssrc := GetU32(s, p);
      p, left := p + 4, left - 4;
      var value := GetU32(s, p);
      return Done(Command(signature, command, if command == CMD_FEEDBACK then Feedback(ssrc, value) else Bitrate(ssrc, value)));
    }
    if command == CMD_SYNC {
      if left < SYNC_SIZE {
        return NeedData;
      }
      var ssrc := GetU32(s, p);
      p, left := p + 4, left - 4;
      var count := s[p];
      p, left := p + 1, left - 1;
      var padding := s[p..p + 3];
      p, left := p + 3, left - 3;
      var t1 := GetU64(s, p);
      p := p + 8;
      var t2 := GetU64(s, p);
      p := p + 8;
      var t3 := GetU64(s, p);
      return Done(Command(signature, command, Sync(ssrc, count, padding, t1, t2, t3)));
    }
    return Done(Command(signature, command, NoData));
  }

  lemma HeadFields(signature: u16, command: u16, rest: seq<byte>)
    ensures var s := BigEndian(signature, SIZEOF_U16) + BigEndian(command, SIZEOF_U16) + rest;
            GetU16(s, 0) == signature && GetU16(s, 2) == command && s[4..] == rest
  {
    var a, b := BigEndian(signature, SIZEOF_U16), BigEndian(command, SIZEOF_U16);
    assert a + b + rest == [] + a + (b + rest);
    GetPutU16([], signature, b + rest);
    GetPutU16(a, command, rest);
  }

  /** Reading a field behind a prefix. */
  lemma FieldAfter(pre: seq<byte>, s: seq<byte>, at: nat)
    requires at + 4 <= |s|
    ensures GetU32(pre + s, |pre| + at) == GetU32(s, at)
    ensures at + 8 <= |s| ==> GetU64(pre + s, |pre| + at) == GetU64(s, at)
  {
    assert (pre + s)[|pre| + at..|pre| + at + 4] == s[at..at + 4];
    if at + 8 <= |s| {
      assert (pre + s)[|pre| + at..|pre| + at + 8] == s[at..at + 8];
    }
  }

  lemma TwoWords(a: u32, b: u32)
    ensures var s := BigEndian(a, SIZEOF_U32) + BigEndian(b, SIZEOF_U32);
            GetU32(s, 0) == a && GetU32(s, 4) == b
  {
    var x, y := BigEndian(a, SIZEOF_U32), BigEndian(b, SIZEOF_U32);
    assert (x + y)[0..4] == x && (x + y)[4..8] == y;
    FixedWidthRoundTrip(a);
    FixedWidthRoundTrip(b);
  }

  lemma ThreeSlices(x: seq<byte>, y: seq<byte>, z: seq<byte>, rest: seq<byte>)
    requires |x| == |y| == |z| == 4
    ensures var s := x + y + z + rest;
            s[0..4] == x && s[4..8] == y && s[8..12] == z && s[12..] == rest
  {
  }

  lemma ThreeWords(a: u32, b: u32, c: u32, rest: seq<byte>)
    ensures var s := BigEndian(a, SIZEOF_U32) + BigEndian(b, SIZEOF_U32) + BigEndian(c, SIZEOF_U32) + rest;
            GetU32(s, 0) == a && GetU32(s, 4) == b && GetU32(s, 8) == c && s[12..] == rest
  {
    ThreeSlices(BigEndian(a, SIZEOF_U32), BigEndian(b, SIZEOF_U32), BigEndian(c, SIZEOF_U32), rest);
    FixedWidthRoundTrip(a);
    FixedWidthRoundTrip(b);
    FixedWidthRoundTrip(c);
  }

  lemma SyncSlices(w: seq<byte>, four: seq<byte>, x: seq<byte>, y: seq<byte>, z: seq<byte>)
    requires |w| == |four| == 4 && |x| == |y| == |z| == 8
    ensures var s := w + four + x + y + z;
            s[0..4] == w && s[4..8] == four && s[8..16] == x && s[16..24] == y && s[24..32] == z
  {
  }

  lemma SyncFields(ssrc: u32, four: seq<byte>, t1: u64, t2: u64, t3: u64)
    requires |four| == 4
    ensures var s := BigEndian(ssrc, SIZEOF_U32) + four + BigEndian(t1, SIZEOF_U64) + BigEndian(t2, SIZEOF_U64) +
                     BigEndian(t3, SIZEOF_U64);
            && GetU32(s, 0) == ssrc && s[4..8] == four && GetU64(s, 8) == t1 && GetU64(s, 16) == t2 && GetU64(s, 24) == t3
  {
    SyncSlices(BigEndian(ssrc, SIZEOF_U32), four, BigEndian(t1, SIZEOF_U64), BigEndian(t2, SIZEOF_U64), BigEndian(t3, SIZEOF_U64));
    FixedWidthRoundTrip(ssrc);
    FixedWidthRoundTrip(t1);
    FixedWidthRoundTrip(t2);
    FixedWidthRoundTrip(t3);
  }

  lemma {:induction false} NameRead(s: seq<byte>, k: nat, name: CString)
    requires k <= |s| && name + [0] <= s[k..]
    ensures CStringAt(s, k) == Some(name)
    decreases |name|
  {
    if name == [] {
      assert s[k] == s[k..][0];
    } else {
      assert s[k] == s[k..][0] == name[0];
      assert name[1..] + [0] == (name + [0])[1..] && s[k + 1..] == s[k..][1..];
      NameRead(s, k + 1, name[1..]);
      assert name == [name[0]] + name[1..];
    }
  }

  lemma InvitationRoundTrip(c: Command)
    requires Matches(c) && c.body.Invitation?
    ensures Unpacked(Packet(c).octets) == Done(c)
  {
    var head := BigEndian(c.signature, SIZEOF_U16) + BigEndian(c.command, SIZEOF_U16);
    var body, s := PackedBody(c.body), Packet(c).octets;
    HeadFields(c.signature, c.command, body);
    ThreeWords(c.body.version, c.body.initiator, c.body.ssrc, PackedName(c.body.name));
    FieldAfter(head, body, 0);
    FieldAfter(head, body, 4);
    FieldAfter(head, body, 8);
    if c.body.name.Some? {
      assert s[16..] == body[12..];
      NameRead(s, 16, c.body.name.value);
    }
  }

  lemma PaddingRead(head: seq<byte>, body: seq<byte>, count: byte, padding: Three)
    requires |head| == 4 && |body| >= 8 && body[4..8] == [count] + padding
    ensures (head + body)[8] == count && (head + body)[9..12] == padding
  {
    var s := head + body;
    assert s[8..12] == body[4..8];
    assert s[8] == s[8..12][0] && s[9..12] == s[8..12][1..];
  }

  /** The fields of a sync body behind a head. */
  lemma SyncRead(head: seq<byte>, b: Body)
    requires |head| == COMMAND_SIZE && b.Sync?
    ensures |PackedBody(b)| == SYNC_SIZE
    ensures var s := head + PackedBody(b);
            && GetU32(s, 4) == b.ssrc && s[8] == b.count && s[9..12] == b.padding
            && GetU64(s, 12) == b.timestamp1 && GetU64(s, 20) == b.timestamp2 && GetU64(s, 28) == b.timestamp3
  {
    var body := PackedBody(b);
    SyncFields(b.ssrc, [b.count] + b.padding, b.timestamp1, b.timestamp2, b.timestamp3);
    FieldAfter(head, body, 0);
    FieldAfter(head, body, 8);
    FieldAfter(head, body, 16);
    FieldAfter(head, body, 24);
    PaddingRead(head, body, b.count, b.padding);
  }

  lemma SyncUnpacks(s: seq<byte>, signature: u16, b: Body)
    requires |s| == COMMAND_SIZE + SYNC_SIZE && b.Sync?
    requires GetU32(s, 4) == b.ssrc && s[8] == b.count && s[9..12] == b.padding
    requires GetU64(s, 12) == b.timestamp1 && GetU64(s, 20) == b.timestamp2 && GetU64(s, 28) == b.timestamp3
    ensures UnpackedSync(s, signature, CMD_SYNC) == Done(Command(signature, CMD_SYNC, b))
  {
  }

  lemma SyncRoundTrip(c: Command)
    requires Matches(c) && c.body.Sync?
    ensures Unpacked(Packet(c).octets) == Done(c)
  {
    var head := BigEndian(c.signature, SIZEOF_U16) + BigEndian(c.command, SIZEOF_U16);
    HeadFields(c.signature, c.command, PackedBody(c.body));
    SyncRead(head, c.body);
    SyncUnpacks(head + PackedBody(c.body), c.signature, c.body);
  }

  /** Feedback and bitrate packets: two words. */
  lemma PairRoundTrip(c: Command)
    requires Matches(c) && (c.body.Feedback? || c.body.Bitrate?)
    ensures Unpacked(Packet(c).octets) == Done(c)
  {
    var head := BigEndian(c.signature, SIZEOF_U16) + BigEndian(c.command, SIZEOF_U16);
    var body := PackedBody(c.body);
    HeadFields(c.signature, c.command, body);
    TwoWords(c.body.ssrc, if c.body.Feedback? then c.body.appleSeq else c.body.limit);
    FieldAfter(head, body, 0);
    FieldAfter(head, body, 4);
  }

  /** Unpacking undoes packing for every session packet with its data: IN, OK, NO and BY with
      the name absent, empty or not, RS, RL and CK; and for codes the program does not know. */
  lemma RoundTrip(c: Command)
    requires Matches(c)
    ensures Packet(c).Packed? && Unpacked(Packet(c).octets) == Done(c)
  {
    match c.body {
      case Invitation(_, _, _, _) => InvitationRoundTrip(c);
      case Sync(_, _, _, _, _, _) => SyncRoundTrip(c);
      case NoData => HeadFields(c.signature, c.command, []);
      case _ => PairRoundTrip(c);
    }
  }

  // What is on the wire.

  /** The command codes are two letters each. */
  lemma Codes()
    ensures BigEndian(CMD_INV, SIZEOF_U16) == [0x49, 0x4E]       // IN
    ensures BigEndian(CMD_ACCEPT, SIZEOF_U16) == [0x4F, 0x4B]    // OK
    ensures BigEndian(CMD_REJECT, SIZEOF_U16) == [0x4E, 0x4F]    // NO
    ensures BigEndian(CMD_END, SIZEOF_U16) == [0x42, 0x59]       // BY
    ensures BigEndian(CMD_SYNC, SIZEOF_U16) == [0x43, 0x4B]      // CK
    ensures BigEndian(CMD_FEEDBACK, SIZEOF_U16) == [0x52, 0x53]  // RS
    ensures BigEndian(CMD_BITRATE, SIZEOF_U16) == [0x52, 0x4C]   // RL
  {
    TwoOctetsOf(CMD_INV);
    TwoOctetsOf(CMD_ACCEPT);
    TwoOctetsOf(CMD_REJECT);
    TwoOctetsOf(CMD_END);
    TwoOctetsOf(CMD_SYNC);
    TwoOctetsOf(CMD_FEEDBACK);
    TwoOctetsOf(CMD_BITRATE);
  }

  lemma HeadOctets(c: Command)
    requires Packable(c) && Packet(c).Packed?
    ensures var s := Packet(c).octets;
            && s == s[..COMMAND_SIZE] + PackedBody(c.body)
            && s[..COMMAND_SIZE] == [c.signature / 256, c.signature % 256] + BigEndian(c.command, SIZEOF_U16)
  {
    TwoOctetsOf(c.signature);
    var head := BigEndian(c.signature, SIZEOF_U16) + BigEndian(c.command, SIZEOF_U16);
    assert (head + PackedBody(c.body))[..COMMAND_SIZE] == head;
  }

  /** Each field at its place. */
  lemma BodyOctets(b: Body)
    ensures var s := PackedBody(b);
            match b
            case Invitation(version, initiator, ssrc, name) =>
              && |s| >= 12 && GetU32(s, 0) == version && GetU32(s, 4) == initiator && GetU32(s, 8) == ssrc
              && s[12..] == if name.Some? then name.value + [0] else []
            case Feedback(ssrc, appleSeq) => |s| == 8 && GetU32(s, 0) == ssrc && GetU32(s, 4) == appleSeq
            case Bitrate(ssrc, limit) => |s| == 8 && GetU32(s, 0) == ssrc && GetU32(s, 4) == limit
            case Sync(ssrc, count, padding, t1, t2, t3) =>
              && |s| == 32 && GetU32(s, 0) == ssrc && s[4] == count && s[5..8] == padding
              && GetU64(s, 8) == t1 && GetU64(s, 16) == t2 && GetU64(s, 24) == t3
            case NoData => s == []
  {
    match b
    case Invitation(version, initiator, ssrc, name) => ThreeWords(version, initiator, ssrc, PackedName(name));
    case Feedback(ssrc, appleSeq) => TwoWords(ssrc, appleSeq);
    case Bitrate(ssrc, limit) => TwoWords(ssrc, limit);
    case Sync(ssrc, count, padding, t1, t2, t3) =>
      SyncFields(ssrc, [count] + padding, t1, t2, t3);
      var s := PackedBody(b);
      assert s[4] == s[4..8][0] && s[5..8] == s[4..8][1..];
    case NoData =>
  }

  /** Two buffers that begin alike are read alike so far. */
  lemma ReadAlike(s: seq<byte>, t: seq<byte>, at: nat)
    requires s <= t
    ensures at + 2 <= |s| ==> GetU16(t, at) == GetU16(s, at)
    ensures at + 4 <= |s| ==> GetU32(t, at) == GetU32(s, at)
    ensures at + 8 <= |s| ==> GetU64(t, at) == GetU64(s, at)
  {
    if at + 2 <= |s| {
      assert t[at..at + 2] == s[at..at + 2];
    }
    if at + 4 <= |s| {
      assert t[at..at + 4] == s[at..at + 4];
    }
    if at + 8 <= |s| {
      assert t[at..at + 8] == s[at..at + 8];
    }
  }

  lemma CutHead(c: Command, k: nat)
    requires Matches(c) && 4 <= k <= |Packet(c).octets|
    ensures var s := Packet(c).octets[..k]; GetU16(s, 0) == c.signature && GetU16(s, 2) == c.command
  {
    var all, s := Packet(c).octets, Packet(c).octets[..k];
    HeadFields(c.signature, c.command, PackedBody(c.body));
    ReadAlike(s, all, 0);
    ReadAlike(s, all, 2);
  }

  lemma CutWords(c: Command, k: nat)
    requires Matches(c) && c.body.Invitation? && 16 <= k <= |Packet(c).octets|
    ensures var s := Packet(c).octets[..k];
            GetU32(s, 4) == c.body.version && GetU32(s, 8) == c.body.initiator && GetU32(s, 12) == c.body.ssrc
  {
    HeadOctets(c);
    BodyOctets(c.body);
    WordsCut(Packet(c).octets[..COMMAND_SIZE], PackedBody(c.body), Packet(c).octets[..k]);
  }

  lemma WordsCut(head: seq<byte>, body: seq<byte>, s: seq<byte>)
    requires |head| == 4 && |body| >= 12 && |s| >= 16 && s <= head + body
    ensures GetU32(s, 4) == GetU32(body, 0) && GetU32(s, 8) == GetU32(body, 4) && GetU32(s, 12) == GetU32(body, 8)
  {
    assert s[4..8] == body[0..4] && s[8..12] == body[4..8] && s[12..16] == body[8..12];
  }

  lemma CutName(c: Command, k: nat)
    requires Matches(c) && c.body.Invitation? && 16 < k < |Packet(c).octets|
    ensures CStringAt(Packet(c).octets[..k], 16) == None
  {
    var all, s := Packet(c).octets, Packet(c).octets[..k];
    HeadOctets(c);
    BodyOctets(c.body);
    assert all[16..] == PackedBody(c.body)[12..];
    forall i | 16 <= i < k
      ensures s[i] != 0
    {
      assert s[i] == all[16..][i - 16] == c.body.name.value[i - 16];
    }
    NoNul(s, 16);
  }

  lemma {:induction false} NoNul(s: seq<byte>, k: nat)
    requires k <= |s| && forall i :: k <= i < |s| ==> s[i] != 0
    ensures CStringAt(s, k) == None
    decreases |s| - k
  {
    if k < |s| {
      NoNul(s, k + 1);
    }
  }

  lemma PacketSize(c: Command)
    requires Matches(c)
    ensures var n := |Packet(c).octets|;
            match c.body
            case Invitation(_, _, _, name) => n == 16 + if name.Some? then |name.value| + 1 else 0
            case Feedback(_, _) => n == 12
            case Bitrate(_, _) => n == 12
            case Sync(_, _, _, _, _, _) => n == 36
            case NoData => n == 4
  {
  }

  /** A packet cut short: data is missing, up to the third word of an invitation; there the
      length test lets it pass. Cut between the third word and the name it is one without a
      name, and within the name the name is read past the end. */
  lemma CutExact(c: Command, k: nat)
    requires Matches(c) && k < |Packet(c).octets|
    ensures Unpacked(Packet(c).octets[..k]) ==
              if k < 12 || (c.body.Sync? && k < 36) then NeedData
              else if k == 16 then Done(c.(body := c.body.(name := None)))
              else Overrun
  {
    PacketSize(c);
    if k >= 4 {
      CutHead(c, k);
    }
    if k >= 16 && c.body.Invitation? {
      CutWords(c, k);
      if k > 16 {
        CutName(c, k);
      }
    }
  }

  lemma {:induction false} SameString(s: seq<byte>, t: seq<byte>, k: nat)
    requires s <= t && k <= |s| && CStringAt(s, k).Some?
    ensures CStringAt(t, k) == CStringAt(s, k)
    decreases |s| - k
  {
    if s[k] != 0 {
      SameString(s, t, k + 1);
    }
  }

  lemma MoreInvitation(s: seq<byte>, t: seq<byte>, signature: u16, command: u16)
    requires s <= t && 16 < |s| && CStringAt(s, 16).Some?
    ensures UnpackedInvitation(t, signature, command) == UnpackedInvitation(s, signature, command)
  {
    ReadAlike(s, t, 4);
    ReadAlike(s, t, 8);
    ReadAlike(s, t, 12);
    SameString(s, t, 16);
  }

  lemma MoreSync(s: seq<byte>, t: seq<byte>, signature: u16, command: u16)
    requires s <= t && 36 <= |s|
    ensures UnpackedSync(t, signature, command) == UnpackedSync(s, signature, command)
  {
    ReadAlike(s, t, 4);
    ReadAlike(s, t, 12);
    ReadAlike(s, t, 20);
    ReadAlike(s, t, 28);
    assert t[9..12] == s[9..12];
  }

  /** What has been read does not change with what follows, unless it is an invitation that ends
      before its name. */
  lemma MoreOctets(s: seq<byte>, t: seq<byte>)
    requires s <= t && Unpacked(s).Done?
    requires Unpacked(s).command.body.Invitation? ==> Unpacked(s).command.body.name.Some?
    ensures Unpacked(t) == Unpacked(s)
  {
    ReadAlike(s, t, 0);
    ReadAlike(s, t, 2);
    var signature, command := GetU16(s, 0), GetU16(s, 2);
    if IsInvitation(command) {
      MoreInvitation(s, t, signature, command);
    } else if command == CMD_SYNC {
      MoreSync(s, t, signature, command);
    } else if command == CMD_FEEDBACK || command == CMD_BITRATE {
      ReadAlike(s, t, 4);
      ReadAlike(s, t, 8);
    }
  }

  /** Octets behind a packet are ignored, unless it is an invitation without a name. */
  lemma TrailingIgnored(c: Command, extra: seq<byte>)
    requires Matches(c) && (c.body.Invitation? ==> c.body.name.Some?)
    ensures Unpacked(Packet(c).octets + extra) == Done(c)
  {
    RoundTrip(c);
    MoreOctets(Packet(c).octets, Packet(c).octets + extra);
  }

  // Acknowledgements.

  /** The acknowledged RTP sequence number is the second half of the 32-bit field, as a
      little-endian host lays it out: the high sixteen bits. */
  function AckOf(appleSeq: u32): u16 {
    appleSeq / 0x1_0000
  }

  /** The feedback packet of `applemidi_feedback_create`. */
  function FeedbackFor(ssrc: u32, rtpSeq: u16): Command {
    Command(0xFFFF, CMD_FEEDBACK, Feedback(ssrc, rtpSeq * 0x1_0000))
  }

  /** An acknowledgement is sent as FF FF and RS, by which the peer knows a session packet and its
      kind, and arrives as the number that was acknowledged. */
  lemma AckCrosses(ssrc: u32, rtpSeq: u16)
    ensures var s := Packet(FeedbackFor(ssrc, rtpSeq)).octets;
            var r := Unpacked(s);
            && s[..4] == [0xFF, 0xFF, 0x52, 0x53]
            && r.Done? && r.command.body.Feedback? && r.command.body.ssrc == ssrc
            && AckOf(r.command.body.appleSeq) == rtpSeq && r.command.body.appleSeq % 0x1_0000 == 0
  {
    RoundTrip(FeedbackFor(ssrc, rtpSeq));
    HeadOctets(FeedbackFor(ssrc, rtpSeq));
    Codes();
  }
}
