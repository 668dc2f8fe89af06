/** Octets, fixed-width integers and network byte order.

    Bit fields are written arithmetically: `x & 0x7f` is `x % 128`, `x << 4` is
    `x * 16`, and an `|` of fields that share no bit is a sum. */
module Bytes {
  type byte = x: int | 0 <= x < 256
  type bit = x: int | 0 <= x < 2
  type bits2 = x: int | 0 <= x < 4
  type nibble = x: int | 0 <= x < 16
  type seven = x: int | 0 <= x < 128
  type ten = x: int | 0 <= x < 1024
  type u16 = x: int | 0 <= x < 0x1_0000
  type u32 = x: int | 0 <= x < 0x1_0000_0000
  type u64 = x: int | 0 <= x < 0x1_0000_0000_0000_0000

  const SIZEOF_U16 := 2
  const SIZEOF_U32 := 4
  const SIZEOF_U64 := 8

  /** The mask of a flag that is set, to be summed with those of other flags. */
  function Flag(on: bool, mask: nat): nat {
    if on then mask else 0
  }

  datatype Option<+T> = None | Some(value: T)

  function Pow256(n: nat): (r: nat)
    ensures r >= 1
  {
    if n == 0 then 1 else 256 * Pow256(n - 1)
  }

  /** The `n` octets of `v`, most significant first. */
  function BigEndian(v: nat, n: nat): (s: seq<byte>)
    ensures |s| == n
  {
    if n == 0 then [] else BigEndian(v / 256, n - 1) + [v % 256]
  }

  function FromBigEndian(s: seq<byte>): nat {
    if s == [] then 0 else FromBigEndian(s[..|s| - 1]) * 256 + s[|s| - 1]
  }

  function Reversed(s: seq<byte>): (r: seq<byte>)
    ensures |r| == |s|
    ensures forall i :: 0 <= i < |s| ==> r[i] == s[|s| - 1 - i]
  {
    if s == [] then [] else Reversed(s[1..]) + [s[0]]
  }

  /** What `memcpy` from a buffer into an integer reads on a little-endian host. */
  function LittleEndianLoad(s: seq<byte>): nat {
    FromBigEndian(Reversed(s))
  }

  /** What `memcpy` from an `n`-octet integer into a buffer writes on a little-endian host. */
  function LittleEndianStore(v: nat, n: nat): (s: seq<byte>)
    ensures |s| == n
  {
    Reversed(BigEndian(v, n))
  }

  /** `ntohs`, `ntohl` and `ntohll` on a little-endian host: swap the octets of an
      `n`-octet integer end for end. */
  function SwapOctets(v: nat, n: nat): nat {
    FromBigEndian(Reversed(BigEndian(v, n)))
  }

  lemma Associative(a: seq<byte>, b: seq<byte>, c: seq<byte>)
    ensures a + b + c == a + (b + c)
  {
  }

  /** A flag in front of seven bits, and two nibbles. */
  lemma BitAndSeven(flag: bit, low: seven)
    ensures (flag * 128 + low) / 128 == flag && (flag * 128 + low) % 128 == low
  {
  }

  lemma TwoNibbles(high: nibble, low: nibble)
    ensures (high * 16 + low) / 16 == high && (high * 16 + low) % 16 == low
  {
  }

  lemma {:induction false} BigEndianRoundTrip(v: nat, n: nat)
    requires v < Pow256(n)
    ensures FromBigEndian(BigEndian(v, n)) == v
  {
    if n > 0 {
      BigEndianRoundTrip(v / 256, n - 1);
      var s := BigEndian(v, n);
      assert s[..|s| - 1] == BigEndian(v / 256, n - 1);
    }
  }

  lemma {:induction false} BigEndianInverse(s: seq<byte>)
    ensures BigEndian(FromBigEndian(s), |s|) == s
  {
    if s != [] {
      BigEndianInverse(s[..|s| - 1]);
      assert FromBigEndian(s) / 256 == FromBigEndian(s[..|s| - 1]);
      assert s == s[..|s| - 1] + [s[|s| - 1]];
    }
  }

  lemma {:induction false} FromBigEndianBound(s: seq<byte>)
    ensures FromBigEndian(s) < Pow256(|s|)
  {
    if s != [] {
      FromBigEndianBound(s[..|s| - 1]);
    }
  }

  /** Network order, octet by octet. */
  lemma TwoOctetsOf(v: u16)
    ensures BigEndian(v, SIZEOF_U16) == [v / 256, v % 256]
  {
    assert BigEndian(v / 256, 1) == BigEndian(v / 256 / 256, 0) + [v / 256 % 256];
  }

  lemma FourOctetsOf(v: u32)
    ensures BigEndian(v, SIZEOF_U32) == [v / 0x100_0000, v / 0x1_0000 % 256, v / 0x100 % 256, v % 256]
  {
    var a, b, c := v / 256, v / 256 / 256, v / 256 / 256 / 256;
    assert BigEndian(c, 1) == BigEndian(c / 256, 0) + [c % 256];
    assert BigEndian(b, 2) == BigEndian(c, 1) + [b % 256];
    assert BigEndian(a, 3) == BigEndian(b, 2) + [a % 256];
  }

  lemma Pow256Values()
    ensures Pow256(2) == 0x1_0000
    ensures Pow256(4) == 0x1_0000_0000
    ensures Pow256(8) == 0x1_0000_0000_0000_0000
  {
    assert Pow256(4) == 256 * 256 * Pow256(2);
    assert Pow256(6) == 256 * 256 * Pow256(4);
    assert Pow256(8) == 256 * 256 * Pow256(6);
  }

  lemma NetworkOrder(s: seq<byte>)
    ensures SwapOctets(LittleEndianLoad(s), |s|) == FromBigEndian(s)
  {
    BigEndianInverse(Reversed(s));
    ReversedTwice(s);
  }

  /** Swapping a host integer end for end and copying its octets out gives network order, for
      the integers of the width copied, and the low octets of wider ones. */
  lemma StoreOnLittleEndianHost(v: nat, n: nat)
    ensures LittleEndianStore(SwapOctets(v, n), n) == BigEndian(v, n)
  {
    var s := Reversed(BigEndian(v, n));
    BigEndianInverse(s);
    assert BigEndian(SwapOctets(v, n), n) == s;
    ReversedTwice(BigEndian(v, n));
  }

  lemma ReversedTwice(s: seq<byte>)
    ensures Reversed(Reversed(s)) == s
  {
  }

  /** What one host writes with a `put_uint` helper the other reads with the `get_uint` helper
      of that width. */
  lemma HostRoundTrip(v: nat, n: nat)
    requires v < Pow256(n)
    ensures SwapOctets(LittleEndianLoad(LittleEndianStore(SwapOctets(v, n), n)), n) == v
  {
    StoreOnLittleEndianHost(v, n);
    NetworkOrder(BigEndian(v, n));
    BigEndianRoundTrip(v, n);
  }

  /** The `get_uint` helpers copy raw octets and swap them on a little-endian host. That gives
      the value these functions give, at each width. */
  lemma GetOnLittleEndianHost(s: seq<byte>, at: nat)
    ensures at + 2 <= |s| ==> GetU16(s, at) == SwapOctets(LittleEndianLoad(s[at..at + 2]), SIZEOF_U16)
    ensures at + 4 <= |s| ==> GetU32(s, at) == SwapOctets(LittleEndianLoad(s[at..at + 4]), SIZEOF_U32)
    ensures at + 8 <= |s| ==> GetU64(s, at) == SwapOctets(LittleEndianLoad(s[at..at + 8]), SIZEOF_U64)
  {
    if at + 2 <= |s| { NetworkOrder(s[at..at + 2]); }
    if at + 4 <= |s| { NetworkOrder(s[at..at + 4]); }
    if at + 8 <= |s| { NetworkOrder(s[at..at + 8]); }
  }

  lemma FixedWidthRoundTrip(v: nat)
    ensures v < 0x1_0000 ==> FromBigEndian(BigEndian(v, SIZEOF_U16)) == v
    ensures v < 0x1_0000_0000 ==> FromBigEndian(BigEndian(v, SIZEOF_U32)) == v
    ensures v < 0x1_0000_0000_0000_0000 ==> FromBigEndian(BigEndian(v, SIZEOF_U64)) == v
  {
    Pow256Values();
    if v < 0x1_0000 { BigEndianRoundTrip(v, SIZEOF_U16); }
    if v < 0x1_0000_0000 { BigEndianRoundTrip(v, SIZEOF_U32); }
    if v < 0x1_0000_0000_0000_0000 { BigEndianRoundTrip(v, SIZEOF_U64); }
  }

  function GetU16(s: seq<byte>, at: nat): (v: u16)
    requires at + 2 <= |s|
  {
    FromBigEndianBound(s[at..at + 2]);
    Pow256Values();
    FromBigEndian(s[at..at + 2])
  }

  function GetU32(s: seq<byte>, at: nat): (v: u32)
    requires at + 4 <= |s|
  {
    FromBigEndianBound(s[at..at + 4]);
    Pow256Values();
    FromBigEndian(s[at..at + 4])
  }

  function GetU64(s: seq<byte>, at: nat): (v: u64)
    requires at + 8 <= |s|
  {
    FromBigEndianBound(s[at..at + 8]);
    Pow256Values();
    FromBigEndian(s[at..at + 8])
  }

  lemma GetPutU16(pre: seq<byte>, v: u16, post: seq<byte>)
    ensures GetU16(pre + BigEndian(v, SIZEOF_U16) + post, |pre|) == v
  {
    Pow256Values();
    BigEndianRoundTrip(v, SIZEOF_U16);
    var s := pre + BigEndian(v, SIZEOF_U16) + post;
    assert s[|pre|..|pre| + 2] == BigEndian(v, SIZEOF_U16);
  }

  /** The array `d` after `memcpy( d + at, src, |src| )`. */
  function Splice(d: seq<byte>, at: nat, src: seq<byte>): (r: seq<byte>)
    requires at + |src| <= |d|
    ensures |r| == |d|
  {
    d[..at] + src + d[at + |src|..]
  }

  /** `memcpy` of `src` into `dest` at offset `at`. */
  method CopyInto(dest: array<byte>, at: nat, src: seq<byte>)
    requires at + |src| <= dest.Length
    modifies dest
    ensures dest[..] == Splice(old(dest[..]), at, src)
  {
    forall i | 0 <= i < |src| {
      dest[at + i] := src[i];
    }
  }

  /** Write `src` at the moving pointer `p` and return the pointer past it. */
  method Put(dest: array<byte>, p: nat, src: seq<byte>) returns (q: nat)
    requires p + |src| <= dest.Length
    modifies dest
    ensures q == p + |src| && dest[..q] == old(dest[..p]) + src
  {
    ghost var before := dest[..];
    CopyInto(dest, p, src);
    q := p + |src|;
    assert dest[..q] == Splice(before, p, src)[..q];
  }

  /** `put_uint16`, `put_uint32` and `put_uint64`: swap `v` and copy its octets out at the
      moving pointer. */
  method PutUint(dest: array<byte>, p: nat, v: nat, n: nat) returns (q: nat)
    requires p + n <= dest.Length
    modifies dest
    ensures q == p + n && dest[..q] == old(dest[..p]) + BigEndian(v, n)
  {
    StoreOnLittleEndianHost(v, n);
    var value := SwapOctets(v, n);
    q := Put(dest, p, LittleEndianStore(value, n));
  }

  /** Four pieces copied one after the other into a buffer of their joint size. */
  method JoinFour(a: seq<byte>, b: seq<byte>, c: seq<byte>, d: seq<byte>) returns (s: seq<byte>)
    ensures s == a + (b + c + d)
  {
    var buffer := new byte[|a| + |d| + |c| + |b|](_ => 0);
    var p := Put(buffer, 0, a);
    p := Put(buffer, p, b);
    p := Put(buffer, p, c);
    p := Put(buffer, p, d);
    assert buffer[..p] == buffer[..];
    s := buffer[..];
    assert s == a + (b + c + d);
  }
}
