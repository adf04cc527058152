/**
 IPv4 socket addresses as the driver moves them between its own `NetAddress`
 (a 32-bit IP and a 16-bit port) and the host library's `sockaddr`
 (a family and 14 bytes of `sa_data`).

 The driver copies the port and the IP into `sa_data` with `memcpy`, so the
 bytes are the values' in-memory representation; the model takes that to be
 little-endian, as on the ARM Cortex-M targets the driver runs on. The round
 trips below do not depend on that choice.
 */
module Addresses {
  import opened Basics

  const AfInet: nat := 2
  const SockAddrDataSize: nat := 14

  datatype NetAddress = NetAddress(ip: nat, port: nat)

  predicate ValidAddress(a: NetAddress) {
    a.ip < 0x1_0000_0000 && a.port < 0x1_0000
  }

  datatype SockAddr = SockAddr(family: nat, data: seq<byte>)

  predicate ValidSockAddr(s: SockAddr) {
    |s.data| == SockAddrDataSize
  }

  /** The `n` little-endian bytes of `v`. */
  function LeBytes(v: nat, n: nat): (r: seq<byte>)
    ensures |r| == n
    decreases n
  {
    if n == 0 then [] else [v % 0x100] + LeBytes(v / 0x100, n - 1)
  }

  /** The value of little-endian bytes. */
  function LeValue(b: seq<byte>): nat
    decreases |b|
  {
    if |b| == 0 then 0 else b[0] + 0x100 * LeValue(b[1..])
  }

  /** Decoding the bytes of a value that fits gives the value back. */
  lemma {:induction false} LeRoundTrip(v: nat, n: nat)
    requires v < Pow256(n)
    ensures LeValue(LeBytes(v, n)) == v
    decreases n
  {
    if n > 0 {
      LeRoundTrip(v / 0x100, n - 1);
      assert LeBytes(v, n)[1..] == LeBytes(v / 0x100, n - 1);
    }
  }

  function Pow256(n: nat): (r: nat)
    ensures r > 0
  {
    if n == 0 then 1 else 0x100 * Pow256(n - 1)
  }

  /** `cc3000_prepare_addr`: family `AF_INET`, port in `sa_data[0..1]`, IP in
      `sa_data[2..5]`; the remaining bytes keep whatever the caller's
      `sockaddr` held. */
  function PrepareAddr(s: SockAddr, a: NetAddress): (r: SockAddr)
    requires ValidSockAddr(s)
    ensures ValidSockAddr(r) && r.family == AfInet
    ensures r.data[6..] == s.data[6..]
  {
    SockAddr(AfInet, LeBytes(a.port, 2) + LeBytes(a.ip, 4) + s.data[6..])
  }

  /** How `cc3000_net_recvfrom` and `cc3000_accept` read an address back: port
      from `sa_data[0..1]`, IP from `sa_data[2..5]`. */
  function ReadAddr(s: SockAddr): (a: NetAddress)
    requires ValidSockAddr(s)
    ensures ValidAddress(a)
  {
    LeRoundBound(s.data[0..2]);
    LeRoundBound(s.data[2..6]);
    NetAddress(LeValue(s.data[2..6]), LeValue(s.data[0..2]))
  }

  /** Little-endian bytes denote a value below 256 to the number of bytes. */
  lemma {:induction false} LeRoundBound(b: seq<byte>)
    ensures LeValue(b) < Pow256(|b|)
    decreases |b|
  {
    if |b| > 0 {
      LeRoundBound(b[1..]);
    }
  }

  /** Reading back a prepared address gives the address. */
  lemma AddressRoundTrip(s: SockAddr, a: NetAddress)
    requires ValidSockAddr(s) && ValidAddress(a)
    ensures ReadAddr(PrepareAddr(s, a)) == a
  {
    var r := PrepareAddr(s, a);
    assert r.data[0..2] == LeBytes(a.port, 2);
    assert r.data[2..6] == LeBytes(a.ip, 4);
    LeRoundTrip(a.port, 2);
    LeRoundTrip(a.ip, 4);
  }

  /** `BLTSWAP32`: reverses the four bytes of a 32-bit value. */
  function ByteSwap32(v: nat): (r: nat)
    requires v < 0x1_0000_0000
    ensures r < 0x1_0000_0000
  {
    LeRoundBound(Reverse4(LeBytes(v, 4)));
    LeValue(Reverse4(LeBytes(v, 4)))
  }

  function Reverse4(b: seq<byte>): (r: seq<byte>)
    requires |b| == 4
    ensures |r| == 4
  {
    [b[3], b[2], b[1], b[0]]
  }

  /** Swapping twice is the identity. */
  lemma ByteSwapInvolution(v: nat)
    requires v < 0x1_0000_0000
    ensures ByteSwap32(ByteSwap32(v)) == v
  {
    var b := Reverse4(LeBytes(v, 4));
    LeRoundBound(b);
    LeBytesOfValue(b);
    assert Reverse4(b) == LeBytes(v, 4);
    LeRoundTrip(v, 4);
  }

  /** `OAL_MAKE_IP(ip, a, b, c, d)`: the dotted address a.b.c.d, octet `a`
      in the lowest byte. */
  function MakeIp(a: byte, b: byte, c: byte, d: byte): (ip: nat)
    ensures ip < 0x1_0000_0000
  {
    LeRoundBound([a, b, c, d]);
    assert Pow256(4) == 0x1_0000_0000 by {
      assert Pow256(2) == 0x1_0000;
    }
    LeValue([a, b, c, d])
  }

  /** `OAL_IP_AT(ip, n)`: octet `n` of a dotted address. */
  function IpAt(ip: nat, n: nat): byte
    requires n < 4
  {
    LeBytes(ip, 4)[n]
  }

  /** The octets of a built address are the ones it was built from. */
  lemma MakeIpOctets(a: byte, b: byte, c: byte, d: byte)
    ensures IpAt(MakeIp(a, b, c, d), 0) == a
    ensures IpAt(MakeIp(a, b, c, d), 1) == b
    ensures IpAt(MakeIp(a, b, c, d), 2) == c
    ensures IpAt(MakeIp(a, b, c, d), 3) == d
  {
    LeBytesOfValue([a, b, c, d]);
  }

  /** Encoding the value of some bytes gives the bytes back. */
  lemma {:induction false} LeBytesOfValue(b: seq<byte>)
    ensures LeBytes(LeValue(b), |b|) == b
    decreases |b|
  {
    if |b| > 0 {
      LeBytesOfValue(b[1..]);
      assert LeValue(b) % 0x100 == b[0];
      assert LeValue(b) / 0x100 == LeValue(b[1..]);
    }
  }
}
