/** `InternetAddress`: an IPv4 or IPv6 socket address as the resolver
    returns it, with the family used to open a socket for it, equality and
    hashing by its printed host, the `sockaddr` bytes handed to the socket
    layer, and the private-range classification.

    Socket structures follow Darwin: `AF_INET` is 2, `AF_INET6` is 30, and
    multi-byte fields sit in memory little-endian unless stored byte-swapped.
    `inet_ntop` is not modelled: the printed host is a parameter `host`. */
module Address {
  import opened Wrappers
  import opened Bytes

  const AfInet: int := 2
  const AfInet6: int := 30
  /** The protocol families equal the address families. */
  const PfInet: int := AfInet
  const PfInet6: int := AfInet6

  type Ipv4Bytes = s: seq<uint8> | |s| == 4 witness [0, 0, 0, 0]
  type Ipv6Bytes = s: seq<uint8> | |s| == 16 witness [0, 0, 0, 0, 0, 0, 0, 0, 0, 0, 0, 0, 0, 0, 0, 0]
  type Padding = s: seq<uint8> | |s| == 8 witness [0, 0, 0, 0, 0, 0, 0, 0]

  /** `sockaddr_in`: length, family, port (as the 16-bit value held in
      memory), address bytes, padding. */
  datatype SockaddrIn = SockaddrIn(len: uint8, family: uint8, port: uint16, addr: Ipv4Bytes, zero: Padding)

  /** `sockaddr_in6`: length, family, port, flow information, address bytes, scope. */
  datatype SockaddrIn6 = SockaddrIn6(len: uint8, family: uint8, port: uint16, flowInfo: uint32, addr: Ipv6Bytes, scopeId: uint32)

  datatype InternetAddress = IPv6(sin6: SockaddrIn6) | IPv4(sin: SockaddrIn)

  /** `family`: the protocol family for the socket. */
  function Family(a: InternetAddress): (f: int)
    ensures a.IPv4? ==> f == PfInet
    ensures a.IPv6? ==> f == PfInet6
  {
    match a
    case IPv4(_) => PfInet
    case IPv6(_) => PfInet6
  }

  // ---------------------------------------------------------------------
  // Equality and hashing through the printed host.

  /** `==`: the two addresses print the same host (or both fail to print). */
  predicate SameAddress(host: InternetAddress -> Option<string>, a: InternetAddress, b: InternetAddress) {
    host(a) == host(b)
  }

  /** `hashValue`: the hash of the printed host, 0 when it does not print. */
  function HashValue(host: InternetAddress -> Option<string>, hash: string -> int, a: InternetAddress): (h: int)
    ensures host(a).None? ==> h == 0
    ensures host(a).Some? ==> h == hash(host(a).value)
  {
    match host(a)
    case None => 0
    case Some(s) => hash(s)
  }

  /** Comparing hosts is an equivalence, whatever `host` prints. */
  lemma SameAddressIsEquivalence(host: InternetAddress -> Option<string>, a: InternetAddress, b: InternetAddress, c: InternetAddress)
    ensures SameAddress(host, a, a)
    ensures SameAddress(host, a, b) ==> SameAddress(host, b, a)
    ensures SameAddress(host, a, b) && SameAddress(host, b, c) ==> SameAddress(host, a, c)
  {
  }

  /** Addresses that compare equal hash equally, as `Hashable` requires. */
  lemma EqualAddressesHashEqual(host: InternetAddress -> Option<string>, hash: string -> int, a: InternetAddress, b: InternetAddress)
    requires SameAddress(host, a, b)
    ensures HashValue(host, hash, a) == HashValue(host, hash, b)
  {
  }

  // ---------------------------------------------------------------------
  // `init?(storage:)`.

  /** A `sockaddr_storage` as read through the three views the source
      uses: its family byte, and the same memory as `sockaddr_in` and as
      `sockaddr_in6`. */
  datatype SockaddrStorage = SockaddrStorage(family: uint8, asIn: SockaddrIn, asIn6: SockaddrIn6)

  /** `init?(storage:)`: nothing for a null pointer or an unknown family;
      otherwise the view that matches the family. */
  function FromStorage(storage: Option<SockaddrStorage>): (a: Option<InternetAddress>)
    ensures storage.None? ==> a.None?
    ensures storage.Some? ==>
      && (a == Some(IPv4(storage.value.asIn)) <==> storage.value.family == AfInet)
      && (a == Some(IPv6(storage.value.asIn6)) <==> storage.value.family == AfInet6)
      && (a.None? <==> storage.value.family !in {AfInet, AfInet6})
  {
    match storage
    case None => None
    case Some(s) =>
      if s.family == AfInet then Some(IPv4(s.asIn))
      else if s.family == AfInet6 then Some(IPv6(s.asIn6))
      else None
  }

  /** The socket for an address read from storage is opened with the
      family the storage records. */
  lemma FromStorageFamily(storage: SockaddrStorage)
    requires FromStorage(Some(storage)).Some?
    ensures Family(FromStorage(Some(storage)).value) == storage.family
  {
  }

  // ---------------------------------------------------------------------
  // `addressData(withPort:)`.

  /** The bytes of a 16-bit value held in memory (little-endian host). */
  function HalfBytes(v: uint16): (r: seq<uint8>)
    ensures |r| == 2 && LittleEndian(r) == v
  {
    var r := [v % 0x100, v / 0x100];
    assert r[1..] == [v / 0x100] && r[1..][1..] == [];
    assert LittleEndian(r[1..]) == v / 0x100;
    assert LittleEndian(r) == v % 0x100 + 0x100 * (v / 0x100);
    r
  }

  /** `in_port_t(port).bigEndian` on a little-endian host: the two bytes swapped. */
  function NetworkPort(port: uint16): (v: uint16)
    ensures HalfBytes(v) == [port / 0x100, port % 0x100]
  {
    (port % 0x100) * 0x100 + port / 0x100
  }

  /** The 16 bytes of a `sockaddr_in`. */
  function SockaddrInBytes(s: SockaddrIn): (r: seq<uint8>)
    ensures |r| == 16
  {
    [s.len, s.family] + HalfBytes(s.port) + s.addr + s.zero
  }

  /** The 28 bytes of a `sockaddr_in6`. */
  function SockaddrIn6Bytes(s: SockaddrIn6): (r: seq<uint8>)
    ensures |r| == 28
  {
    [s.len, s.family] + HalfBytes(s.port) + WordBytes(s.flowInfo, false) + s.addr + WordBytes(s.scopeId, false)
  }

  /** The bytes of the structure an address wraps. */
  function StructBytes(a: InternetAddress): seq<uint8> {
    match a
    case IPv4(s) => SockaddrInBytes(s)
    case IPv6(s) => SockaddrIn6Bytes(s)
  }

  /** `addressData(withPort:)`: the structure's bytes with the port set in
      network byte order and every other byte as it was. The port must fit
      `in_port_t`, or the conversion traps. */
  function AddressData(a: InternetAddress, port: int): (r: seq<uint8>)
    requires 0 <= port < 0x1_0000
    ensures |r| == |StructBytes(a)| == (if a.IPv4? then 16 else 28)
    ensures r[2..4] == [port / 0x100, port % 0x100]
    ensures r[..2] == StructBytes(a)[..2] && r[4..] == StructBytes(a)[4..]
  {
    var v := NetworkPort(port);
    match a
    case IPv4(s) =>
      var rest := s.addr + s.zero;
      assert SockaddrInBytes(s) == [s.len, s.family] + HalfBytes(s.port) + rest;
      assert SockaddrInBytes(s.(port := v)) == [s.len, s.family] + HalfBytes(v) + rest;
      PortSpliced([s.len, s.family], HalfBytes(s.port), HalfBytes(v), rest);
      SockaddrInBytes(s.(port := v))
    case IPv6(s) =>
      var rest := WordBytes(s.flowInfo, false) + s.addr + WordBytes(s.scopeId, false);
      assert SockaddrIn6Bytes(s) == [s.len, s.family] + HalfBytes(s.port) + rest;
      assert SockaddrIn6Bytes(s.(port := v)) == [s.len, s.family] + HalfBytes(v) + rest;
      PortSpliced([s.len, s.family], HalfBytes(s.port), HalfBytes(v), rest);
      SockaddrIn6Bytes(s.(port := v))
  }

  /** Replacing the two bytes after a two-byte head leaves the rest alone. */
  lemma PortSpliced(head: seq<uint8>, before: seq<uint8>, after: seq<uint8>, rest: seq<uint8>)
    requires |head| == 2 && |before| == 2 && |after| == 2
    ensures (head + after + rest)[2..4] == after
    ensures (head + after + rest)[..2] == (head + before + rest)[..2]
    ensures (head + after + rest)[4..] == (head + before + rest)[4..]
  {
    assert (head + after + rest)[..2] == head == (head + before + rest)[..2];
    assert (head + after + rest)[4..] == rest == (head + before + rest)[4..];
  }

  /** A peer reads the port back from the data in network byte order, and
      the variant of the address is unchanged. */
  lemma AddressDataCarriesPort(a: InternetAddress, port: int)
    requires 0 <= port < 0x1_0000
    ensures BigEndian(AddressData(a, port)[2..4]) == port
    ensures AddressData(a, port)[1] == StructBytes(a)[1]
  {
    var r := AddressData(a, port);
    var p := r[2..4];
    assert p == [port / 0x100, port % 0x100];
    assert p[..1] == [port / 0x100] && p[..1][..0] == [];
    assert BigEndian(p[..1]) == port / 0x100;
    assert r[1] == r[..2][1];
  }

  // ---------------------------------------------------------------------
  // `isPrivate`, as the test suite pins it down.

  /** An IPv4 network: the address whose top `prefixLength` bits name it. */
  datatype Block = Block(network: uint32, prefixLength: nat)

  /** The 32-bit value of an IPv4 address. */
  function Ipv4Value(a: Ipv4Bytes): (v: uint32) {
    (a[0] as int) * 0x100_0000 + (a[1] as int) * 0x1_0000 + (a[2] as int) * 0x100 + a[3]
  }

  /** Two to the number of host bits of the block. */
  function HostSpan(prefixLength: nat): (r: nat)
    requires prefixLength <= 32
    ensures r > 0
    decreases 32 - prefixLength
  {
    if prefixLength == 32 then 1 else 2 * HostSpan(prefixLength + 1)
  }

  /** The address lies in the block. */
  predicate InBlock(a: Ipv4Bytes, b: Block)
    requires b.prefixLength <= 32
  {
    Ipv4Value(a) / HostSpan(b.prefixLength) == b.network / HostSpan(b.prefixLength)
  }

  /** 10/8, 172.16/12 and 192.168/16 (private networks, RFC 1918),
      224/4 (multicast) and the limited broadcast address. */
  const PrivateIpv4Blocks: seq<Block> := [
    Block(0x0A00_0000, 8), Block(0xAC10_0000, 12), Block(0xC0A8_0000, 16),
    Block(0xE000_0000, 4), Block(0xFFFF_FFFF, 32)]

  predicate IsPrivateIpv4(a: Ipv4Bytes) {
    exists i :: 0 <= i < |PrivateIpv4Blocks| && InBlock(a, PrivateIpv4Blocks[i])
  }

  /** The first 16-bit group of an IPv6 address. */
  function FirstGroup(a: Ipv6Bytes): (g: uint16) {
    (a[0] as int) * 0x100 + a[1]
  }

  /** A group of three or four hexadecimal digits that begins `fd` or `ff`:
      0xfd00-0xfdff (fd00::/8, unique local), 0xff00-0xffff (ff00::/8,
      multicast), and 0xfd0-0xfdf or 0xff0-0xfff, which is what the test
      suite's spelling makes of those prefixes when the next byte is below
      16. A two-digit group 0xfd or 0xff is public. */
  predicate PrivateGroup(g: int) {
    || 0xfd00 <= g <= 0xfdff || 0xff00 <= g <= 0xffff
    || 0x0fd0 <= g <= 0x0fdf || 0x0ff0 <= g <= 0x0fff
  }

  /** The classification that agrees with every IPv6 address the test
      suite builds. */
  predicate IsPrivateIpv6(a: Ipv6Bytes) {
    PrivateGroup(FirstGroup(a))
  }

  /** `isPrivate`. */
  predicate IsPrivate(a: InternetAddress) {
    match a
    case IPv4(s) => IsPrivateIpv4(s.addr)
    case IPv6(s) => IsPrivateIpv6(s.addr)
  }

  lemma SpanValues()
    ensures HostSpan(32) == 1 && HostSpan(16) == 0x1_0000 && HostSpan(12) == 0x10_0000
    ensures HostSpan(8) == 0x100_0000 && HostSpan(4) == 0x1000_0000
  {
    assert HostSpan(28) == 16;
    assert HostSpan(24) == 0x100;
    assert HostSpan(20) == 0x1000;
  }

  /** The leading bits of an address, octet by octet. */
  lemma {:induction false} Ipv4Prefixes(a: Ipv4Bytes)
    ensures Ipv4Value(a) / 0x1000_0000 == a[0] / 16
    ensures Ipv4Value(a) / 0x100_0000 == a[0]
    ensures Ipv4Value(a) / 0x10_0000 == (a[0] as int) * 16 + a[1] / 16
    ensures Ipv4Value(a) / 0x1_0000 == (a[0] as int) * 0x100 + a[1]
  {
    var a0, a1, a2, a3: int := a[0], a[1], a[2], a[3];
    var low24 := a1 * 0x1_0000 + a2 * 0x100 + a3;
    var low16 := a2 * 0x100 + a3;
    var v := Ipv4Value(a);
    assert v == a0 * 0x100_0000 + low24;
    assert v == (a0 * 0x100 + a1) * 0x1_0000 + low16;
    DivideExactly(a0, low24, 0x100_0000);
    DivideExactly(a0 * 0x100 + a1, low16, 0x1_0000);
    assert v / 0x10_0000 == (v / 0x1_0000) / 16;
    assert v / 0x1000_0000 == (v / 0x100_0000) / 16;
    assert (a0 * 0x100 + a1) / 16 == a0 * 16 + a1 / 16;
  }

  /** Membership in a block of prefix length 4, 8, 12 or 16, read off the
      leading octets. */
  lemma PrefixBlockOctets(a: Ipv4Bytes, network: uint32)
    ensures InBlock(a, Block(network, 4)) <==> a[0] / 16 == network / 0x1000_0000
    ensures InBlock(a, Block(network, 8)) <==> a[0] == network / 0x100_0000
    ensures InBlock(a, Block(network, 12)) <==> (a[0] as int) * 16 + a[1] / 16 == network / 0x10_0000
    ensures InBlock(a, Block(network, 16)) <==> (a[0] as int) * 0x100 + a[1] == network / 0x1_0000
  {
    SpanValues();
    Ipv4Prefixes(a);
  }

  /** 172.16/12 in octets: the twelve leading bits are 0xAC1. */
  lemma TwelveBitPrefix(a0: int, a1: int)
    requires 0 <= a1 < 0x100
    ensures a0 * 16 + a1 / 16 == 0xAC1 <==> a0 == 172 && 16 <= a1 <= 31
  {
  }

  /** The limited broadcast address is the one whose value is all ones. */
  lemma AllOnes(a: Ipv4Bytes)
    ensures InBlock(a, Block(0xFFFF_FFFF, 32)) <==> a == [255, 255, 255, 255]
  {
    assert HostSpan(32) == 1;
    assert Ipv4Value(a) == 0xFFFF_FFFF <==> a[0] == 255 && a[1] == 255 && a[2] == 255 && a[3] == 255;
  }

  /** Each private block, octet by octet. */
  lemma PrivateBlockOctets(a: Ipv4Bytes)
    ensures InBlock(a, PrivateIpv4Blocks[0]) <==> a[0] == 10
    ensures InBlock(a, PrivateIpv4Blocks[1]) <==> a[0] == 172 && 16 <= a[1] <= 31
    ensures InBlock(a, PrivateIpv4Blocks[2]) <==> a[0] == 192 && a[1] == 168
    ensures InBlock(a, PrivateIpv4Blocks[3]) <==> 224 <= a[0] <= 239
    ensures InBlock(a, PrivateIpv4Blocks[4]) <==> a == [255, 255, 255, 255]
  {
    var a0, a1: int := a[0], a[1];
    PrefixBlockOctets(a, 0x0A00_0000);
    PrefixBlockOctets(a, 0xAC10_0000);
    TwelveBitPrefix(a0, a1);
    PrefixBlockOctets(a, 0xC0A8_0000);
    PrefixBlockOctets(a, 0xE000_0000);
    AllOnes(a);
  }

  /** The classification, octet by octet: 10.x.x.x, 172.16-31.x.x,
      192.168.x.x, a first octet from 224 to 239, or 255.255.255.255. */
  lemma Ipv4PrivateOctets(a: Ipv4Bytes)
    ensures IsPrivateIpv4(a) <==>
      || a[0] == 10
      || (a[0] == 172 && 16 <= a[1] <= 31)
      || (a[0] == 192 && a[1] == 168)
      || (224 <= a[0] <= 239)
      || a == [255, 255, 255, 255]
  {
    PrivateBlockOctets(a);
    var blocks := PrivateIpv4Blocks;
    assert IsPrivateIpv4(a) <==>
      InBlock(a, blocks[0]) || InBlock(a, blocks[1]) || InBlock(a, blocks[2])
      || InBlock(a, blocks[3]) || InBlock(a, blocks[4]);
  }

  /** The IPv4 addresses the test suite asserts private. */
  lemma TestedPrivateIpv4(x: uint8, y: uint8, z: uint8, b: uint8, m: uint8)
    requires 16 <= b <= 31 && 224 <= m <= 239
    ensures IsPrivateIpv4([10, x, y, z])
    ensures IsPrivateIpv4([172, b, y, z])
    ensures IsPrivateIpv4([192, 168, y, z])
    ensures IsPrivateIpv4([m, x, y, z])
    ensures IsPrivateIpv4([255, 255, 255, 255])
  {
    Ipv4PrivateOctets([10, x, y, z]);
    Ipv4PrivateOctets([172, b, y, z]);
    Ipv4PrivateOctets([192, 168, y, z]);
    Ipv4PrivateOctets([m, x, y, z]);
    Ipv4PrivateOctets([255, 255, 255, 255]);
  }

  /** The IPv4 addresses the test suite asserts public: any first octet
      other than 10, 172, 192, 255 and 224-239; 172 followed by 0-15 or
      32-255; 192 followed by anything but 168; and 255 with any later
      octet below 255. */
  lemma TestedPublicIpv4(first: uint8, x: uint8, y: uint8, z: uint8)
    ensures first !in {10, 172, 192, 255} && !(224 <= first <= 239) ==> !IsPrivateIpv4([first, x, y, z])
    ensures (x <= 15 || 32 <= x) ==> !IsPrivateIpv4([172, x, y, z])
    ensures x != 168 ==> !IsPrivateIpv4([192, x, y, z])
    ensures (x < 255 || y < 255 || z < 255) ==> !IsPrivateIpv4([255, x, y, z])
  {
    Ipv4PrivateOctets([first, x, y, z]);
    Ipv4PrivateOctets([172, x, y, z]);
    Ipv4PrivateOctets([192, x, y, z]);
    Ipv4PrivateOctets([255, x, y, z]);
  }

  /** The hexadecimal digits of `g`, most significant first, without
      leading zeros (none for zero). */
  function HexDigits(g: nat): (d: seq<nat>)
    ensures forall k :: 0 <= k < |d| ==> d[k] < 16
    ensures |d| > 0 ==> d[0] > 0
    decreases g
  {
    if g == 0 then [] else HexDigits(g / 16) + [g % 16]
  }

  /** The number that hexadecimal digits spell, most significant first,
      whatever the case of the letters. */
  function HexValue(d: seq<nat>): nat {
    if |d| == 0 then 0 else HexValue(d[..|d| - 1]) * 16 + d[|d| - 1]
  }

  /** Writing a number's digits and reading them back gives the number. */
  lemma {:induction false} HexDigitsRoundTrip(g: nat)
    ensures HexValue(HexDigits(g)) == g
    decreases g
  {
    if g > 0 {
      HexDigitsRoundTrip(g / 16);
      var d := HexDigits(g);
      assert d[..|d| - 1] == HexDigits(g / 16);
    }
  }

  /** `String(b, radix: 16)`: the digits of a byte, one or two of them,
      `0` for zero. */
  function ByteHex(b: uint8): (d: seq<nat>) {
    if b == 0 then [0] else HexDigits(b)
  }

  lemma ByteHexSpelling(b: uint8)
    ensures |ByteHex(b)| == (if b < 16 then 1 else 2)
    ensures HexValue(ByteHex(b)) == b
  {
    if b > 0 {
      HexDigitsRoundTrip(b);
      assert HexDigits(b / 16 / 16) == [];
    }
  }

  /** Sixteen to the power `n`. */
  function Pow16(n: nat): (p: nat)
    ensures p > 0
  {
    if n == 0 then 1 else 16 * Pow16(n - 1)
  }

  /** Reading a concatenation of digits: the first part shifted past the
      second. */
  lemma {:induction false} HexValueAppend(x: seq<nat>, y: seq<nat>)
    ensures HexValue(x + y) == HexValue(x) * Pow16(|y|) + HexValue(y)
    decreases |y|
  {
    if |y| == 0 {
      assert x + y == x;
    } else {
      var z := x + y;
      var y' := y[..|y| - 1];
      assert z[..|z| - 1] == x + y';
      assert z[|z| - 1] == y[|y| - 1];
      assert y[..|y| - 1] == y';
      HexValueAppend(x, y');
      ShiftDigit(HexValue(x), Pow16(|y'|), HexValue(y'), y[|y| - 1]);
    }
  }

  /** One more digit after `a` shifted past `b`. */
  lemma ShiftDigit(a: int, p: int, b: int, d: int)
    ensures (a * p + b) * 16 + d == a * (16 * p) + (b * 16 + d)
  {
  }

  /** The text of a group in the test suite's `mockIPv6`: the unpadded
      hexadecimal spellings of two bytes run together. */
  function MockGroupText(hi: uint8, lo: uint8): seq<nat> {
    ByteHex(hi) + ByteHex(lo)
  }

  /** The group `mockIPv6` builds from two bytes. A low byte below 16 is
      one digit instead of two, so the high byte moves one digit instead
      of two. */
  function MockGroup(hi: uint8, lo: uint8): uint16 {
    if lo < 16 then (hi as int) * 16 + lo else (hi as int) * 256 + lo
  }

  /** `inet_pton` reads the group `MockGroup` from the text the mock
      writes. */
  lemma MockGroupTextValue(hi: uint8, lo: uint8)
    ensures HexValue(MockGroupText(hi, lo)) == MockGroup(hi, lo)
  {
    ByteHexSpelling(hi);
    ByteHexSpelling(lo);
    HexValueAppend(ByteHex(hi), ByteHex(lo));
    assert Pow16(1) == 16 && Pow16(2) == 256;
  }

  /** The bytes of an address given as 16-bit groups, each in network
      order, as `inet_pton` stores them. */
  function GroupsToBytes(groups: seq<uint16>): (r: seq<uint8>)
    ensures |r| == 2 * |groups|
  {
    if |groups| == 0 then [] else GroupBytes(groups[0]) + GroupsToBytes(groups[1..])
  }

  /** A group's two bytes in network order. */
  function GroupBytes(g: uint16): (r: seq<uint8>)
    ensures |r| == 2 && (r[0] as int) * 0x100 + r[1] == g
  {
    [g / 0x100, g % 0x100]
  }

  /** Group `k` of the address is bytes `2k` and `2k + 1`. */
  lemma {:induction false} GroupsToBytesAt(groups: seq<uint16>, k: nat)
    requires k < |groups|
    ensures (GroupsToBytes(groups)[2 * k] as int) * 0x100 + GroupsToBytes(groups)[2 * k + 1] == groups[k]
  {
    var r := GroupsToBytes(groups);
    var rest := GroupsToBytes(groups[1..]);
    assert r == GroupBytes(groups[0]) + rest;
    if k > 0 {
      GroupsToBytesAt(groups[1..], k - 1);
      assert r[2 * k] == rest[2 * (k - 1)] && r[2 * k + 1] == rest[2 * (k - 1) + 1];
    }
  }

  /** The eight groups `mockIPv6` spells, each from two of its bytes. */
  function MockGroups(bytes: Ipv6Bytes): (groups: seq<uint16>)
    ensures |groups| == 8
  {
    [MockGroup(bytes[0], bytes[1]), MockGroup(bytes[2], bytes[3]),
     MockGroup(bytes[4], bytes[5]), MockGroup(bytes[6], bytes[7]),
     MockGroup(bytes[8], bytes[9]), MockGroup(bytes[10], bytes[11]),
     MockGroup(bytes[12], bytes[13]), MockGroup(bytes[14], bytes[15])]
  }

  lemma MockGroupsAt(bytes: Ipv6Bytes, k: nat)
    requires k < 8
    ensures MockGroups(bytes)[k] == MockGroup(bytes[2 * k], bytes[2 * k + 1])
  {
  }

  /** The address `mockIPv6(bytes)` parses to. */
  function MockIpv6(bytes: Ipv6Bytes): (a: Ipv6Bytes) {
    GroupsToBytes(MockGroups(bytes))
  }

  /** Each group of the parsed address is the group built from the same
      two of the bytes. */
  lemma MockIpv6Groups(bytes: Ipv6Bytes, k: nat)
    requires k < 8
    ensures (MockIpv6(bytes)[2 * k] as int) * 0x100 + MockIpv6(bytes)[2 * k + 1]
      == MockGroup(bytes[2 * k], bytes[2 * k + 1])
  {
    var groups := MockGroups(bytes);
    assert MockIpv6(bytes) == GroupsToBytes(groups);
    MockGroupsAt(bytes, k);
    GroupsToBytesAt(groups, k);
  }

  /** The first group `mockIPv6` builds, by the first byte it is given. */
  lemma MockFirstGroup(hi: uint8, lo: uint8)
    ensures hi == 0xfd || hi == 0xff ==> PrivateGroup(MockGroup(hi, lo))
    ensures 0xf0 <= hi && hi != 0xfd && hi != 0xff ==> !PrivateGroup(MockGroup(hi, lo))
    ensures hi <= 0xfc && hi != 0x0f ==> !PrivateGroup(MockGroup(hi, lo))
  {
    var g := MockGroup(hi, lo);
    if lo < 16 {
      assert g == (hi as int) * 16 + lo;
      assert hi == 0xfd ==> 0x0fd0 <= g <= 0x0fdf;
      assert hi == 0xff ==> 0x0ff0 <= g <= 0x0fff;
    } else {
      assert g == (hi as int) * 256 + lo;
      assert g / 256 == hi;
    }
  }

  /** Any address whose first group is built from `hi` and `lo` is
      classified as that group is. */
  lemma ClassifiedByFirstGroup(a: Ipv6Bytes, hi: uint8, lo: uint8)
    requires FirstGroup(a) == MockGroup(hi, lo)
    ensures hi == 0xfd || hi == 0xff ==> IsPrivateIpv6(a)
    ensures 0xf0 <= hi && hi != 0xfd && hi != 0xff ==> !IsPrivateIpv6(a)
    ensures hi <= 0xfc && hi != 0x0f ==> !IsPrivateIpv6(a)
  {
    MockFirstGroup(hi, lo);
  }

  /** `testIfIPv6AddressIsPrivate`, over the addresses `mockIPv6` builds
      from the first byte it picks and fifteen arbitrary ones: 0xfd and
      0xff give private addresses; 0xf0-0xfc and 0xfe, and 0x00-0xfc other
      than 0x0f, give public ones. */
  lemma TestedIpv6(bytes: Ipv6Bytes)
    ensures bytes[0] == 0xfd || bytes[0] == 0xff ==> IsPrivateIpv6(MockIpv6(bytes))
    ensures 0xf0 <= bytes[0] && bytes[0] != 0xfd && bytes[0] != 0xff ==> !IsPrivateIpv6(MockIpv6(bytes))
    ensures bytes[0] <= 0xfc && bytes[0] != 0x0f ==> !IsPrivateIpv6(MockIpv6(bytes))
  {
    MockIpv6Groups(bytes, 0);
    ClassifiedByFirstGroup(MockIpv6(bytes), bytes[0], bytes[1]);
  }

  /** The mock does not keep the bytes it is given: from 0xfd, 0x05 it
      builds the group `fd5`, so the address begins 0x0f, 0xd5, and it is
      private all the same. */
  lemma MockShiftsShortGroup(bytes: Ipv6Bytes)
    requires bytes[0] == 0xfd && bytes[1] == 0x05
    ensures MockIpv6(bytes)[0] == 0x0f && MockIpv6(bytes)[1] == 0xd5
    ensures IsPrivateIpv6(MockIpv6(bytes))
  {
    MockIpv6Groups(bytes, 0);
    assert MockGroup(0xfd, 0x05) == 0x0fd5;
  }

  /** Why the test keeps 0x0f out of its public addresses: 0x0f, 0xd0
      builds the group `fd0`, a private one. */
  lemma ZeroFLooksPrivate(bytes: Ipv6Bytes)
    requires bytes[0] == 0x0f && bytes[1] == 0xd0
    ensures IsPrivateIpv6(MockIpv6(bytes))
  {
    MockIpv6Groups(bytes, 0);
    assert MockGroup(0x0f, 0xd0) == 0x0fd0;
  }
}
