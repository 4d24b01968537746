/** The headers as the RFCs draw them, octet by octet and most significant octet first, and the sums they
    ask for: a reader's view, made without the layouts the stack reads and writes with. */
module Rfc {
  import opened Bytes
  import opened Checksum

  /** Two and four octets in network order. */
  function Two(s: seq<byte>, at: nat): u16
    requires at + 2 <= |s|
  {
    0x100 * s[at] as int + s[at + 1]
  }

  function Four(s: seq<byte>, at: nat): u32
    requires at + 4 <= |s|
  {
    0x100_0000 * s[at] as int + 0x1_0000 * s[at + 1] as int + 0x100 * s[at + 2] as int + s[at + 3]
  }

  lemma FieldsAgree(s: seq<byte>, at: nat)
    ensures at + 2 <= |s| ==> Get16(s, at) == Two(s, at)
    ensures at + 4 <= |s| ==> Get32(s, at) == Four(s, at)
  {
  }

  /** Section 1 of RFC 1071: the sum that is right leaves all ones. */
  predicate SumsUp(sum: nat) {
    EndAround(sum) == 0xffff
  }

  /** Section 3.1 of RFC 791; `fragment` is the flags and the fragment offset. */
  datatype IpHeader = IpHeader(
    version: nat, headerLength: nat, service: byte, totalLength: u16, identification: u16, fragment: u16,
    ttl: byte, protocol: byte, source: u32, destination: u32)

  function Ip(s: seq<byte>): IpHeader
    requires |s| >= 20
  {
    IpHeader(s[0] / 16, s[0] % 16, s[1], Two(s, 2), Two(s, 4), Two(s, 6), s[8], s[9], Four(s, 12), Four(s, 16))
  }

  /** RFC 792: echo and echo reply. */
  datatype IcmpHeader = IcmpHeader(kind: byte, code: byte, checksum: u16, identifier: u16, sequence: u16)

  function Icmp(s: seq<byte>): IcmpHeader
    requires |s| >= 8
  {
    IcmpHeader(s[0], s[1], Two(s, 2), Two(s, 4), Two(s, 6))
  }

  /** RFC 768. */
  datatype UdpHeader = UdpHeader(source: u16, destination: u16, length: u16, checksum: u16)

  function Udp(s: seq<byte>): UdpHeader
    requires |s| >= 8
  {
    UdpHeader(Two(s, 0), Two(s, 2), Two(s, 4), Two(s, 6))
  }

  /** Section 3.1 of RFC 793; `offset` counts words of 32 bits. */
  datatype TcpHeader = TcpHeader(
    source: u16, destination: u16, sequence: u32, acknowledgment: u32, offset: nat,
    urg: bool, ack: bool, psh: bool, rst: bool, syn: bool, fin: bool, window: u16, checksum: u16, urgent: u16)

  function Tcp(s: seq<byte>): TcpHeader
    requires |s| >= 20
  {
    TcpHeader(Two(s, 0), Two(s, 2), Four(s, 4), Four(s, 8), s[12] / 16,
              s[13] / 32 % 2 == 1, s[13] / 16 % 2 == 1, s[13] / 8 % 2 == 1, s[13] / 4 % 2 == 1,
              s[13] / 2 % 2 == 1, s[13] % 2 == 1, Two(s, 14), Two(s, 16), Two(s, 18))
  }

  /** The sum of RFC 768 and section 3.1 of RFC 793 over the pseudo header, that is, the halves of both
      addresses, the protocol and the length, and over the segment. */
  function TransportSum(source: u32, destination: u32, protocol: byte, segment: seq<byte>): nat {
    source / 0x1_0000 + source % 0x1_0000 + destination / 0x1_0000 + destination % 0x1_0000
    + protocol + |segment| + BeWordSum(segment)
  }

  /** RFC 826, for Ethernet and IPv4. */
  datatype ArpPacket = ArpPacket(
    hardware: u16, protocol: u16, hardwareLength: byte, protocolLength: byte, operation: u16,
    senderMac: seq<byte>, senderIp: u32, targetMac: seq<byte>, targetIp: u32)

  function Arp(s: seq<byte>): ArpPacket
    requires |s| >= 28
  {
    ArpPacket(Two(s, 0), Two(s, 2), s[4], s[5], Two(s, 6), s[8..14], Four(s, 14), s[18..24], Four(s, 24))
  }

  // ----- octets that differ in letter case

  /** Equal, or the two cases of one ASCII letter (section 2.3.3 of RFC 1035). */
  predicate SameLetter(a: byte, b: byte) {
    a == b || (a == b + 32 && 97 <= a <= 122) || (b == a + 32 && 97 <= b <= 122)
  }

  predicate SameText(s: seq<byte>, r: seq<byte>) {
    |s| == |r| && forall i :: 0 <= i < |s| ==> SameLetter(s[i], r[i])
  }

  predicate NoCapitals(s: seq<byte>) {
    forall i :: 0 <= i < |s| ==> !(65 <= s[i] <= 90)
  }

  predicate NoSmallLetters(s: seq<byte>) {
    forall i :: 0 <= i < |s| ==> !(97 <= s[i] <= 122)
  }
}
