/** The protocol numbers of layers/L3/L3.h:14-16 this model uses. */
module Protocol {
  import opened Bytes

  const ICMP: byte := 1
  const TCP: byte := 6
  const UDP: byte := 17
}

/** IPv4 packets as layers/L3/L3.cpp builds and accepts them: a fixed 20-byte header, no options. */
module Ipv4Format {
  import opened Bytes
  import opened Checksum
  import opened Protocol
  import Rfc

  /** The ten octets before the header checksum; the total length is kept in 16 bits. */
  function Leading(protocol: byte, size: nat): (s: seq<byte>)
    ensures |s| == 10
  {
    [4 * 16 + 5, 0] + Put16((20 + size) % 0x1_0000) + [0, 0, 0, 0, 64, protocol]
  }

  function Header(src: Ipv4, target: Ipv4, protocol: byte, size: nat, checksum: u16): (s: seq<byte>)
    ensures |s| == 20
  {
    WithField(Leading(protocol, size), checksum, Put32(src) + Put32(target))
  }

  function ZeroedHeader(src: Ipv4, target: Ipv4, protocol: byte, size: nat): (s: seq<byte>)
    ensures |s| == 20
  {
    Header(src, target, protocol, size, 0)
  }

  /** The packet `L3::send` builds. */
  function Packet(src: Ipv4, target: Ipv4, protocol: byte, payload: seq<byte>): (s: seq<byte>)
    ensures |s| == 20 + |payload|
  {
    Header(src, target, protocol, |payload|, Sum16(ZeroedHeader(src, target, protocol, |payload|))) + payload
  }

  /** What `L3::on_recv` does with a packet: throw, or hand the payload to ICMP or to layer 4. */
  datatype Upward =
    | Thrown
    | ToIcmp(payload: seq<byte>, src: Ipv4, dest: Ipv4)
    | ToL4(payload: seq<byte>, src: Ipv4, dest: Ipv4, protocol: byte)

  function Dispatched(payload: seq<byte>, src: Ipv4, dest: Ipv4, protocol: byte): Upward {
    if protocol == ICMP then ToIcmp(payload, src, dest) else ToL4(payload, src, dest, protocol)
  }

  /** `L3::on_recv`; it reads the header without checking that it is all there. */
  method OnRecv(buf: seq<byte>) returns (r: Upward)
    requires |buf| >= 20
    ensures r == Received(buf)
  {
    if buf[0] / 16 != 4 {
      return Thrown;
    }
    if buf[0] % 16 * 4 != 20 {
      return Thrown;
    }
    var checksum := Checksum16Be(buf[..20]);
    if checksum != 0 {
      return Thrown;
    }
    var payload := buf[buf[0] % 16 * 4..];
    if buf[9] == ICMP {
      return ToIcmp(payload, Get32(buf, 12), Get32(buf, 16));
    } else {
      return ToL4(payload, Get32(buf, 12), Get32(buf, 16), buf[9]);
    }
  }

  function Received(buf: seq<byte>): Upward
    requires |buf| >= 20
  {
    if buf[0] == 0x45 && Sum16(buf[..20]) == 0
    then Dispatched(buf[20..], Get32(buf, 12), Get32(buf, 16), buf[9])
    else Thrown
  }

  /** A packet that was sent is received with the same source, destination, protocol and payload if
      the fold of its header did not carry, and otherwise it is thrown away. */
  lemma {:induction false} SendReceive(src: Ipv4, target: Ipv4, protocol: byte, payload: seq<byte>)
    ensures Received(Packet(src, target, protocol, payload)) ==
            if Carries(ZeroedHeader(src, target, protocol, |payload|)) then Thrown
            else Dispatched(payload, src, target, protocol)
  {
    var c := Sum16(ZeroedHeader(src, target, protocol, |payload|));
    var leading, addresses := Leading(protocol, |payload|), Put32(src) + Put32(target);
    var packet := Packet(src, target, protocol, payload);
    assert leading[0] == 0x45 && leading[9] == protocol;
    GenerateThenVerify(leading, addresses);
    hide Put32, Put16, Sum16, Carries, Get32, Leading;
    assert packet[..20] == Header(src, target, protocol, |payload|, c);
    assert packet[20..] == payload;
    assert packet[0] == leading[0] && packet[9] == leading[9];
    assert packet[12..16] == Put32(src) && packet[16..20] == Put32(target);
    FieldReads(packet, 12, Put32(src));
    FieldReads(packet, 16, Put32(target));
    RoundTrip32(src, packet, 0);
    RoundTrip32(target, packet, 0);
  }

  /** `on_recv` in the terms of RFC 791: version 4, five words of header and a header that sums up, and then
      the payload goes up with the addresses and the protocol the header names. */
  lemma ReceivedMeans(buf: seq<byte>)
    requires |buf| >= 20
    ensures var h := Rfc.Ip(buf);
            Received(buf) ==
            if h.version == 4 && h.headerLength == 5 && Rfc.SumsUp(BeWordSum(buf[..20])) then
              if h.protocol == 1 then ToIcmp(buf[20..], h.source, h.destination)
              else ToL4(buf[20..], h.source, h.destination, h.protocol)
            else Thrown
  {
    hide Sum16, Get32, BeWordSum, EndAround, Rfc.Four, Rfc.Two;
    VerificationExact(buf[..20]);
    Rfc.FieldsAgree(buf, 12);
    Rfc.FieldsAgree(buf, 16);
  }

  /** What RFC 791 says of a packet sent: no options, service, identification or fragmentation, the length
      modulo 2^16, TTL 64, and a header that sums up exactly when its fold did not carry. */
  lemma PacketReads(src: Ipv4, target: Ipv4, protocol: byte, payload: seq<byte>)
    ensures var s := Packet(src, target, protocol, payload);
            && Rfc.Ip(s) == Rfc.IpHeader(4, 5, 0, (20 + |payload|) % 0x1_0000, 0, 0, 64, protocol, src, target)
            && s[20..] == payload
            && (Rfc.SumsUp(BeWordSum(s[..20])) <==> !Carries(ZeroedHeader(src, target, protocol, |payload|)))
  {
    var s := Packet(src, target, protocol, payload);
    LengthField(src, target, protocol, payload);
    LeadingOctets(src, target, protocol, payload);
    GenerateThenVerify(Leading(protocol, |payload|), Put32(src) + Put32(target));
    hide Sum16, Carries, Get16, Get32, Put16, Put32, BeWordSum, EndAround, Leading, Rfc.Four;
    assert s[..20] == Header(src, target, protocol, |payload|, Sum16(ZeroedHeader(src, target, protocol, |payload|)));
    assert s[20..] == payload;
    assert s[12..16] == Put32(src) && s[16..20] == Put32(target);
    VerificationExact(s[..20]);
    Rfc.FieldsAgree(s, 2);
    Rfc.FieldsAgree(s, 12);
    Rfc.FieldsAgree(s, 16);
    FieldReads(s, 12, Put32(src));
    FieldReads(s, 16, Put32(target));
    RoundTrip32(src, s, 0);
    RoundTrip32(target, s, 0);
  }

  lemma LeadingOctets(src: Ipv4, target: Ipv4, protocol: byte, payload: seq<byte>)
    ensures var s := Packet(src, target, protocol, payload);
            && s[0] == 0x45 && s[1] == s[4] == s[5] == s[6] == s[7] == 0 && s[8] == 64 && s[9] == protocol
  {
    var s, leading := Packet(src, target, protocol, payload), Leading(protocol, |payload|);
    hide Put16, Put32, Sum16;
    assert leading[0] == 0x45 && leading[1] == leading[4] == leading[5] == leading[6] == leading[7] == 0;
    assert leading[8] == 64 && leading[9] == protocol;
    hide Leading;
    assert s[..10] == leading;
    assert forall j :: 0 <= j < 10 ==> s[j] == s[..10][j];
  }

  /** The header tells the length of the packet as long as 16 bits can hold it. */
  lemma LengthField(src: Ipv4, target: Ipv4, protocol: byte, payload: seq<byte>)
    ensures var packet := Packet(src, target, protocol, payload);
            Get16(packet, 2) == |packet| % 0x1_0000 && packet[8] == 64
  {
    var packet, length := Packet(src, target, protocol, payload), (20 + |payload|) % 0x1_0000;
    hide Put16, Get16, Put32, Sum16;
    assert Leading(protocol, |payload|)[2..4] == Put16(length);
    assert packet[..10] == Leading(protocol, |payload|);
    assert packet[2..4] == packet[..10][2..4];
    FieldReads(packet, 2, Put16(length));
    RoundTrip16(length, packet, 0);
  }

  /** Exchanging the addresses, as every reply does, keeps the sum of the header. */
  lemma {:induction false} ReplyHeaderCarriesAlike(src: Ipv4, target: Ipv4, protocol: byte, size: nat)
    ensures Carries(ZeroedHeader(src, target, protocol, size)) <==> Carries(ZeroedHeader(target, src, protocol, size))
  {
    hide WordSum, Put32, Put16, Leading;
    HeaderSum(src, target, protocol, size);
    HeaderSum(target, src, protocol, size);
  }

  lemma HeaderSum(src: Ipv4, target: Ipv4, protocol: byte, size: nat)
    ensures WordSum(ZeroedHeader(src, target, protocol, size)) ==
            WordSum(Leading(protocol, size) + Put16(0)) + WordSum(Put32(src)) + WordSum(Put32(target))
  {
    hide WordSum, Put32, Put16, Leading;
    WordSumConcat(Leading(protocol, size) + Put16(0), Put32(src) + Put32(target));
    WordSumConcat(Put32(src), Put32(target));
  }

  /** The carry does happen: whatever its eight bytes, a UDP datagram without data, such as the echo
      of an empty one, sent from 10.0.0.1 to 169.254.199.210 is refused by the stack that sends it. */
  lemma SendReceiveCanFail(datagram: seq<byte>)
    requires |datagram| == 8
    ensures Received(Packet(0x0a00_0001, 0xa9fe_c7d2, UDP, datagram)) == Thrown
  {
    hide *;
    CarryingHeader();
    SendReceive(0x0a00_0001, 0xa9fe_c7d2, UDP, datagram);
    CarriesAt(ZeroedHeader(0x0a00_0001, 0xa9fe_c7d2, UDP, 8));
  }

  lemma CarryingHeader()
    ensures WordSum(ZeroedHeader(0x0a00_0001, 0xa9fe_c7d2, UDP, 8)) == 0x1_ffff
  {
    var first: seq<byte> := [0x45, 0, 0, 28, 0, 0, 0, 0, 64, 17];
    assert Leading(UDP, 8) == first;
    hide *;
    Words10(first);
    WordSumConcat(first, Put16(0));
    WordAt(0, 0, 0);
    AddressSum(0x0a00_0001, 10, 0, 0, 1);
    AddressSum(0xa9fe_c7d2, 169, 254, 199, 210);
    HeaderSum(0x0a00_0001, 0xa9fe_c7d2, UDP, 8);
  }

  lemma WordAt(c: u16, first: byte, second: byte)
    requires c == 0x100 * first as int + second
    ensures WordSum(Put16(c)) == first + 0x100 * second as int
  {
    hide WordSum, Put16, Swap;
    WordOf(c);
    SwapOctets(first, second);
  }

  lemma AddressSum(v: u32, a: byte, b: byte, c: byte, d: byte)
    requires v == 0x1_0000 * (0x100 * a as int + b) + (0x100 * c as int + d)
    ensures WordSum(Put32(v)) == a + 0x100 * b as int + (c + 0x100 * d as int)
  {
    hide WordSum, Put16;
    WordSumConcat(Put16(v / 0x1_0000), Put16(v % 0x1_0000));
    WordAt(v / 0x1_0000, a, b);
    WordAt(v % 0x1_0000, c, d);
  }

  lemma CarriesAt(s: seq<byte>)
    requires WordSum(s) == 0x1_ffff
    ensures Carries(s)
  {
  }

  lemma Words10(s: seq<byte>)
    requires |s| == 10
    ensures WordSum(s) == s[0] as int + s[2] + s[4] + s[6] + s[8]
                          + 0x100 * (s[1] as int + s[3] + s[5] + s[7] + s[9])
  {
    assert s[8..][2..] == [] && s[6..][2..] == s[8..] && s[4..][2..] == s[6..] && s[2..][2..] == s[4..];
    assert WordSum(s[8..]) == s[8] + 0x100 * (s[9] as int);
    assert WordSum(s[6..]) == s[6] + 0x100 * (s[7] as int) + WordSum(s[8..]);
    assert WordSum(s[4..]) == s[4] + 0x100 * (s[5] as int) + WordSum(s[6..]);
    assert WordSum(s[2..]) == s[2] + 0x100 * (s[3] as int) + WordSum(s[4..]);
  }
}
