/** ICMP echo (layers/L3/icmp/ICMP.cpp). */
module Icmp {
  import opened Bytes
  import opened Checksum
  import opened Protocol
  import Ipv4Format
  import Output
  import Rfc

  const ECHO_REPLY: byte := 0
  const ECHO_REQUEST: byte := 8

  function Datagram(kind: byte, code: byte, rest: seq<byte>, data: seq<byte>, checksum: u16): (s: seq<byte>)
    requires |rest| == 4
    ensures |s| == 8 + |data|
  {
    WithField([kind, code], checksum, rest + data)
  }

  /** The datagram `ICMP::send` builds: the checksum is computed over the datagram with a zero in its
      place. */
  function Checksummed(kind: byte, code: byte, rest: seq<byte>, data: seq<byte>): (s: seq<byte>)
    requires |rest| == 4
    ensures |s| == 8 + |data|
  {
    Datagram(kind, code, rest, data, Sum16(Datagram(kind, code, rest, data, 0)))
  }

  datatype Outcome = Thrown | Ignored | Replied(src: Ipv4, dest: Ipv4, datagram: seq<byte>)

  /** What `ICMP::on_recv` does with a datagram from `src` to `dest`. */
  function Received(buf: seq<byte>, src: Ipv4, dest: Ipv4): Outcome
    requires |buf| >= 8
  {
    if Sum16(buf) != 0 then Thrown
    else if buf[0] == ECHO_REPLY then Ignored
    else if buf[0] == ECHO_REQUEST then Replied(dest, src, Checksummed(ECHO_REPLY, 0, buf[4..8], buf[8..]))
    else Thrown
  }

  class IcmpLayer {
    const l3: Output.L3Layer

    constructor (l3: Output.L3Layer)
      ensures this.l3 == l3
    {
      this.l3 := l3;
    }

    method StoreChecksum(buf: array<byte>, kind: byte, code: byte, rest: seq<byte>, data: seq<byte>)
      requires |rest| == 4 && buf[..] == Datagram(kind, code, rest, data, 0)
      modifies buf
      ensures buf[..] == Checksummed(kind, code, rest, data)
    {
      hide Put16, Sum16;
      var checksum := Checksum16Be(buf[..]);
      ghost var before := buf[..];
      assert before[..2] == [kind, code] && before[4..] == rest + data;
      CopyInto(buf, 2, Put16(checksum));
      assert buf[..4] == before[..2] + Put16(checksum);
      assert buf[4..] == before[4..];
      assert buf[..] == buf[..4] + buf[4..];
    }

    method Build(kind: byte, code: byte, rest: seq<byte>, data: seq<byte>) returns (datagram: seq<byte>)
      requires |rest| == 4
      ensures datagram == Checksummed(kind, code, rest, data)
    {
      hide Put16, Sum16;
      var buf := new byte[8 + |data|];
      CopyInto(buf, 0, [kind, code]);
      CopyInto(buf, 2, Put16(0));
      CopyInto(buf, 4, rest);
      CopyInto(buf, 8, data);
      assert buf[..] == buf[..8 + |data|] == Datagram(kind, code, rest, data, 0);
      StoreChecksum(buf, kind, code, rest, data);
      datagram := buf[..];
    }

    method OnRecv(buf: seq<byte>, src: Ipv4, dest: Ipv4, now: int) returns (r: Outcome)
      requires |buf| >= 8 && l3.arp.context == l3.context
      modifies l3.context
      ensures r == Received(buf, src, dest)
      ensures l3.context.frames == old(l3.context.frames) +
              (if r.Replied?
               then Output.Emitted(l3.context.host, l3.arp.cache, r.src, r.dest, ICMP, r.datagram, now)
               else [])
    {
      var checksum := Checksum16Be(buf);
      if checksum != 0 {
        return Thrown;
      }
      if buf[0] == ECHO_REPLY {
        return Ignored;
      } else if buf[0] == ECHO_REQUEST {
        var datagram := Build(ECHO_REPLY, 0, buf[4..8], buf[8..]);
        l3.Send(dest, src, ICMP, datagram, now);
        return Replied(dest, src, datagram);
      } else {
        return Thrown;
      }
    }
  }

  // ----- the echo

  /** The reply to a verified echo request goes back where the request came from and repeats its
      identifier, sequence number and data; it verifies, and is then ignored by a stack like this
      one, exactly when its fold did not carry. */
  lemma {:induction false} EchoReply(buf: seq<byte>, src: Ipv4, dest: Ipv4)
    requires 8 <= |buf| <= 0x2_0001 && Sum16(buf) == 0 && buf[0] == ECHO_REQUEST
    ensures var r := Received(buf, src, dest);
            var carries := Carries(Datagram(ECHO_REPLY, 0, buf[4..8], buf[8..], 0));
            && r.Replied? && r.src == dest && r.dest == src
            && |r.datagram| == |buf| && r.datagram[4..] == buf[4..]
            && r.datagram[0] == ECHO_REPLY && r.datagram[1] == 0
            && (Sum16(r.datagram) == 0 <==> !carries)
            && Received(r.datagram, dest, src) == if carries then Thrown else Ignored
  {
    hide Sum16, Carries, Put16;
    GenerateThenVerify([ECHO_REPLY, 0], buf[4..8] + buf[8..]);
    var r := Received(buf, src, dest).datagram;
    assert r[0] == ECHO_REPLY && r[1] == 0 && r[4..] == buf[4..8] + buf[8..] == buf[4..];
  }

  /** `on_recv` in the terms of RFC 792: a message that does not sum up, or is neither echo nor echo reply,
      is thrown away; a reply is ignored; and an echo is answered, by an echo reply of code 0 with the same
      identifier, sequence number and data, from the address asked to the asker. */
  lemma {:induction false} ReceivedMeans(buf: seq<byte>, src: Ipv4, dest: Ipv4)
    requires 8 <= |buf| <= 0x2_0001
    ensures var h, r := Rfc.Icmp(buf), Received(buf, src, dest);
            if !Rfc.SumsUp(BeWordSum(buf)) || h.kind !in {0, 8} then r == Thrown
            else if h.kind == 0 then r == Ignored
            else
              && r.Replied? && r.src == dest && r.dest == src && |r.datagram| == |buf|
              && Rfc.Icmp(r.datagram) == h.(kind := 0, code := 0, checksum := Rfc.Icmp(r.datagram).checksum)
              && r.datagram[8..] == buf[8..]
              && (Rfc.SumsUp(BeWordSum(r.datagram))
                  <==> !Carries(Datagram(0, 0, buf[4..8], buf[8..], 0)))
  {
    hide Sum16, Carries, BeWordSum, EndAround;
    VerificationExact(buf);
    if Sum16(buf) == 0 && buf[0] == 8 {
      EchoReply(buf, src, dest);
      var g := Received(buf, src, dest).datagram;
      VerificationExact(g);
      assert forall j :: 4 <= j < |buf| ==> g[j] == g[4..][j - 4] == buf[4..][j - 4] == buf[j];
      assert g[8..] == g[4..][4..] == buf[4..][4..] == buf[8..];
    }
    hide Received;
  }

  /** The carry happens to valid pings: whatever its code, identifier and sequence number, an echo
      request with these six bytes of data and a correct checksum verifies, and the reply to it does
      not. */
  lemma EchoReplyCanFail(code: byte, rest: seq<byte>, src: Ipv4, dest: Ipv4)
    requires |rest| == 4
    ensures var data := Filler(WordSum(rest));
            var request := Checksummed(ECHO_REQUEST, code, rest, data);
            var r := Received(request, src, dest);
            && Sum16(request) == 0 && Get16(request, 2) == Rfc1071(Datagram(ECHO_REQUEST, code, rest, data, 0))
            && r.Replied? && Sum16(r.datagram) != 0 && Received(r.datagram, dest, src) == Thrown
  {
    hide *;
    var data := Filler(WordSum(rest));
    FilledPing(code, rest);
    RequestVerifies(code, rest, data);
    EchoReply(Checksummed(ECHO_REQUEST, code, rest, data), src, dest);
  }

  /** A request whose fold does not carry is the one a correct sender builds. */
  lemma RequestVerifies(code: byte, rest: seq<byte>, data: seq<byte>)
    requires |rest| == 4 && |data| <= 0xffff && !Carries(Datagram(ECHO_REQUEST, code, rest, data, 0))
    ensures var request := Checksummed(ECHO_REQUEST, code, rest, data);
            && Sum16(request) == 0 && request[0] == ECHO_REQUEST && request[4..8] == rest && request[8..] == data
            && Get16(request, 2) == Rfc1071(Datagram(ECHO_REQUEST, code, rest, data, 0))
  {
    var zeroed := Datagram(ECHO_REQUEST, code, rest, data, 0);
    var request := Checksummed(ECHO_REQUEST, code, rest, data);
    hide Sum16, Carries, Rfc1071, Put16, Get16;
    GenerateThenVerify([ECHO_REQUEST, code], rest + data);
    GenerationExact(zeroed);
    assert request[2..4] == Put16(Sum16(zeroed));
    FieldReads(request, 2, Put16(Sum16(zeroed)));
    RoundTrip16(Sum16(zeroed), request, 2);
  }

  /** The fold of the request does not carry, and that of the reply does. */
  lemma FilledPing(code: byte, rest: seq<byte>)
    requires |rest| == 4
    ensures var data := Filler(WordSum(rest));
            && !Carries(Datagram(ECHO_REQUEST, code, rest, data, 0))
            && Carries(Datagram(ECHO_REPLY, 0, rest, data, 0))
  {
    assert ECHO_REQUEST == 8 && ECHO_REPLY == 0;
    hide *;
    var data := Filler(WordSum(rest));
    FilledCarries(rest);
    WordSumBound(rest);
    SumOfDatagram(ECHO_REQUEST, code, rest, data);
    SumOfDatagram(ECHO_REPLY, 0, rest, data);
    CarriesByValue(Datagram(ECHO_REQUEST, code, rest, data, 0), WordSum(rest) / 0x1_0000 + 2, 7 + 0x100 * code as int);
    CarriesByValue(Datagram(ECHO_REPLY, 0, rest, data, 0), WordSum(rest) / 0x1_0000 + 1, 0xffff);
  }

  lemma SumOfDatagram(kind: byte, code: byte, rest: seq<byte>, data: seq<byte>)
    requires |rest| == 4
    ensures WordSum(Datagram(kind, code, rest, data, 0)) == kind + 0x100 * code as int + WordSum(rest + data)
  {
    var s := Datagram(kind, code, rest, data, 0);
    assert s[2..][2..] == rest + data;
    assert WordSum(s) == s[0] + 0x100 * s[1] + WordSum(s[2..]);
    assert WordSum(s[2..]) == s[2] + 0x100 * s[3] + WordSum(s[2..][2..]);
  }

  lemma CarriesByValue(s: seq<byte>, high: u16, low: u16)
    requires WordSum(s) == 0x1_0000 * high as int + low
    ensures Carries(s) <==> high as int + low >= 0x1_0000
  {
    hide WordSum;
    Halves(high, low);
  }

  lemma Halves(high: u16, low: u16)
    ensures var n := Wrap32(0x1_0000 * high as int + low); n / 0x1_0000 == high && n % 0x1_0000 == low
  {
  }

  /** A ping, end to end.  If the IP header of a verified echo request carries, the packet is thrown
      away.  Otherwise it reaches ICMP on the other side, the reply packet reaches ICMP here, and the
      reply is accepted exactly when its own fold does not carry. */
  lemma PingEndToEnd(client: Ipv4, server: Ipv4, request: seq<byte>)
    requires 8 <= |request| <= 0x2_0001 && Sum16(request) == 0 && request[0] == ECHO_REQUEST
    ensures var reply := Checksummed(ECHO_REPLY, 0, request[4..8], request[8..]);
            var there := Ipv4Format.Received(Ipv4Format.Packet(client, server, ICMP, request));
            var back := Ipv4Format.Received(Ipv4Format.Packet(server, client, ICMP, reply));
            && Received(request, client, server) == Replied(server, client, reply)
            && (Received(reply, server, client) ==
                if Carries(Datagram(ECHO_REPLY, 0, request[4..8], request[8..], 0)) then Thrown else Ignored)
            && if Carries(Ipv4Format.ZeroedHeader(client, server, ICMP, |request|))
               then there == back == Ipv4Format.Thrown
               else there == Ipv4Format.ToIcmp(request, client, server)
                    && back == Ipv4Format.ToIcmp(reply, server, client)
  {
    var reply := Checksummed(ECHO_REPLY, 0, request[4..8], request[8..]);
    hide Sum16, Carries, Checksummed, Datagram, Ipv4Format.Received, Ipv4Format.Packet;
    EchoReply(request, client, server);
    Ipv4Format.ReplyHeaderCarriesAlike(client, server, ICMP, |request|);
    Ipv4Format.SendReceive(client, server, ICMP, request);
    Ipv4Format.SendReceive(server, client, ICMP, reply);
  }

  /** The ones' complement sum of everything after the checksum field. */
  function RestSum(buf: seq<byte>): nat
    requires |buf| >= 8
  {
    BeWordSum(buf[4..])
  }

  /** Incremental update (section 3 of RFC 1624): changing type and code, the word m, to zero takes the
      checksum HC to ~(~HC + ~m + 0). */
  function Updated(checksum: u16, m: u16): u16 {
    0xffff - EndAround((0xffff - checksum) + (0xffff - m))
  }

  lemma BeSumOfDatagram(kind: byte, code: byte, checksum: u16, after: seq<byte>)
    ensures BeWordSum(WithField([kind, code], checksum, after))
            == 0x100 * kind as int + code + checksum + BeWordSum(after)
  {
    var s := WithField([kind, code], checksum, after);
    assert s[2..][2..] == after;
    assert BeWordSum(s) == 0x100 * s[0] as int + s[1] + BeWordSum(s[2..]);
    assert BeWordSum(s[2..]) == 0x100 * s[2] as int + s[3] + BeWordSum(after);
  }

  /** When the fold does not carry, the freshly computed checksum of the reply is congruent to the
      request's plus the word dropped, and it is the incremental update of it exactly when
      identifier, sequence number and data are not all zero. */
  lemma EchoChecksumIsIncremental(buf: seq<byte>)
    requires 8 <= |buf| <= 0x2_0001 && Sum16(buf) == 0 && buf[0] == ECHO_REQUEST
    requires !Carries(Datagram(ECHO_REPLY, 0, buf[4..8], buf[8..], 0))
    ensures var reply := Checksummed(ECHO_REPLY, 0, buf[4..8], buf[8..]);
            var m: u16 := 0x100 * ECHO_REQUEST as int + buf[1];
            && Get16(reply, 2) % 0xffff == (Get16(buf, 2) + m) % 0xffff
            && (Get16(reply, 2) == Updated(Get16(buf, 2), m) <==> RestSum(buf) > 0)
  {
    var zeroed := Datagram(ECHO_REPLY, 0, buf[4..8], buf[8..], 0);
    var hc, code, sum := Get16(buf, 2), buf[1], RestSum(buf);
    assert Put16(hc) == buf[2..4];
    assert buf[4..8] + buf[8..] == buf[4..];
    assert buf == WithField([ECHO_REQUEST, code], hc, buf[4..]);
    hide Sum16, Carries, EndAround, BeWordSum, Put16, Get16;
    BeSumOfDatagram(ECHO_REQUEST, code, hc, buf[4..]);
    BeSumOfDatagram(ECHO_REPLY, 0, 0, buf[4..]);
    VerificationExact(buf);
    GenerationExact(zeroed);
    var reply := Checksummed(ECHO_REPLY, 0, buf[4..8], buf[8..]);
    assert reply[2..4] == Put16(Sum16(zeroed));
    FieldReads(reply, 2, Put16(Sum16(zeroed)));
    RoundTrip16(Sum16(zeroed), reply, 2);
    UpdateOf(hc, 0x800 + code as int, sum);
  }

  lemma UpdateOf(hc: u16, m: u16, sum: nat)
    requires 0 < m < 0xffff && EndAround(m + hc + sum) == 0xffff
    ensures (0xffff - EndAround(sum)) % 0xffff == (hc + m) % 0xffff
    ensures 0xffff - EndAround(sum) == Updated(hc, m) <==> sum > 0
  {
    hide EndAround;
    var d := 0xffff - hc + (0xffff - m);
    EndAroundResidue(m + hc + sum);
    EndAroundResidue(sum);
    EndAroundResidue(d);
    Complements(hc + m, sum, EndAround(sum));
    ResidueShift(-(hc + m), 2);
    if sum > 0 {
      ResidueDetermines(EndAround(sum), EndAround(d));
    }
  }

  lemma Complements(a: nat, b: nat, e: u16)
    requires (a + b) % 0xffff == 0 && e % 0xffff == b % 0xffff
    ensures (0 - a) % 0xffff == b % 0xffff
    ensures (0xffff - e) % 0xffff == a % 0xffff
  {
    var k, j := (a + b) / 0xffff, e / 0xffff - b / 0xffff;
    ResidueShift(0 - a, k);
    ResidueShift(a, 1 - j - k);
    assert 0xffff - e == a + 0xffff * (1 - j - k);
  }
}
