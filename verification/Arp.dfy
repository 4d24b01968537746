/** The ARP cache of layers/L2/arp/ARP.cpp. */
module Arp {
  import opened Bytes
  import opened Options
  import opened Link
  import opened Subnet
  import Rfc

  const ARP_CACHE_TTL := 120
  const REQUEST: u16 := 1
  const RESPONSE: u16 := 2

  datatype Entry = Entry(address: Mac, lastUpdate: int)

  type Cache = map<Ipv4, Entry>

  // ----- payloads

  function Payload(opcode: u16, senderMac: Mac, senderIp: Ipv4, targetMac: Mac, targetIp: Ipv4): (s: seq<byte>)
    ensures |s| == 28
  {
    Leading(opcode) + senderMac + Put32(senderIp) + targetMac + Put32(targetIp)
  }

  /** Ethernet and IPv4, the lengths of their addresses, and the operation. */
  function Leading(opcode: u16): (s: seq<byte>)
    ensures |s| == 8
  {
    Put16(1) + Put16(0x0800) + [6, 4] + Put16(opcode)
  }

  /** The assertions `on_recv` makes; longer payloads are padded frames. */
  predicate WellFormed(buf: seq<byte>) {
    |buf| >= 28 && Get16(buf, 0) == 1 && Get16(buf, 2) == 0x0800 && buf[4] == 6 && buf[5] == 4
  }

  function Opcode(buf: seq<byte>): u16 requires WellFormed(buf) { Get16(buf, 6) }

  function SenderMac(buf: seq<byte>): Mac requires WellFormed(buf) { buf[8..14] }

  function SenderIp(buf: seq<byte>): Ipv4 requires WellFormed(buf) { Get32(buf, 14) }

  function TargetIp(buf: seq<byte>): Ipv4 requires WellFormed(buf) { Get32(buf, 24) }

  lemma PayloadFields(opcode: u16, senderMac: Mac, senderIp: Ipv4, targetMac: Mac, targetIp: Ipv4)
    ensures var s := Payload(opcode, senderMac, senderIp, targetMac, targetIp);
            && WellFormed(s) && Opcode(s) == opcode
            && SenderMac(s) == senderMac && SenderIp(s) == senderIp && TargetIp(s) == targetIp
  {
    var s := Payload(opcode, senderMac, senderIp, targetMac, targetIp);
    var leading := Leading(opcode);
    hide Put16, Put32, Get16, Get32;
    assert leading[0..2] == Put16(1) && leading[2..4] == Put16(0x0800) && leading[6..8] == Put16(opcode);
    assert leading[4] == 6 && leading[5] == 4;
    hide Leading;
    assert s[..8] == leading;
    assert s[0..2] == s[..8][0..2] && s[2..4] == s[..8][2..4] && s[6..8] == s[..8][6..8];
    assert s[4] == s[..8][4] && s[5] == s[..8][5];
    assert s[8..14] == senderMac;
    assert s[14..18] == Put32(senderIp);
    assert s[24..28] == Put32(targetIp);
    FieldReads(s, 0, Put16(1));
    FieldReads(s, 2, Put16(0x0800));
    FieldReads(s, 6, Put16(opcode));
    FieldReads(s, 14, Put32(senderIp));
    FieldReads(s, 24, Put32(targetIp));
    RoundTrip16(1, s, 0);
    RoundTrip16(0x0800, s, 0);
    RoundTrip16(opcode, s, 0);
    RoundTrip32(senderIp, s, 0);
    RoundTrip32(targetIp, s, 0);
  }

  /** A payload of RFC 826 for Ethernet and IPv4. */
  predicate IsArp(buf: seq<byte>, operation: u16) {
    |buf| >= 28
    && var r := Rfc.Arp(buf);
       r.hardware == 1 && r.protocol == 0x0800 && r.hardwareLength == 6 && r.protocolLength == 4
       && r.operation == operation
  }

  /** What `on_recv` accepts and reads is what RFC 826 says is there. */
  lemma FieldsMean(buf: seq<byte>)
    ensures WellFormed(buf) <==> |buf| >= 28 && IsArp(buf, Rfc.Arp(buf).operation)
    ensures WellFormed(buf) ==>
              var r := Rfc.Arp(buf);
              && Opcode(buf) == r.operation && SenderMac(buf) == r.senderMac && SenderIp(buf) == r.senderIp
              && TargetIp(buf) == r.targetIp
  {
    hide Get16, Get32, Rfc.Two, Rfc.Four;
    Rfc.FieldsAgree(buf, 0);
    Rfc.FieldsAgree(buf, 2);
    Rfc.FieldsAgree(buf, 6);
    Rfc.FieldsAgree(buf, 14);
    Rfc.FieldsAgree(buf, 24);
  }

  /** And what is built is what RFC 826 asks for. */
  lemma PayloadReads(opcode: u16, senderMac: Mac, senderIp: Ipv4, targetMac: Mac, targetIp: Ipv4)
    ensures Rfc.Arp(Payload(opcode, senderMac, senderIp, targetMac, targetIp)) ==
            Rfc.ArpPacket(1, 0x0800, 6, 4, opcode, senderMac, senderIp, targetMac, targetIp)
  {
    var s := Payload(opcode, senderMac, senderIp, targetMac, targetIp);
    PayloadFields(opcode, senderMac, senderIp, targetMac, targetIp);
    FieldsMean(s);
    hide Put16, Put32, Leading, WellFormed, Opcode, SenderMac, SenderIp, TargetIp;
    assert s[18..24] == targetMac;
  }

  /** The broadcast that asks for an address: sender is the network address, at the own hardware
      address. */
  predicate Asks(f: Frame, host: Host, addr: Ipv4) {
    var everyone := [0xff, 0xff, 0xff, 0xff, 0xff, 0xff];
    && f.dest == everyone && f.etherType == 0x0806 && |f.payload| == 28
    && Rfc.Arp(f.payload) == Rfc.ArpPacket(1, 0x0800, 6, 4, 1, host.mac, host.network, everyone, addr)
  }

  lemma AskMeans(host: Host, addr: Ipv4)
    ensures Asks(Ask(host, addr), host, addr)
  {
    hide Payload, Rfc.Arp;
    PayloadReads(REQUEST, host.mac, host.network, BROADCAST, addr);
  }

  /** A payload is answered exactly if it is a request for an address of the subnet; the answer goes to
      its sender, and says that the address asked for is at the own hardware address. */
  lemma AnswersMean(host: Host, buf: seq<byte>)
    ensures if IsArp(buf, 1) && OnSubnet(host, Rfc.Arp(buf).targetIp) then
              var r, frames := Rfc.Arp(buf), Answers(host, buf);
              && |frames| == 1 && frames[0].dest == r.senderMac && frames[0].etherType == 0x0806
              && |frames[0].payload| == 28
              && Rfc.Arp(frames[0].payload) ==
                 Rfc.ArpPacket(1, 0x0800, 6, 4, 2, host.mac, r.targetIp, r.senderMac, r.senderIp)
            else Answers(host, buf) == []
  {
    FieldsMean(buf);
    if IsRequestFor(buf, host) {
      PayloadReads(RESPONSE, host.mac, TargetIp(buf), SenderMac(buf), SenderIp(buf));
    }
    if WellFormed(buf) {
      ContainsMeans(host, TargetIp(buf));
    }
    hide WellFormed, Opcode, SenderMac, SenderIp, TargetIp, Payload, Contains, OnSubnet, Rfc.Arp;
  }

  // ----- the two operations, as steps on the cache

  predicate IsRequestFor(buf: seq<byte>, host: Host) {
    WellFormed(buf) && Opcode(buf) == REQUEST && Contains(host, TargetIp(buf))
  }

  /** A response of RFC 826 that names `addr` as its sender. */
  predicate IsResponseOf(buf: seq<byte>, addr: Ipv4) {
    IsArp(buf, 2) && Rfc.Arp(buf).senderIp == addr
  }

  function Learn(cache: Cache, buf: seq<byte>, now: int): Cache {
    if WellFormed(buf) && Opcode(buf) == RESPONSE
    then cache[SenderIp(buf) := Entry(SenderMac(buf), now)] else cache
  }

  /** Every address of the subnet is answered for. */
  function Answers(host: Host, buf: seq<byte>): seq<Frame> {
    if IsRequestFor(buf, host)
    then [Frame(Payload(RESPONSE, host.mac, TargetIp(buf), SenderMac(buf), SenderIp(buf)),
                SenderMac(buf), ETHERTYPE_ARP)]
    else []
  }

  function Resolve(cache: Cache, addr: Ipv4, now: int): Option<Mac> {
    if addr in cache && now <= cache[addr].lastUpdate + ARP_CACHE_TTL then Some(cache[addr].address) else None
  }

  /** The request names the network address as its sender. */
  function Ask(host: Host, addr: Ipv4): Frame {
    Frame(Payload(REQUEST, host.mac, host.network, BROADCAST, addr), BROADCAST, ETHERTYPE_ARP)
  }

  // ----- the layer

  class ArpLayer {
    const context: Context
    var cache: Cache

    constructor (context: Context)
      ensures this.context == context && cache == map[]
    {
      this.context := context;
      cache := map[];
    }

    method SendResponse(senderMac: Mac, senderIp: Ipv4, targetMac: Mac, targetIp: Ipv4)
      modifies context
      ensures context.frames == old(context.frames)
                + [Frame(Payload(RESPONSE, senderMac, senderIp, targetMac, targetIp), targetMac, ETHERTYPE_ARP)]
    {
      context.L2Send(Payload(RESPONSE, senderMac, senderIp, targetMac, targetIp), targetMac, ETHERTYPE_ARP);
    }

    method SendRequest(senderMac: Mac, senderIp: Ipv4, targetMac: Mac, targetIp: Ipv4)
      modifies context
      ensures context.frames == old(context.frames)
                + [Frame(Payload(REQUEST, senderMac, senderIp, targetMac, targetIp), targetMac, ETHERTYPE_ARP)]
    {
      context.L2Send(Payload(REQUEST, senderMac, senderIp, targetMac, targetIp), targetMac, ETHERTYPE_ARP);
    }

    /** Throws, and then does nothing else, exactly when the payload is malformed. */
    method OnRecv(buf: seq<byte>, now: int) returns (thrown: bool)
      modifies this, context
      ensures thrown <==> !WellFormed(buf)
      ensures cache == Learn(old(cache), buf, now)
      ensures context.frames == old(context.frames) + Answers(context.host, buf)
    {
      if !(|buf| >= 28) {
        return true;
      }
      if !(Get16(buf, 0) == 1 && Get16(buf, 2) == 0x0800 && buf[4] == 6 && buf[5] == 4) {
        return true;
      }
      if Opcode(buf) == REQUEST {
        if Contains(context.host, TargetIp(buf)) {
          SendResponse(context.host.mac, TargetIp(buf), SenderMac(buf), SenderIp(buf));
        }
      } else if Opcode(buf) == RESPONSE {
        cache := cache[SenderIp(buf) := Entry(SenderMac(buf), now)];
      }
      return false;
    }

    method Lookup(addr: Ipv4, now: int) returns (r: Option<Mac>)
      modifies context
      ensures r == Resolve(cache, addr, now)
      ensures context.frames == old(context.frames) + (if r.None? then [Ask(context.host, addr)] else [])
    {
      if addr !in cache || cache[addr].lastUpdate + ARP_CACHE_TTL < now {
        SendRequest(context.host.mac, context.host.network, BROADCAST, addr);
        return None;
      }
      return Some(cache[addr].address);
    }
  }

  /** Asking and answering: the request one host broadcasts for an address makes a host that answers
      for it reply to the asker, who from then on, for 120 seconds, resolves the address to it. */
  lemma {:induction false} RequestResolves(asker: Host, owner: Host, addr: Ipv4, cache: Cache, now: int, later: int)
    requires OnSubnet(owner, addr)
    ensures var replies := Answers(owner, Ask(asker, addr).payload);
            && |replies| == 1 && replies[0].dest == asker.mac
            && var cache' := Learn(cache, replies[0].payload, now);
               && (Resolve(cache', addr, later) == Some(owner.mac) <==> later <= now + 120)
               && (forall other :: other != addr ==> Resolve(cache', other, later) == Resolve(cache, other, later))
  {
    PayloadFields(REQUEST, asker.mac, asker.network, BROADCAST, addr);
    PayloadFields(RESPONSE, owner.mac, addr, asker.mac, asker.network);
    ContainsMeans(owner, addr);
    hide WellFormed, Opcode, SenderMac, SenderIp, TargetIp, Contains, OnSubnet, Payload;
  }
}
