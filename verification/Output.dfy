/** IPv4 output (layers/L3/L3.cpp:71-111) on top of the ARP cache, and what runs of both guarantee. */
module Output {
  import opened Bytes
  import opened Checksum
  import opened Options
  import opened Link
  import opened Subnet
  import Arp
  import Ipv4Format
  import Rfc

  /** The frames one `L3::send` hands to the driver. */
  function Emitted(host: Host, cache: Arp.Cache, src: Ipv4, target: Ipv4, protocol: byte,
                   payload: seq<byte>, now: int): seq<Frame>
  {
    var packet := Ipv4Format.Packet(src, target, protocol, payload);
    if Contains(host, target) then
      match Arp.Resolve(cache, target, now)
      case Some(mac) => [Frame(packet, mac, ETHERTYPE_IP)]
      case None => [Arp.Ask(host, target)]
    else [Frame(packet, host.tapMac, ETHERTYPE_IP)]
  }

  class L3Layer {
    const context: Context
    const arp: Arp.ArpLayer

    constructor (context: Context, arp: Arp.ArpLayer)
      ensures this.context == context && this.arp == arp
    {
      this.context := context;
      this.arp := arp;
    }

    /** Writes the header into `tmp`, which starts out zeroed, with its checksum still zero. */
    method FillHeader(tmp: array<byte>, src: Ipv4, target: Ipv4, protocol: byte, size: nat)
      requires tmp.Length == 20 + size && forall j :: 0 <= j < tmp.Length ==> tmp[j] == 0
      modifies tmp
      ensures tmp[..20] == Ipv4Format.ZeroedHeader(src, target, protocol, size)
    {
      assert Put16(0) == [0, 0];
      hide Put16, Put32;
      CopyInto(tmp, 0, [4 * 16 + 5]);
      CopyInto(tmp, 1, [0]);
      CopyInto(tmp, 2, Put16((20 + size) % 0x1_0000));
      assert tmp[4..12] == [0, 0, 0, 0] + [0, 0, 0, 0];
      CopyInto(tmp, 4, [0, 0, 0, 0]);
      CopyInto(tmp, 8, [64, protocol]);
      assert tmp[..10] == Ipv4Format.Leading(protocol, size);
      CopyInto(tmp, 10, Put16(0));
      CopyInto(tmp, 12, Put32(src));
      CopyInto(tmp, 16, Put32(target));
    }

    /** Builds the packet: header with zeroed checksum, the checksum over it, then the data. */
    method Build(src: Ipv4, target: Ipv4, protocol: byte, buf: seq<byte>) returns (packet: seq<byte>)
      ensures packet == Ipv4Format.Packet(src, target, protocol, buf)
    {
      hide Put16, Put32, Sum16, Ipv4Format.Leading;
      var tmp := new byte[20 + |buf|](_ => 0);
      FillHeader(tmp, src, target, protocol, |buf|);
      var leading, addresses := Ipv4Format.Leading(protocol, |buf|), Put32(src) + Put32(target);
      assert tmp[..10] == tmp[..20][..10] == leading;
      assert tmp[12..20] == tmp[..20][12..] == addresses;
      var checksum := Checksum16Be(tmp[..20]);
      CopyInto(tmp, 10, Put16(checksum));
      assert tmp[12..20] == addresses;
      assert tmp[..20] == tmp[..12] + tmp[12..20];
      CopyInto(tmp, 20, buf);
      packet := tmp[..];
      assert tmp[..] == tmp[..20 + |buf|];
    }

    /** `L3::send`. */
    method Send(src: Ipv4, target: Ipv4, protocol: byte, buf: seq<byte>, now: int)
      requires arp.context == context
      modifies context
      ensures context.frames == old(context.frames) + Emitted(context.host, arp.cache, src, target, protocol, buf, now)
    {
      var packet := Build(src, target, protocol, buf);
      if Contains(context.host, target) {
        var addr := arp.Lookup(target, now);
        if addr.Some? {
          context.L2Send(packet, addr.value, ETHERTYPE_IP);
        }
      } else {
        context.L2Send(packet, context.host.tapMac, ETHERTYPE_IP);
      }
    }
  }

  // ----- runs: ARP payloads arriving and packets being sent, in any order, at any clock readings

  datatype Event =
    | ArpArrival(buf: seq<byte>, now: int)
    | IpOutput(src: Ipv4, target: Ipv4, protocol: byte, payload: seq<byte>, now: int)

  /** The cache after an event. */
  function CacheAfter(cache: Arp.Cache, e: Event): Arp.Cache {
    if e.ArpArrival? then Arp.Learn(cache, e.buf, e.now) else cache
  }

  /** The frames handed to the driver while an event is handled. */
  function FramesFor(host: Host, cache: Arp.Cache, e: Event): seq<Frame> {
    match e
    case ArpArrival(buf, now) => Arp.Answers(host, buf)
    case IpOutput(src, target, protocol, payload, now) => Emitted(host, cache, src, target, protocol, payload, now)
  }

  function Run(es: seq<Event>): Arp.Cache {
    if es == [] then map[] else CacheAfter(Run(es[..|es| - 1]), es[|es| - 1])
  }

  function FramesAt(host: Host, es: seq<Event>, n: nat): seq<Frame>
    requires n < |es|
  {
    FramesFor(host, Run(es[..n]), es[n])
  }

  function AllFrames(host: Host, es: seq<Event>): seq<Frame> {
    if es == [] then [] else AllFrames(host, es[..|es| - 1]) + FramesAt(host, es, |es| - 1)
  }

  /** The objects take the steps the theorems below are about. */
  method Drive(l3: L3Layer, es: seq<Event>)
    requires l3.arp.context == l3.context && l3.arp.cache == map[] && l3.context.frames == []
    modifies l3.arp, l3.context
    ensures l3.arp.cache == Run(es)
    ensures l3.context.frames == AllFrames(l3.context.host, es)
  {
    hide Emitted, Arp.Learn, Arp.Answers;
    for i := 0 to |es|
      invariant l3.arp.cache == Run(es[..i])
      invariant l3.context.frames == AllFrames(l3.context.host, es[..i])
    {
      var upTo := es[..i + 1];
      assert upTo[..|upTo| - 1] == es[..i];
      match es[i]
      case ArpArrival(buf, now) =>
        var _ := l3.arp.OnRecv(buf, now);
      case IpOutput(src, target, protocol, payload, now) =>
        l3.Send(src, target, protocol, payload, now);
    }
    assert es[..|es|] == es;
  }

  lemma OneMore(host: Host, es: seq<Event>, e: Event)
    ensures Run(es + [e]) == CacheAfter(Run(es), e)
    ensures AllFrames(host, es + [e]) == AllFrames(host, es) + FramesFor(host, Run(es), e)
  {
    hide CacheAfter, FramesFor;
    assert (es + [e])[..|es|] == es;
  }

  predicate ResponseAt(es: seq<Event>, addr: Ipv4, n: nat) {
    n < |es| && es[n].ArpArrival? && Arp.IsResponseOf(es[n].buf, addr)
  }

  /** The `n`th event is the last ARP response that names `addr` as its sender. */
  predicate LastResponseAt(es: seq<Event>, addr: Ipv4, n: nat) {
    ResponseAt(es, addr, n) && forall m :: n < m < |es| ==> !ResponseAt(es, addr, m)
  }

  /** The cache holds, for each address, what its last response said and when that arrived; requests
      and responses of other addresses make no difference. */
  lemma {:induction false} CacheIsHistory(es: seq<Event>, addr: Ipv4)
    ensures addr in Run(es) <==> exists n: nat :: LastResponseAt(es, addr, n)
    ensures forall n: nat :: LastResponseAt(es, addr, n) ==>
              Run(es)[addr] == Arp.Entry(Rfc.Arp(es[n].buf).senderMac, es[n].now)
  {
    if es != [] {
      var before, last: nat := es[..|es| - 1], |es| - 1;
      CacheIsHistory(before, addr);
      hide Arp.IsResponseOf, Rfc.Arp;
      assert forall n: nat :: n < last ==> (ResponseAt(before, addr, n) <==> ResponseAt(es, addr, n));
      if es[last].ArpArrival? {
        LearnOne(Run(before), es[last], addr);
      }
      if ResponseAt(es, addr, last) {
        assert LastResponseAt(es, addr, last);
      } else {
        assert forall n: nat :: LastResponseAt(before, addr, n) <==> LastResponseAt(es, addr, n);
      }
    }
  }

  lemma LearnOne(cache: Arp.Cache, e: Event, addr: Ipv4)
    requires e.ArpArrival?
    ensures var cache' := Arp.Learn(cache, e.buf, e.now);
            if Arp.IsResponseOf(e.buf, addr)
            then addr in cache' && cache'[addr] == Arp.Entry(Rfc.Arp(e.buf).senderMac, e.now)
            else (addr in cache' <==> addr in cache) && (addr in cache ==> cache'[addr] == cache[addr])
  {
    Arp.FieldsMean(e.buf);
    hide Arp.WellFormed, Arp.Opcode, Arp.SenderMac, Arp.SenderIp, Rfc.Arp;
  }

  /** The last response of `addr` arrived no more than 120 seconds before `now` and carried `mac`. */
  ghost predicate Resolvable(es: seq<Event>, addr: Ipv4, mac: Mac, now: int) {
    exists n: nat :: LastResponseAt(es, addr, n) && Rfc.Arp(es[n].buf).senderMac == mac && now <= es[n].now + 120
  }

  /** A lookup agrees with the whole history of ARP traffic. */
  lemma {:induction false} LookupAgreesWithHistory(es: seq<Event>, addr: Ipv4, mac: Mac, now: int)
    ensures Arp.Resolve(Run(es), addr, now) == Some(mac) <==> Resolvable(es, addr, mac, now)
  {
    CacheIsHistory(es, addr);
    if addr in Run(es) {
      var n: nat :| LastResponseAt(es, addr, n);
      assert forall m: nat :: LastResponseAt(es, addr, m) ==> m == n;
    }
  }

  /** Where a packet goes, over every run: off the subnet to the TAP device; on it to the address the
      target's last response carried if that is no more than 120 seconds old; and otherwise nothing
      is sent but one broadcast request for the target. */
  lemma {:induction false} OutputRouting(host: Host, es: seq<Event>, n: nat)
    requires n < |es| && es[n].IpOutput?
    ensures var e, before, frames := es[n], es[..n], FramesAt(host, es, n);
            var packet := Ipv4Format.Packet(e.src, e.target, e.protocol, e.payload);
            if !OnSubnet(host, e.target) then
              frames == [Frame(packet, host.tapMac, 0x0800)]
            else if exists mac :: Resolvable(before, e.target, mac, e.now) then
              |frames| == 1 && frames[0] == Frame(packet, frames[0].dest, 0x0800)
              && Resolvable(before, e.target, frames[0].dest, e.now)
            else
              |frames| == 1 && Arp.Asks(frames[0], host, e.target)
  {
    var e, before := es[n], es[..n];
    ContainsMeans(host, e.target);
    Arp.AskMeans(host, e.target);
    hide Contains, OnSubnet, Ipv4Format.Packet, Arp.Resolve, Arp.Ask, Arp.Asks, Resolvable;
    forall mac: Mac
      ensures Arp.Resolve(Run(before), e.target, e.now) == Some(mac) <==> Resolvable(before, e.target, mac, e.now)
    {
      LookupAgreesWithHistory(before, e.target, mac, e.now);
    }
  }

  /** The same for a CIDR prefix: targets that share it go to the address they announced or are asked for,
      all others to the TAP device; if the network has bits beyond its prefix, those are all. */
  lemma {:induction false} PrefixRouting(host: Host, es: seq<Event>, n: nat, p: nat)
    requires n < |es| && es[n].IpOutput? && HasPrefix(host, p)
    ensures var e, before, frames, size := es[n], es[..n], FramesAt(host, es, n), Pow2(32 - p);
            && |frames| == 1
            && if host.network % size == 0 && e.target / size == host.network / size then
                 Resolvable(before, e.target, frames[0].dest, e.now)
                 || ((forall mac :: !Resolvable(before, e.target, mac, e.now)) && Arp.Asks(frames[0], host, e.target))
               else frames[0].dest == host.tapMac
  {
    hide OnSubnet, HasPrefix, Pow2, Resolvable, FramesAt, Arp.Asks, Ipv4Format.Packet;
    PrefixSubnet(host, es[n].target, p);
    OutputRouting(host, es, n);
  }

  lemma RoutedNow(host: Host, es: seq<Event>, n: nat, f: Frame)
    requires n < |es| && f in FramesAt(host, es, n) && f.etherType == 0x0800
    ensures Routed(host, es, n, f)
  {
    hide OnSubnet, Ipv4Format.Packet, Resolvable, Emitted;
    if es[n].IpOutput? {
      OutputRouting(host, es, n);
    }
  }

  /** Every IP frame of a run: its packet was asked for, and it went to the TAP device or to an
      address the target itself announced at most 120 seconds before. */
  lemma {:induction false} EveryIpFrame(host: Host, es: seq<Event>, f: Frame)
    requires f in AllFrames(host, es) && f.etherType == 0x0800
    ensures exists n: nat :: n < |es| && Routed(host, es, n, f)
    decreases |es|
  {
    var before, last: nat := es[..|es| - 1], |es| - 1;
    hide FramesAt, Routed;
    if f in AllFrames(host, before) {
      EveryIpFrame(host, before, f);
      var n: nat :| n < |before| && Routed(host, before, n, f);
      RoutedEarlier(host, es, n, f);
    } else {
      RoutedNow(host, es, last, f);
    }
  }

  lemma RoutedEarlier(host: Host, es: seq<Event>, n: nat, f: Frame)
    requires n < |es| - 1 && Routed(host, es[..|es| - 1], n, f)
    ensures Routed(host, es, n, f)
  {
    hide OnSubnet, Ipv4Format.Packet, Resolvable;
    assert es[..|es| - 1][..n] == es[..n];
  }

  ghost predicate Routed(host: Host, es: seq<Event>, n: nat, f: Frame)
    requires n < |es|
  {
    && es[n].IpOutput?
    && var e := es[n];
       f == Frame(Ipv4Format.Packet(e.src, e.target, e.protocol, e.payload), f.dest, 0x0800)
       && if OnSubnet(host, e.target) then Resolvable(es[..n], e.target, f.dest, e.now) else f.dest == host.tapMac
  }
}
