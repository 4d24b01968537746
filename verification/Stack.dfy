/** The layers together: what arrives goes up from L2 to ARP, or through IP to ICMP, TCP, or UDP and DNS,
    and what they answer goes down again (layers/L2/L2.cpp:43-61, layers/L4/L4.cpp:16-34). */
module Stack {
  import opened Bytes
  import opened Checksum
  import opened Options
  import opened Protocol
  import Dns
  import DnsParser
  import Icmp
  import Ipv4Format
  import Link
  import Output
  import Rfc
  import Subnet
  import Tcp
  import TcpFormat
  import TcpMachine
  import Udp

  /** The arguments of one `L3_send`. */
  datatype Reply = Reply(src: Ipv4, dest: Ipv4, protocol: byte, payload: seq<byte>)

  /** The payload of a frame, by its EtherType, and when it arrived; `random` is what `rand()` returns if
      called. */
  datatype Input =
    | ArpInput(buf: seq<byte>, now: int)
    | IpInput(packet: seq<byte>, now: int, random: u32)

  // ----- reactions

  /** The datagram with which UDP, or DNS behind it, answers one from `src` to `dest`. */
  function UdpReaction(records: seq<Dns.Record>, buf: seq<byte>, src: Ipv4, dest: Ipv4): (reply: Option<Reply>)
    requires |buf| >= 8
    requires var r := Udp.Received(buf, src, dest); r.ToDns? ==> Dns.Expected(r.data)
    ensures reply.Some? ==> reply.value.src == dest && reply.value.dest == src && reply.value.protocol == UDP
  {
    match Udp.Received(buf, src, dest)
    case Thrown => None
    case Echoed(datagram) => Some(Reply(dest, src, UDP, datagram))
    case ToDns(data, port) =>
      match Dns.Respond(records, data)
      case Thrown => None
      case Responded(response) => Some(Reply(dest, src, UDP, Udp.Datagram(Udp.DNS_PORT, port, response)))
  }

  /** The segment, at most one, with which TCP answers. */
  function TcpReaction(table: TcpMachine.Table, a: TcpMachine.Arrival): (reply: Option<Reply>)
    ensures reply.Some? ==> reply.value.protocol == TCP
  {
    var out := TcpMachine.OnRecv(table, a).out;
    if out == [] then None else Some(Reply(out[0].srcIp, out[0].destIp, TCP, out[0].segment))
  }

  function Reaction(records: seq<Dns.Record>, table: TcpMachine.Table, packet: seq<byte>, random: u32): Option<Reply>
    requires Readable(records, table, packet, random)
  {
    match Ipv4Format.Received(packet)
    case Thrown => None
    case ToIcmp(payload, src, dest) =>
      (match Icmp.Received(payload, src, dest)
       case Replied(from, to, datagram) => Some(Reply(from, to, ICMP, datagram))
       case _ => None)
    case ToL4(payload, src, dest, protocol) =>
      if protocol == UDP then UdpReaction(records, payload, src, dest)
      else if protocol == TCP then TcpReaction(table, TcpMachine.Delivery(src, dest, payload, random))
      else None
  }

  /** Each layer finds the header it reads, TCP its payload, and DNS a question and an answer it can
      handle. */
  predicate Readable(records: seq<Dns.Record>, table: TcpMachine.Table, packet: seq<byte>, random: u32) {
    && |packet| >= 20
    && match Ipv4Format.Received(packet)
       case Thrown => true
       case ToIcmp(payload, _, _) => |payload| >= 8
       case ToL4(payload, src, dest, protocol) =>
         && (protocol == UDP ==> |payload| >= 8 && UdpReadable(records, payload, src, dest))
         && (protocol == TCP ==>
               |payload| >= 20 && TcpMachine.ReadsInside(table, TcpMachine.Delivery(src, dest, payload, random)))
  }

  predicate UdpReadable(records: seq<Dns.Record>, payload: seq<byte>, src: Ipv4, dest: Ipv4)
    requires |payload| >= 8
  {
    var r := Udp.Received(payload, src, dest);
    r.ToDns? ==> Dns.Expected(r.data) && Dns.Fits(records, r.data)
  }

  predicate InputReadable(records: seq<Dns.Record>, table: TcpMachine.Table, e: Input) {
    e.IpInput? ==> Readable(records, table, e.packet, e.random)
  }

  // ----- what a run of inputs is for the single layers

  /** What TCP receives of an input. */
  function ForTcp(e: Input): (arrivals: seq<TcpMachine.Arrival>)
    ensures |arrivals| <= 1
  {
    if e.ArpInput? || |e.packet| < 20 then []
    else
      match Ipv4Format.Received(e.packet)
      case ToL4(payload, src, dest, protocol) =>
        if protocol == TCP && |payload| >= 20 then [TcpMachine.Delivery(src, dest, payload, e.random)] else []
      case _ => []
  }

  /** What ARP receives or IP is asked to send on account of an input. */
  function ForOutput(records: seq<Dns.Record>, table: TcpMachine.Table, e: Input): (events: seq<Output.Event>)
    requires InputReadable(records, table, e)
    ensures |events| <= 1
  {
    match e
    case ArpInput(buf, now) => [Output.ArpArrival(buf, now)]
    case IpInput(packet, now, random) =>
      match Reaction(records, table, packet, random)
      case None => []
      case Some(r) => [Output.IpOutput(r.src, r.dest, r.protocol, r.payload, now)]
  }

  function Arrivals(es: seq<Input>): seq<TcpMachine.Arrival> {
    if es == [] then [] else Arrivals(es[..|es| - 1]) + ForTcp(es[|es| - 1])
  }

  predicate AllReadable(records: seq<Dns.Record>, es: seq<Input>) {
    es != [] ==>
      var before := es[..|es| - 1];
      AllReadable(records, before) && InputReadable(records, TcpMachine.Run(Arrivals(before)), es[|es| - 1])
  }

  function Events(records: seq<Dns.Record>, es: seq<Input>): seq<Output.Event>
    requires AllReadable(records, es)
  {
    if es == [] then []
    else
      var before := es[..|es| - 1];
      Events(records, before) + ForOutput(records, TcpMachine.Run(Arrivals(before)), es[|es| - 1])
  }

  // ----- the objects

  class Host {
    const l3: Output.L3Layer
    const icmp: Icmp.IcmpLayer
    const udp: Udp.UdpLayer
    const tcp: Tcp.TcpLayer
    const dns: Dns.DnsLayer

    /** All layers hang on the same IP layer, it and ARP on the same context, and TCP shares none of its
        connections. */
    ghost predicate Valid()
      reads tcp, tcp.objects
    {
      && icmp.l3 == l3 && udp.l3 == l3 && l3.arp.context == l3.context
      && tcp.Valid() && {dns, l3.arp, l3.context} !! tcp.objects
    }

    constructor (l3: Output.L3Layer, records: seq<Dns.Record>)
      requires l3.arp.context == l3.context
      ensures Valid() && this.l3 == l3 && dns.records == records && tcp.table == map[]
      ensures fresh(dns) && fresh(tcp) && fresh(tcp.objects)
    {
      this.l3 := l3;
      icmp := new Icmp.IcmpLayer(l3);
      udp := new Udp.UdpLayer(l3);
      tcp := new Tcp.TcpLayer();
      dns := new Dns.DnsLayer(records);
    }

    method OnDatagram(payload: seq<byte>, src: Ipv4, dest: Ipv4, now: int)
      requires udp.l3 == l3 && l3.arp.context == l3.context
      requires |payload| >= 8 && UdpReadable(dns.records, payload, src, dest)
      modifies dns, l3.context
      ensures l3.context.frames == old(l3.context.frames) +
                match UdpReaction(dns.records, payload, src, dest)
                case None => []
                case Some(r) => Output.Emitted(l3.context.host, l3.arp.cache, r.src, r.dest, UDP, r.payload, now)
    {
      hide Udp.Received, Dns.Expected, Dns.Fits, Dns.Respond, Udp.Datagram, Output.Emitted;
      var buf := new byte[|payload|](i requires 0 <= i < |payload| => payload[i]);
      assert buf[..] == payload;
      var r := udp.OnRecv(buf, src, dest, now);
      if r.ToDns? {
        var thrown := dns.OnRecv(r.data, src, r.srcPort, dest, Udp.DNS_PORT);
        if !thrown {
          var s := dns.sent[|dns.sent| - 1];
          var _ := udp.Send(s.payload, s.dest, s.destPort, s.src, s.srcPort, now);
        }
      }
    }

    method OnSegment(a: TcpMachine.Arrival, now: int)
      requires Valid() && TcpMachine.ReadsInside(tcp.table, a)
      modifies l3.context, tcp, tcp.objects
      ensures Valid() && fresh(tcp.objects - old(tcp.objects))
      ensures tcp.table == TcpMachine.Next(old(tcp.table), a)
      ensures l3.context.frames == old(l3.context.frames) +
                match TcpReaction(old(tcp.table), a)
                case None => []
                case Some(r) => Output.Emitted(l3.context.host, l3.arp.cache, r.src, r.dest, TCP, r.payload, now)
    {
      hide TcpMachine.OnRecv, TcpMachine.Next, TcpMachine.ReadsInside, Tcp.TcpLayer.Valid, Output.Emitted;
      Tcp.LayerParts(tcp);
      AtMostOneSegment(tcp.table, a);
      ghost var out := TcpMachine.OnRecv(tcp.table, a).out;
      var before := |tcp.sent|;
      tcp.OnRecv(a);
      if |tcp.sent| > before {
        var s := tcp.sent[before];
        assert s == out[0];
        l3.Send(s.srcIp, s.destIp, TCP, s.segment, now);
      }
    }

    /** What arrives as an IP packet leaves as the frames that carry the reaction, if there is one. */
    method OnPacket(packet: seq<byte>, now: int, random: u32)
      requires Valid() && Readable(dns.records, tcp.table, packet, random)
      modifies dns, l3.context, tcp, tcp.objects
      ensures Valid() && fresh(tcp.objects - old(tcp.objects))
      ensures tcp.table == TableAfter(old(tcp.table), ForTcp(IpInput(packet, now, random)))
      ensures l3.context.frames == old(l3.context.frames) +
                match Reaction(dns.records, old(tcp.table), packet, random)
                case None => []
                case Some(r) => Output.Emitted(l3.context.host, l3.arp.cache, r.src, r.dest, r.protocol, r.payload, now)
    {
      hide Ipv4Format.Received, Icmp.Received, UdpReaction, UdpReadable, TcpReaction, Output.Emitted,
        TcpMachine.Next, TcpMachine.ReadsInside, Tcp.TcpLayer.Valid;
      var up := Ipv4Format.OnRecv(packet);
      match up
      case Thrown =>
      case ToIcmp(payload, src, dest) =>
        var _ := icmp.OnRecv(payload, src, dest, now);
      case ToL4(payload, src, dest, protocol) =>
        if protocol == UDP {
          OnDatagram(payload, src, dest, now);
        } else if protocol == TCP {
          OnSegment(TcpMachine.Delivery(src, dest, payload, random), now);
        }
    }

    /** A frame arrives. */
    method OnInput(e: Input)
      requires Valid() && InputReadable(dns.records, tcp.table, e)
      modifies dns, l3.arp, l3.context, tcp, tcp.objects
      ensures Valid() && fresh(tcp.objects - old(tcp.objects))
      ensures tcp.table == TableAfter(old(tcp.table), ForTcp(e))
      ensures var events := ForOutput(dns.records, old(tcp.table), e);
              if events == []
              then l3.arp.cache == old(l3.arp.cache) && l3.context.frames == old(l3.context.frames)
              else l3.arp.cache == Output.CacheAfter(old(l3.arp.cache), events[0])
                   && l3.context.frames == old(l3.context.frames)
                        + Output.FramesFor(l3.context.host, old(l3.arp.cache), events[0])
    {
      hide Readable, Reaction, Output.Emitted, Tcp.TcpLayer.Valid, TcpMachine.Next;
      match e
      case ArpInput(buf, now) =>
        var _ := l3.arp.OnRecv(buf, now);
      case IpInput(packet, now, random) =>
        OnPacket(packet, now, random);
    }

    /** Over any run of inputs of every kind, in any order, TCP and the output side each do what their
        own part of the run asks for, and nothing else. */
    method Serve(es: seq<Input>)
      requires Valid() && AllReadable(dns.records, es)
      requires tcp.table == map[] && l3.arp.cache == map[] && l3.context.frames == []
      modifies dns, l3.arp, l3.context, tcp, tcp.objects
      ensures Valid()
      ensures tcp.table == TcpMachine.Run(Arrivals(es))
      ensures l3.arp.cache == Output.Run(Events(dns.records, es))
      ensures l3.context.frames == Output.AllFrames(l3.context.host, Events(dns.records, es))
    {
      hide *;
      ReadableSoFar(dns.records, es, 0);
      NothingYet(l3.context.host, dns.records);
      assert es[..0] == [];
      for i := 0 to |es|
        invariant Valid() && fresh(tcp.objects - old(tcp.objects))
        invariant AllReadable(dns.records, es[..i])
        invariant tcp.table == TcpMachine.Run(Arrivals(es[..i]))
        invariant l3.arp.cache == Output.Run(Events(dns.records, es[..i]))
        invariant l3.context.frames == Output.AllFrames(l3.context.host, Events(dns.records, es[..i]))
      {
        ReadableSoFar(dns.records, es, i + 1);
        Further(l3.context.host, dns.records, es, i);
        OnInput(es[i]);
      }
      assert es[..|es|] == es;
    }
  }

  function TableAfter(table: TcpMachine.Table, arrivals: seq<TcpMachine.Arrival>): TcpMachine.Table {
    if arrivals == [] then table else TcpMachine.Next(table, arrivals[0])
  }

  lemma AtMostOneSegment(table: TcpMachine.Table, a: TcpMachine.Arrival)
    ensures |TcpMachine.OnRecv(table, a).out| <= 1
  {
    hide TcpMachine.SynAck, TcpMachine.Ack;
  }

  lemma {:induction false} ReadableSoFar(records: seq<Dns.Record>, es: seq<Input>, i: nat)
    requires AllReadable(records, es) && i <= |es|
    ensures AllReadable(records, es[..i])
    decreases |es|
  {
    if i < |es| {
      ReadableSoFar(records, es[..|es| - 1], i);
      assert es[..|es| - 1][..i] == es[..i];
    } else {
      assert es[..i] == es;
    }
  }

  lemma NothingYet(host: Link.Host, records: seq<Dns.Record>)
    ensures AllReadable(records, []) && Events(records, []) == []
    ensures TcpMachine.Run(Arrivals([])) == map[]
    ensures Output.Run([]) == map[] && Output.AllFrames(host, []) == []
  {
  }

  lemma Further(host: Link.Host, records: seq<Dns.Record>, es: seq<Input>, i: nat)
    requires i < |es| && AllReadable(records, es[..i]) && AllReadable(records, es[..i + 1])
    ensures var table, was := TcpMachine.Run(Arrivals(es[..i])), Events(records, es[..i]);
            && InputReadable(records, table, es[i])
            && TcpMachine.Run(Arrivals(es[..i + 1])) == TableAfter(table, ForTcp(es[i]))
            && var events, all := ForOutput(records, table, es[i]), Events(records, es[..i + 1]);
               if events == []
               then all == was
               else Output.Run(all) == Output.CacheAfter(Output.Run(was), events[0])
                    && Output.AllFrames(host, all) == Output.AllFrames(host, was)
                         + Output.FramesFor(host, Output.Run(was), events[0])
  {
    hide *;
    ArrivalsFurther(es, i);
    EventsFurther(records, es, i);
    var table, was := TcpMachine.Run(Arrivals(es[..i])), Events(records, es[..i]);
    var events := ForOutput(records, table, es[i]);
    if events != [] {
      assert events == [events[0]];
      Output.OneMore(host, was, events[0]);
    } else {
      assert was + events == was;
    }
  }

  lemma ArrivalsFurther(es: seq<Input>, i: nat)
    requires i < |es|
    ensures TcpMachine.Run(Arrivals(es[..i + 1])) == TableAfter(TcpMachine.Run(Arrivals(es[..i])), ForTcp(es[i]))
  {
    hide ForTcp, TcpMachine.Next, TcpMachine.Run;
    assert es[..i + 1][..i] == es[..i];
    var arrivals, arrived := Arrivals(es[..i]), ForTcp(es[i]);
    if arrived == [] {
      assert arrivals + arrived == arrivals;
    } else {
      assert arrived == [arrived[0]];
      TcpMachine.OneMore(arrivals, arrived[0]);
    }
  }

  lemma EventsFurther(records: seq<Dns.Record>, es: seq<Input>, i: nat)
    requires i < |es| && AllReadable(records, es[..i]) && AllReadable(records, es[..i + 1])
    ensures var table := TcpMachine.Run(Arrivals(es[..i]));
            && InputReadable(records, table, es[i])
            && Events(records, es[..i + 1]) == Events(records, es[..i]) + ForOutput(records, table, es[i])
  {
    hide InputReadable, ForOutput, TcpMachine.Run, Arrivals;
    assert es[..i + 1][..i] == es[..i];
  }

  // ----- over whole runs

  /** The frame carries the reaction to the `n`th input to the address its target last announced, at most
      120 seconds before, or to the TAP device if the target is off the subnet. */
  ghost predicate ReactsWith(host: Link.Host, records: seq<Dns.Record>, es: seq<Input>, n: nat, f: Link.Frame)
    requires n < |es|
  {
    && es[n].IpInput?
    && var e, table := es[n], TcpMachine.Run(Arrivals(es[..n]));
    && AllReadable(records, es[..n]) && Readable(records, table, e.packet, e.random)
    && var reaction := Reaction(records, table, e.packet, e.random);
    && reaction.Some?
    && var r := reaction.value;
    && f == Link.Frame(Ipv4Format.Packet(r.src, r.dest, r.protocol, r.payload), f.dest, 0x0800)
    && if Subnet.OnSubnet(host, r.dest) then Output.Resolvable(Events(records, es[..n]), r.dest, f.dest, e.now)
       else f.dest == host.tapMac
  }

  /** Every IP frame of a run of the whole stack, whatever arrives and in whatever order, is the reaction
      to one of the packets that arrived, and goes where it should. */
  lemma {:induction false} EveryIpFrameReacts(host: Link.Host, records: seq<Dns.Record>, es: seq<Input>, f: Link.Frame)
    requires AllReadable(records, es)
    requires f in Output.AllFrames(host, Events(records, es)) && f.etherType == 0x0800
    ensures exists n: nat :: n < |es| && ReactsWith(host, records, es, n, f)
  {
    hide Subnet.OnSubnet, Ipv4Format.Packet, Output.Resolvable, Output.AllFrames, Readable, Reaction, Arrivals, Events,
      AllReadable;
    var events := Events(records, es);
    Output.EveryIpFrame(host, events, f);
    var m: nat :| m < |events| && Output.Routed(host, events, m, f);
    var n := InputOf(records, es, m);
    assert ReactsWith(host, records, es, n, f);
  }

  /** The input on whose account IP is asked to send. */
  lemma {:induction false} InputOf(records: seq<Dns.Record>, es: seq<Input>, m: nat) returns (n: nat)
    requires AllReadable(records, es) && m < |Events(records, es)| && Events(records, es)[m].IpOutput?
    ensures n < |es| && es[n].IpInput? && AllReadable(records, es[..n])
    ensures Events(records, es[..n]) == Events(records, es)[..m]
    ensures var e, table := es[n], TcpMachine.Run(Arrivals(es[..n]));
            && Readable(records, table, e.packet, e.random)
            && var r := Reaction(records, table, e.packet, e.random);
               r.Some? && Events(records, es)[m] ==
                          Output.IpOutput(r.value.src, r.value.dest, r.value.protocol, r.value.payload, e.now)
    decreases |es|
  {
    hide Readable, Reaction, Arrivals;
    var before := es[..|es| - 1];
    if m < |Events(records, before)| {
      n := InputOf(records, before, m);
      assert before[..n] == es[..n];
      assert Events(records, es)[..m] == Events(records, before)[..m];
    } else {
      n := |es| - 1;
      assert Events(records, es)[..m] == Events(records, before);
    }
  }

  // ----- any packet, in the terms of the RFCs

  /** Section 3.1 of RFC 791, for a packet without options. */
  predicate GoodHeader(packet: seq<byte>)
    requires |packet| >= 20
  {
    var h := Rfc.Ip(packet);
    h.version == 4 && h.headerLength == 5 && Rfc.SumsUp(BeWordSum(packet[..20]))
  }

  /** The reply goes back to where the packet came from. */
  predicate GoesBack(r: Reply, packet: seq<byte>)
    requires |packet| >= 20
  {
    var h := Rfc.Ip(packet);
    r.src == h.destination && r.dest == h.source && r.protocol == h.protocol
  }

  /** No packet has a reaction but one with a good header and one of three protocols. */
  lemma OtherPackets(records: seq<Dns.Record>, table: TcpMachine.Table, packet: seq<byte>, random: u32)
    requires Readable(records, table, packet, random)
    requires !GoodHeader(packet) || Rfc.Ip(packet).protocol !in {1, 6, 17}
    ensures Reaction(records, table, packet, random) == None
  {
    Ipv4Format.ReceivedMeans(packet);
    hide Ipv4Format.Received, Rfc.Ip, Rfc.SumsUp;
  }

  /** An ICMP packet has a reaction exactly if its message sums up and is an echo: the echo reply, with the
      same identifier, sequence number and data, back to the asker. */
  lemma IcmpReacts(records: seq<Dns.Record>, table: TcpMachine.Table, packet: seq<byte>, random: u32)
    requires Readable(records, table, packet, random) && |packet| <= 0x2_0001
    requires GoodHeader(packet) && Rfc.Ip(packet).protocol == 1
    ensures |packet| >= 28
    ensures var body, reaction := packet[20..], Reaction(records, table, packet, random);
            && (reaction.Some? <==> Rfc.SumsUp(BeWordSum(body)) && Rfc.Icmp(body).kind == 8)
            && (reaction.Some? ==>
                  var r := reaction.value;
                  && GoesBack(r, packet) && |r.payload| == |body| && r.payload[8..] == body[8..]
                  && Rfc.Icmp(r.payload) ==
                     Rfc.Icmp(body).(kind := 0, code := 0, checksum := Rfc.Icmp(r.payload).checksum))
  {
    hide Ipv4Format.Received, Icmp.Received, Rfc.Ip, Rfc.Icmp, Rfc.SumsUp, BeWordSum;
    Ipv4Format.ReceivedMeans(packet);
    var h := Rfc.Ip(packet);
    Icmp.ReceivedMeans(packet[20..], h.source, h.destination);
  }

  /** A UDP packet that is not for port 53 has a reaction exactly as RFC 768 accepts it, but for the
      parting checksums: its data in capitals, back to the port it came from. */
  lemma UdpReacts(records: seq<Dns.Record>, table: TcpMachine.Table, packet: seq<byte>, random: u32)
    requires Readable(records, table, packet, random)
    requires GoodHeader(packet) && Rfc.Ip(packet).protocol == 17
    ensures |packet| >= 28
    ensures var ip, body, reaction := Rfc.Ip(packet), packet[20..], Reaction(records, table, packet, random);
            var h := Rfc.Udp(body);
            h.destination != 53 ==>
              && (reaction.Some? == Udp.Rfc768Accepts(body, ip.source, ip.destination) <==>
                    h.length != |body|
                    || !Udp.Parting(WithField(Udp.Covered(body, ip.source, ip.destination), 0, body[8..]), h.checksum))
              && (reaction.Some? ==>
                    var r := reaction.value;
                    && GoesBack(r, packet) && |r.payload| == |body|
                    && Rfc.Udp(r.payload) == Rfc.UdpHeader(h.destination, h.source, h.length, 0)
                    && Rfc.SameText(body[8..], r.payload[8..]) && Rfc.NoSmallLetters(r.payload[8..]))
  {
    hide Ipv4Format.Received, Udp.Received, Udp.Rfc768Accepts, Udp.Parting, Udp.Covered, WithField, UdpReadable,
      Rfc.Ip, Rfc.Udp, Rfc.SumsUp, Rfc.SameText, Rfc.NoSmallLetters, BeWordSum;
    Ipv4Format.ReceivedMeans(packet);
    var h := Rfc.Ip(packet);
    Udp.ReceivedMeans(packet[20..], h.source, h.destination);
  }

  /** One for port 53 that has a reaction goes to DNS, and its response comes back from port 53 to the port
      it came from. */
  lemma DnsReacts(records: seq<Dns.Record>, table: TcpMachine.Table, packet: seq<byte>, random: u32)
    requires Readable(records, table, packet, random)
    requires GoodHeader(packet) && Rfc.Ip(packet).protocol == 17
    ensures |packet| >= 28
    ensures var body, reaction := packet[20..], Reaction(records, table, packet, random);
            var h := Rfc.Udp(body);
            h.destination == 53 && reaction.Some? ==>
              var r := reaction.value;
              && GoesBack(r, packet) && |r.payload| >= 8 && Dns.Expected(body[8..])
              && Rfc.Udp(r.payload) == Rfc.UdpHeader(53, h.source, |r.payload|, 0)
              && Dns.Respond(records, body[8..]) == Dns.Responded(r.payload[8..])
  {
    hide Ipv4Format.Received, Udp.Received, Udp.Rfc768Accepts, Udp.Parting, Udp.Covered, WithField, Udp.Datagram,
      Rfc.Ip, Rfc.SumsUp, Rfc.Two, Get16, BeWordSum, Dns.Expected, Dns.Fits, Dns.Respond;
    Ipv4Format.ReceivedMeans(packet);
    var ip, body := Rfc.Ip(packet), packet[20..];
    Udp.ReceivedMeans(body, ip.source, ip.destination);
    var r := Udp.Received(body, ip.source, ip.destination);
    if r.ToDns? && Dns.Respond(records, r.data).Responded? {
      var response := Dns.Respond(records, r.data).response;
      Dns.ResponseSize(records, r.data);
      Udp.DatagramFields(53, r.srcPort, response);
      var g := Udp.Datagram(53, r.srcPort, response);
      Rfc.FieldsAgree(g, 0);
      Rfc.FieldsAgree(g, 2);
      Rfc.FieldsAgree(g, 4);
      Rfc.FieldsAgree(g, 6);
    }
  }

  /** A TCP packet reaches the machine under the addresses and ports RFC 791 and RFC 793 read in it, and what
      answers it, in a table as any run leaves it, goes back to that address and port, acknowledging the
      number of the SYN, if it opens a connection, and otherwise the bytes behind the data offset. */
  lemma TcpReacts(records: seq<Dns.Record>, table: TcpMachine.Table, packet: seq<byte>, random: u32)
    requires Readable(records, table, packet, random) && TcpMachine.Answered(table)
    requires GoodHeader(packet) && Rfc.Ip(packet).protocol == 6
    ensures |packet| >= 40
    ensures var ip, body, reaction := Rfc.Ip(packet), packet[20..], Reaction(records, table, packet, random);
            var h, a := Rfc.Tcp(body), TcpMachine.Delivery(ip.source, ip.destination, body, random);
            var k := TcpMachine.ConnTuple(ip.source, h.source, ip.destination, h.destination);
            && ForTcp(IpInput(packet, 0, random)) == [a] && TcpMachine.TupleOf(a) == k
            && (reaction.Some? ==>
                  var r := reaction.value;
                  && GoesBack(r, packet) && |r.payload| == 20
                  && var g := Rfc.Tcp(r.payload);
                  && g.source == h.destination && g.destination == h.source && g.offset == 5
                  && g.ack && (g.syn <==> k !in table) && !g.urg && !g.psh && !g.rst && !g.fin
                  && g.acknowledgment ==
                     Wrap32(h.sequence + if g.syn then 1 else (|body| - 4 * h.offset) % 0x1_0000))
  {
    hide Ipv4Format.Received, Rfc.Ip, Rfc.Tcp, Rfc.SumsUp, BeWordSum, Wrap32, TcpFormat.HasSyn, TcpFormat.HasAck,
      TcpFormat.SeqNo, TcpFormat.AckNo, TcpFormat.SrcPort, TcpFormat.DestPort, TcpFormat.OffsetInside,
      TcpMachine.OnRecv, TcpMachine.TupleOf;
    Ipv4Format.ReceivedMeans(packet);
    var ip := Rfc.Ip(packet);
    AnswerMeans(table, TcpMachine.Delivery(ip.source, ip.destination, packet[20..], random));
  }

  lemma AnswerMeans(table: TcpMachine.Table, a: TcpMachine.Arrival)
    requires TcpMachine.Answered(table) && TcpMachine.ReadsInside(table, a)
    ensures var h, out := Rfc.Tcp(a.segment), TcpMachine.OnRecv(table, a).out;
            var k := TcpMachine.ConnTuple(a.srcIp, h.source, a.destIp, h.destination);
            && TcpMachine.TupleOf(a) == k
            && (out != [] ==>
                  && out[0].srcIp == a.destIp && out[0].destIp == a.srcIp && |out[0].segment| == 20
                  && var g := Rfc.Tcp(out[0].segment);
                  && g.source == h.destination && g.destination == h.source && g.offset == 5
                  && g.ack && (g.syn <==> k !in table) && !g.urg && !g.psh && !g.rst && !g.fin
                  && g.acknowledgment ==
                     Wrap32(h.sequence + if g.syn then 1 else (|a.segment| - 4 * h.offset) % 0x1_0000))
  {
    hide Rfc.Tcp, Wrap32, TcpFormat.HasSyn, TcpFormat.HasAck, TcpFormat.SeqNo, TcpFormat.AckNo, TcpFormat.SrcPort,
      TcpFormat.DestPort, TcpFormat.Payload, TcpMachine.SynAck, TcpMachine.Ack;
    TcpFormat.FieldsMean(a.segment);
    var k := TcpMachine.TupleOf(a);
    var next := Wrap32(TcpFormat.SeqNo(a.segment) + 1);
    if k in table {
      var c := table[k];
      TcpMachine.ReplyMeans(k, c.sndNxt, Wrap32(TcpFormat.SeqNo(a.segment) + |TcpFormat.Payload(a.segment)|));
    } else {
      TcpMachine.ReplyMeans(k, a.random, next);
    }
  }

  // ----- end to end

  /** A SYN for an unknown tuple, in a packet whose header does not carry, opens a connection and is
      answered by the SYN-ACK, whose packet, if its header does not carry either, the peer's IP accepts,
      and in which the peer reads the other direction of the tuple and the number after its own. */
  lemma SynEndToEnd(records: seq<Dns.Record>, table: TcpMachine.Table, k: TcpMachine.ConnTuple,
                    segment: seq<byte>, random: u32)
    requires TcpFormat.WellFormed(segment) && TcpFormat.HasSyn(segment) && k !in table
    requires TcpFormat.SrcPort(segment) == k.srcPort && TcpFormat.DestPort(segment) == k.destPort
    ensures var request := Ipv4Format.Packet(k.srcIp, k.destIp, TCP, segment);
            var next := Wrap32(TcpFormat.SeqNo(segment) + 1);
            var answer := TcpMachine.SynAck(k, random, next).segment;
            var lost := Carries(Ipv4Format.ZeroedHeader(k.srcIp, k.destIp, TCP, |segment|));
            && Readable(records, table, request, random)
            && Reaction(records, table, request, random) ==
               (if lost then None else Some(Reply(k.destIp, k.srcIp, TCP, answer)))
            && TableAfter(table, ForTcp(IpInput(request, 0, random))) ==
               (if lost then table
                else table[k := TcpMachine.Conn(k, TcpMachine.SYN_RECVED, random, Wrap32(random + 1), next, [])])
            && Ipv4Format.Received(Ipv4Format.Packet(k.destIp, k.srcIp, TCP, answer)) ==
               (if Carries(Ipv4Format.ZeroedHeader(k.destIp, k.srcIp, TCP, 20)) then Ipv4Format.Thrown
                else Ipv4Format.ToL4(answer, k.destIp, k.srcIp, TCP))
            && TcpMachine.TupleOf(TcpMachine.Delivery(k.destIp, k.srcIp, answer, 0)) == TcpMachine.Reversed(k)
            && TcpFormat.HasSyn(answer) && TcpFormat.HasAck(answer)
            && TcpFormat.SeqNo(answer) == random && TcpFormat.AckNo(answer) == next
  {
    hide Carries, Ipv4Format.Packet, Ipv4Format.Received, TcpFormat.HasSyn, TcpFormat.HasAck, TcpFormat.SeqNo,
      TcpFormat.AckNo, TcpFormat.SrcPort, TcpFormat.DestPort, TcpFormat.Payload, TcpFormat.Reply, Wrap32;
    var next := Wrap32(TcpFormat.SeqNo(segment) + 1);
    TcpMachine.PeerReads(k, random, next, 0);
    Ipv4Format.SendReceive(k.srcIp, k.destIp, TCP, segment);
    Ipv4Format.SendReceive(k.destIp, k.srcIp, TCP, TcpMachine.SynAck(k, random, next).segment);
  }

  /** A client sends a query to port 53 of a server that has records for it.  If the header of the
      request carries, the server does not react; otherwise it reacts with a packet to the port the query
      came from, which the client's IP accepts exactly if its header does not carry; and an RFC 1035
      reader finds in it the question asked and exactly the records selected if and only if RFC 1035
      allows the name asked for. */
  lemma DnsEndToEnd(client: Ipv4, server: Ipv4, port: u16, records: seq<Dns.Record>, table: TcpMachine.Table,
                    query: seq<byte>, random: u32)
    requires Dns.Expected(query) && Dns.IsQuery(query) && Dns.QClass(query) == 1
    requires Dns.Fits(records, query) && Dns.Selected(records, query) != [] && 8 + |query| < 0x1_0000
    ensures var request := Ipv4Format.Packet(client, server, UDP, Udp.Datagram(port, 53, query));
            var response := Dns.Answered(query, Dns.Selected(records, query));
            var reply := Udp.Datagram(53, port, response);
            && Readable(records, table, request, random)
            && Reaction(records, table, request, random) ==
               (if Carries(Ipv4Format.ZeroedHeader(client, server, UDP, 8 + |query|)) then None
                else Some(Reply(server, client, UDP, reply)))
            && Ipv4Format.Received(Ipv4Format.Packet(server, client, UDP, reply)) ==
               (if Carries(Ipv4Format.ZeroedHeader(server, client, UDP, 8 + |response|)) then Ipv4Format.Thrown
                else Ipv4Format.ToL4(reply, server, client, UDP))
            && Get16(reply, 2) == port && reply[8..] == response
            && |Dns.Selected(records, query)| < 0x1_0000
            && (DnsParser.ReadMessage(reply[8..]) == Some(Dns.Intended(records, query))
                <==> DnsParser.Allowed(Dns.Reads(query).name))
  {
    hide Carries, Get16, Udp.Datagram, Udp.Expected, Ipv4Format.Packet, Ipv4Format.Received, Dns.Answered,
      Dns.AnswerSection, Dns.Respond, Dns.Selected, DnsParser.ReadMessage, DnsParser.Allowed, Dns.Intended;
    var response := Dns.Answered(query, Dns.Selected(records, query));
    Dns.ResponseParsesBack(records, query);
    Udp.DatagramFields(port, 53, query);
    Udp.DatagramFields(53, port, response);
    Ipv4Format.SendReceive(client, server, UDP, Udp.Datagram(port, 53, query));
    Ipv4Format.SendReceive(server, client, UDP, Udp.Datagram(53, port, response));
  }
}
