# DNet-core, verified

DNet-core is a small user-space TCP/IP stack. This project models the parts of it that carry
protocol logic and proves what they guarantee:

- the TCP receive path: the connection table, the handshake, sequence numbers modulo 2^32 and the
  65536-slot ring buffer, under a network that loses, repeats, reorders and interleaves segments;
- the Internet checksum and its users (IPv4, ICMP, UDP, TCP), with the carry the code drops;
- the DNS answerer: name encoder, name decoder, lookup with alias fallback, response serializer,
  read back by an independent RFC 1035 reader;
- the ARP cache and IPv4 output, over whole runs of ARP traffic and packets sent.

What the source does by updating memory is a class, a method or a loop here, over arrays and fields
(`RingBuffer`, `TcpConn`, `TcpLayer`, `ArpLayer`, `L3Layer`, `IcmpLayer`, `UdpLayer`, `DnsLayer`, the
checksum loop, the name encoder and decoder). Each is proved to compute a function on values, and the
theorems, many of them about every run, are lemmas about those functions. `ByteQueue`, `History` in
`TcpRuns`, the index predicates over events in `Output`, `Rfc1071`, the header readers in `Rfc`, the bits
and prefixes in `Subnet` and `DnsParser` are the independent definitions the code is compared with;
the numbers they ask for (types, ports, flags, times) are written out in the theorems. Integers are
unbounded; every wrap of the C++ types is written out.

| file | content |
|---|---|
| Bytes.dfy | octets, 16/32-bit fields, memcpy |
| Rfc.dfy | the headers and sums of RFC 791, 792, 768, 793 and 826 and letter case, octet by octet |
| Checksum.dfy | the loop, its single fold, RFC 1071, checksum fields |
| RingBuffer.dfy | `ByteQueue` (values) and `RingBuffer` (circular array) |
| TcpFormat.dfy, TcpMachine.dfy, Tcp.dfy, TcpRuns.dfy | segments, the step on values, the objects, theorems about runs |
| Link.dfy, Subnet.dfy, Arp.dfy, Output.dfy | hosts and frames, the subnet, the cache, `L3::send`, theorems about runs |
| Ipv4.dfy, Icmp.dfy, Udp.dfy | packets, echo reply, datagrams and echo |
| DnsName.dfy, DnsParser.dfy, Dns.dfy | names, RFC 1035 reader, the answerer |
| Stack.dfy | the layers joined, from a packet that arrives to the frames that answer it |

## What turned out

- The `&` in util/util.cpp:29 applies after the `+`, so a carry out of the fold is lost. Verifying is
  right all the same on every buffer of up to 131073 bytes, and at no greater length
  (`Checksum.VerificationExactLengths`); generating is right exactly when the fold does not carry, and
  a packet is refused by the stack that built it exactly when it does. The carry is always within
  reach. It happens to every UDP datagram without data sent from 10.0.0.1 to 169.254.199.210
  (`Ipv4Format.SendReceiveCanFail`); for every code, identifier and sequence number there is a valid ping
  of six data bytes whose reply has a wrong checksum (`Icmp.EchoReplyCanFail`); and for every TCP tuple
  there is a number `rand()` can draw with which the SYN-ACK has one (`TcpMachine.SynAckCanFail`).
- `capacity()` counts one slot more than `put` can use and `writeAll` ignores the result of `put`
  (layers/L4/tcp/TCP.h:138-150). A write of exactly one byte more than the free space is reported as
  complete and loses its last byte. On a connection the buffer therefore holds the first 65535 bytes
  accepted, while the ACKs count all of them; every acknowledged byte is stored in every run exactly
  for streams of up to 65535 bytes.
- Sequence numbers come round at 2^32: delivery is in order and exactly once in every run exactly for
  streams shorter than that. A peer may also put data on its SYN (section 3.4 of RFC 793); the code takes
  none of it from the first SYN, but a late copy is the next segment in order after 2^32 - 1 bytes, so then
  streams have to be shorter than that.
- UDP compares recomputed checksums instead of verifying. The two tests agree on every field value
  exactly when the recomputation neither carries nor is zero. A datagram sent as RFC 768 asks is let
  through exactly then (`Udp.Rfc768Fate`), and both refusals happen between any two ports of any two
  hosts: for six suitable bytes of data the fold carries and the correct checksum is refused; for two
  suitable bytes the checksum is zero, sent as all ones, and refused (`Udp.Rfc768CanBeRefused`).
- A query is looked up under a dotted, lower-case C string. Names without dots or zero octets inside a
  label have the same key exactly when they are the same name, letter case aside; a label "a.b" is not told
  from the labels "a" and "b" (`DnsName.DotInLabel`). A record registered under a name with a capital
  letter is never found (`Dns.AnsweredByName`).
- The CNAME encoder writes the wire form for labels of up to 255 bytes. An empty piece, such as the one
  a trailing dot makes ("test.example.com."), comes out as a zero octet, at which every reader stops:
  the form reads back as the name exactly when no piece is empty, and for an RFC 1035 reader exactly
  when every piece has 1 to 63 bytes.
- A decoded wire name encodes to the same bytes exactly when no label contains a dot or a zero octet,
  since it passes through a dotted C string.
- The comment above `checksum_16bit_be` speaks of a big-endian array; the code adds little-endian words
  and swaps the result. The model follows the code, and `Checksum.ByteOrder` shows why this is sound.

## Model

| member | source | states |
|---|---|---|
| Bytes.RoundTrip16 | defs.h:96-121 | a stored `uint16_be` reads back as its value, and storing a value read restores its bytes |
| Bytes.RoundTrip32 | defs.h:124-151 | the same for `uint32_be` |
| Checksum.Checksum16Be | util/util.cpp:14-33 | the loop over 16-bit words with a wrapping 32-bit sum computes the function the theorems below are about |
| Checksum.ByteOrder | util/util.cpp:17-32 | swapping the folded little-endian sum gives the folded big-endian sum, odd lengths included (section 2(B) of RFC 1071) |
| Checksum.VerificationExact | util/util.cpp:14-33 | up to 131073 bytes the result is 0 exactly when the word sum is a positive multiple of 65535, which is exactly when full end-around carry leaves all ones |
| Checksum.VerificationOfWrappedSum | util/util.cpp:17-32 | for any length: zero exactly when the wrapped sum is a positive multiple of 65535 other than the largest |
| Checksum.VerificationExactLengths | util/util.cpp:14-33 | verification agrees with RFC 1071 on every buffer of a length exactly when the length is at most 131073 |
| Checksum.GenerationExact | util/util.cpp:29-32 | the result is the RFC 1071 checksum exactly when the fold does not carry; otherwise the word before the swap is one too great |
| Checksum.GenerateThenVerify | layers/L3/L3.cpp:83-84 | zero an even-offset field, store the computed checksum: the whole buffer verifies exactly when the generating fold did not carry |
| ByteQueue.FifoConservation | layers/L4/tcp/TCP.h:110-163 | over every interleaving of calls, read bytes plus queued bytes are initial plus admitted bytes exactly when no write overfilled; each overfilling write loses one byte |
| ByteQueue.AdmittedAgainstStored | layers/L4/tcp/TCP.h:138-150 | an acknowledged call loses a byte, its last, exactly when it is a `writeAll` of one byte more than the free space |
| ByteQueue.NextCall | layers/L4/tcp/TCP.h:116-160 | whether the next call succeeds, and how much it hands out, follows from the bytes admitted, read and lost by the calls before it, whatever they were |
| RingBuffer.RingBuffer.Put | layers/L4/tcp/TCP.h:116-123 | appends to the queue of at most 65535 bytes, across the wrap of `end` |
| RingBuffer.RingBuffer.Get | layers/L4/tcp/TCP.h:125-132 | takes the oldest byte, across the wrap of `start` |
| RingBuffer.RingBuffer.Size | layers/L4/tcp/TCP.h:134-136 | the number of queued bytes, although `end - start` wraps at 2^64 |
| RingBuffer.RingBuffer.Capacity | layers/L4/tcp/TCP.h:138-140 | 65536 less the number of queued bytes, one more than can be stored |
| RingBuffer.RingBuffer.WriteAll | layers/L4/tcp/TCP.h:142-150 | succeeds exactly for at most 65536 - size bytes and stores the first 65535 - size of them |
| RingBuffer.RingBuffer.ReadFull | layers/L4/tcp/TCP.h:152-160 | all or nothing; hands out the oldest bytes in order |
| RingBuffer.RingBuffer.PerformAll | layers/L4/tcp/TCP.h:110-163 | any sequence of calls answers as the queue of values does |
| PseudoHeader.Octets | layers/L4/L4.h:16-22 | octets 0-3 are the source, 4-7 the destination, 8 zero, 9 the protocol, 10-11 the length |
| PseudoHeader.SumOf | layers/L4/tcp/TCP.h:54-67 | pseudo header and segment add up to the halves of both addresses, the protocol, the length and the words of the segment |
| TcpFormat.FieldsMean | layers/L4/tcp/TCP.h:16-51 | ports, numbers, SYN, ACK and payload read from any segment are those of section 3.1 of RFC 793; the payload begins at the data offset |
| TcpFormat.LayoutReads | layers/L4/tcp/TCP.cpp:81-87 | a segment laid out with a header of 5 to 15 words, options and data reads back with these fields and exactly this data |
| TcpFormat.ReplyReads | layers/L4/tcp/TCP.cpp:37-59 | by RFC 793 an emitted segment has five words, the given numbers and flags, window 4096 and no urgent data, and its sum under the pseudo header is right exactly when the fold did not carry |
| TcpFormat.ReplyFields | layers/L4/tcp/TCP.cpp:37-59 | every field of an emitted segment reads back as intended, with no payload |
| TcpFormat.ReplyVerifies | layers/L4/tcp/TCP.h:54-67 | an emitted segment verifies under its pseudo header exactly when its fold did not carry |
| TcpMachine.SynAckCanFail | layers/L4/tcp/TCP.cpp:49-59 | for every tuple and acknowledgment number there is a value below 2^31 of `rand()` with which the SYN-ACK fails verification at the peer |
| TcpMachine.VerifiesMeans | layers/L4/tcp/TCP.h:54-67 | verification of a segment sent is the test of RFC 793 on its addresses, protocol 6, length and octets |
| TcpMachine.ReplyMeans | layers/L4/tcp/TCP.cpp:32-59 | by RFC 793, a SYN-ACK has SYN and ACK and an ACK only ACK, ports and addresses exchanged |
| TcpMachine.PeerReads | layers/L4/tcp/TCP.cpp:32-59 | a SYN-ACK or ACK, delivered, belongs to the reversed tuple and carries exactly its flags and numbers |
| Tcp.TcpConn.FillReply | layers/L4/tcp/TCP.cpp:37-59 | filling the reply buffer field by field, checksum last, yields that segment |
| Tcp.TcpConn.Handle | layers/L4/tcp/TCP.cpp:43-121 | the `switch` takes the step of the value machine; in the three states a connection can have, the throwing branch is dead code |
| Tcp.TcpLayer.OnRecv | layers/L4/tcp/TCP.cpp:6-122 | one call takes the step on the whole table and trace; distinct tuples keep distinct objects, and only the object of the segment's tuple is modified |
| Tcp.TcpLayer.OnRecvAll | layers/L4/tcp/TCP.cpp:6-122 | the objects after any run are what the theorems about runs speak of |
| TcpRuns.RunIsHistory | layers/L4/tcp/TCP.cpp:6-122 | after any run a connection is determined by what its own tuple saw: SYN number, answer number, accepted stream |
| TcpRuns.StepIsHistory | layers/L4/tcp/TCP.cpp:43-121 | so are the next state and the segments sent; nothing throws |
| TcpRuns.TcpInvariant | layers/L4/tcp/TCP.cpp:13-30 | connections are stored under their own tuple, SYN_RECVED with one number unacknowledged or ESTABLISHED with none; the next call never throws |
| TcpRuns.StatesNeverGoBack | layers/L4/tcp/TCP.cpp:43-121 | connections are never removed, ESTABLISHED stays, and the accepted stream only grows at its end |
| TcpRuns.NonInterference | layers/L4/tcp/TCP.cpp:9-30 | a connection is the same when all segments of other tuples are dropped from the run |
| TcpRuns.HandshakeHistory | layers/L4/tcp/TCP.cpp:45-75 | a connection exists exactly when a SYN of its tuple arrived, and is ESTABLISHED exactly when the answer to its first SYN was acknowledged later, for every choice of `rand()` |
| TcpRuns.HandshakeEmissions | layers/L4/tcp/TCP.cpp:45-75 | as long as no acknowledgment has come, and whether one ever comes, the first SYN is answered with the SYN-ACK and no other arrival with anything; nothing is accepted or buffered |
| TcpRuns.SentToPeer | layers/L4/tcp/TCP.cpp:32-113 | everything sent to a peer over a whole run: nothing before its SYN, then the SYN-ACK, then one ACK for each segment accepted |
| TcpRuns.OneSynAck | layers/L4/tcp/TCP.cpp:45-66 | after any run with a SYN the first segment sent to the peer is the SYN-ACK, the only one while half open, and no later one carries SYN |
| TcpRuns.StoredStream | layers/L4/tcp/TCP.cpp:79-93 | the buffer is the first 65535 bytes of the accepted stream, all of it exactly when it is no longer; `rcv_nxt` counts all of it |
| TcpRuns.AckCountsAccepted | layers/L4/tcp/TCP.cpp:79-113 | in ESTABLISHED a segment is answered exactly when accepted, by one ACK counting everything accepted including it |
| TcpRuns.InOrderDelivery | layers/L4/tcp/TCP.cpp:76-116 | whatever the network does to the segments of a stream shorter than 2^32 (2^32 - 1 if its SYN may carry data), the accepted bytes are a prefix of it and `rcv_nxt` points behind them, wrap included (section 3.3 of RFC 793) |
| TcpRuns.LateCopyAccepted | layers/L4/tcp/TCP.cpp:79-93 | for every stream of 2^32 bytes or more there is a run that accepts something else |
| TcpRuns.DeliveryExact | layers/L4/tcp/TCP.cpp:76-116 | every run of a stream accepts a prefix of it exactly when the stream is shorter than 2^32 bytes, or than 2^32 - 1 if its SYN may carry data |
| TcpRuns.LateSynAccepted | layers/L4/tcp/TCP.cpp:79-93 | for every stream of 2^32 - 1 bytes there is a run in which a late SYN with data is accepted as more of the stream |
| TcpRuns.AcknowledgedNotStored | layers/L4/tcp/TCP.h:138-150 | for every stream of 65536 bytes or more there is a run after which 65536 are acknowledged and the last of them is not stored |
| TcpRuns.StorageExact | layers/L4/tcp/TCP.h:138-150 | every run stores all it has acknowledged exactly for streams of up to 65535 bytes |
| Subnet.ContainsMeans | defs.h:249-254 | masking the four octets compares the 32 bits of address, mask and network, for every mask |
| Subnet.PrefixSubnet | defs.h:249-254 | for a mask of p ones, an address is contained exactly if the network is a multiple of 2^(32-p) and both agree in the quotient; a network with host bits contains nothing |
| Arp.FieldsMean | layers/L2/arp/ARP.cpp:62-76 | what is accepted and read is an ARP packet of RFC 826 for Ethernet and IPv4, field by field |
| Arp.PayloadReads | layers/L2/arp/ARP.cpp:21-59 | a payload built is such a packet with the fields intended |
| Arp.AskMeans | layers/L2/arp/ARP.cpp:94-102 | the question for an address is a broadcast frame of type 0x0806 with a request of RFC 826 from the network address |
| Arp.AnswersMean | layers/L2/arp/ARP.cpp:62-80 | exactly requests for addresses of the subnet are answered, by one frame to the asker that puts the address at the own hardware address |
| Arp.ArpLayer.OnRecv | layers/L2/arp/ARP.cpp:62-92 | throws exactly on malformed payloads; otherwise learns from responses and answers requests for the subnet |
| Arp.ArpLayer.Lookup | layers/L2/arp/ARP.cpp:94-105 | a fresh entry answers silently; a missing or stale one causes one broadcast request |
| Arp.PayloadFields | layers/L2/arp/ARP.cpp:21-59 | a payload built is well formed and reads back as intended |
| Arp.RequestResolves | layers/L2/arp/ARP.cpp:62-105 | a request answered by another host makes the asker resolve the address to that host for exactly 120 seconds, and changes no other address |
| Output.L3Layer.Build | layers/L3/L3.cpp:71-88 | zeroed buffer, header fields, checksum, data: the packet of the model |
| Output.L3Layer.Send | layers/L3/L3.cpp:71-111 | the frames handed down, by subnet and cache |
| Output.Drive | layers/L3/L3.cpp:92-108 | cache and trace of the objects after any run are those of the theorems |
| Output.CacheIsHistory | layers/L2/arp/ARP.cpp:81-86 | an address is cached exactly if some response named it as sender, with what the last one said and when it came |
| Output.LookupAgreesWithHistory | layers/L2/arp/ARP.cpp:94-105 | lookup at time t gives m exactly when the last response of the address carried m and came no more than 120 seconds before t |
| Output.OutputRouting | layers/L3/L3.cpp:92-108 | over every run: off the subnet to the TAP address, on it to the resolvable address, else exactly one broadcast request and no IP frame |
| Output.PrefixRouting | layers/L3/L3.cpp:92-108 | the same with the subnet given as a prefix of p bits: one frame, to the address announced, the question, or the TAP address |
| Output.EveryIpFrame | layers/L3/L3.cpp:92-108 | every IP frame of a run was asked for and went to the TAP address or to one its target announced at most 120 seconds before |
| Ipv4Format.ReceivedMeans | layers/L3/L3.cpp:37-69 | any packet goes up exactly if RFC 791 reads version 4, five header words and a header that sums up, with the source, destination and protocol it reads |
| Ipv4Format.PacketReads | layers/L3/L3.cpp:71-88 | by RFC 791 a packet sent has no options or fragmentation, TTL 64, the addresses and protocol given, and sums up exactly when the fold did not carry |
| Ipv4Format.OnRecv | layers/L3/L3.cpp:37-69 | version, header length and checksum are checked, then the payload goes to ICMP or layer 4 |
| Ipv4Format.SendReceive | layers/L3/L3.cpp:37-88 | a packet sent is received with the same source, destination, protocol and payload if its header fold did not carry, and thrown away otherwise |
| Ipv4Format.SendReceiveCanFail | layers/L3/L3.cpp:83-84 | any UDP datagram of eight bytes from 10.0.0.1 to 169.254.199.210 is refused by the stack that sent it |
| Ipv4Format.LengthField | layers/L3/L3.cpp:81-82 | total length modulo 2^16 and TTL 64 |
| Ipv4Format.ReplyHeaderCarriesAlike | layers/L3/L3.cpp:79-84 | exchanging the addresses does not change whether the header carries |
| Icmp.IcmpLayer.OnRecv | layers/L3/icmp/ICMP.cpp:9-42 | verification, dispatch on the type, and the reply handed to IP |
| Icmp.ReceivedMeans | layers/L3/icmp/ICMP.cpp:9-42 | by RFC 792, of any message: one that does not sum up or is neither echo nor reply is thrown away, a reply ignored, an echo answered with type 0, code 0, the same identifier, sequence number and data |
| Icmp.EchoReply | layers/L3/icmp/ICMP.cpp:9-42 | the reply swaps the addresses, repeats identifier, sequence number and data, and verifies exactly when its fold did not carry |
| Icmp.EchoChecksumIsIncremental | layers/L3/icmp/ICMP.cpp:28-37 | without a carry the new checksum is the old one plus the dropped type and code modulo 65535, and is the update of section 3 of RFC 1624 exactly when the rest is not all zero |
| Icmp.EchoReplyCanFail | layers/L3/icmp/ICMP.cpp:28-37 | for every code, identifier and sequence number there is a ping with a correct checksum that is answered with a wrong one, which the asker's stack throws away |
| Icmp.PingEndToEnd | layers/L3/icmp/ICMP.cpp:9-42 | request packet to reply packet and back: if the IP header carries both packets are thrown away, otherwise both arrive, and the reply is accepted exactly when its own fold does not carry |
| Udp.UdpLayer.OnRecv | layers/L4/udp/UDP.cpp:12-58 | length and checksum checks on the overwritten buffer, then DNS or the echo |
| Udp.UdpLayer.Capitalize | layers/L4/udp/UDP.cpp:51-55 | the loop leaves the ASCII upper-case image of the data |
| Udp.ReceivedMeans | layers/L4/udp/UDP.cpp:12-58 | of any datagram: it is let through as RFC 768 asks except on the parting checksums; for port 53 it goes to DNS, any other is echoed to the source port with each letter a capital |
| Udp.LetThrough | layers/L4/udp/UDP.cpp:16-40 | a datagram passes exactly when its length is right and recomputation under the pseudo header accepts its checksum field |
| Udp.TestsAgree | layers/L4/udp/UDP.cpp:18-40 | recomputing and verifying accept the same checksum fields exactly when the recomputation neither carries nor is zero |
| Udp.PartCompany | layers/L4/udp/UDP.cpp:35-39 | the field values they disagree on are exactly these: after a carry the recomputed and the correct one; without a carry all ones, if zero is computed |
| Udp.FateOfDatagram | layers/L4/udp/UDP.cpp:16-40 | a received datagram of the right length is let through as verification would, except on exactly those values; with the correct checksum, not zero, it is let through exactly when the recomputation does not carry |
| Udp.Rfc768Fate | layers/L4/udp/UDP.cpp:16-40 | a datagram whose field is the correct checksum, a zero sent as all ones, is let through exactly when the recomputation neither carries nor is zero |
| Udp.Rfc768CanBeRefused | layers/L4/udp/UDP.cpp:35-39 | for all addresses and ports there are data with which each of the two refusals happens |
| Udp.EchoEndToEnd | layers/L4/udp/UDP.cpp:48-77 | over IP, the echo returns the upper-case image, same length, addresses and ports exchanged; both packets are thrown away if the header carries, and both arrive otherwise |
| DnsName.Encode | layers/L7/DNS.h:37-60 | writes the wire form, filling strlen + 2 bytes exactly, if and only if no label exceeds 255 bytes |
| DnsName.Decode | layers/L7/DNS.cpp:20-30 | leaves the dotted name, zero-terminated, with `ptr` one less than the wire length |
| DnsName.LowerInPlace | layers/L7/DNS.cpp:38-43 | the C string in the buffer becomes the same text, letter case aside, without a capital |
| DnsName.LowerMeans | layers/L7/DNS.cpp:38-43 | texts become equal exactly if they are the same in the sense of section 2.3.3 of RFC 1035 |
| DnsName.NameOfText | layers/L7/DNS.h:43-56 | the pieces of a name are what stands between the characters '.' |
| DnsName.EncodeThenDecode | layers/L7/DNS.h:37-60 | the encoder's bytes are read to their end as the name given exactly when no piece is empty, whatever follows in packet or buffer; their C string is the name |
| DnsName.ReadsBack | layers/L7/DNS.cpp:20-30 | any wire form with labels of up to 255 bytes is read to its end as its name exactly when no label is empty |
| DnsName.TrailingDot | layers/L7/DNS.h:43-54 | a trailing dot makes the encoder write one more zero octet, which readers leave unread |
| DnsName.DecodeThenEncode | layers/L7/DNS.cpp:20-30 | decoding then encoding gives the wire bytes back exactly when no label contains a dot or zero |
| DnsName.CaseOfKey | layers/L7/DNS.cpp:38-45 | names that differ in ASCII case are looked up under the same key |
| DnsName.KeyMeans | layers/L7/DNS.cpp:20-45 | two names have the same key exactly when what they print as is the same name, letter case aside; clean names exactly when they are the same themselves |
| DnsName.DotInLabel | layers/L7/DNS.cpp:24-30 | a dot inside a label gives the key of another name |
| Dns.DnsLayer.OnRecv | layers/L7/DNS.cpp:8-102 | assertions, decoding, lookup, in-place response; exactly one datagram sent unless it throws |
| Dns.DnsLayer.BuildAnswer | layers/L7/DNS.cpp:70-99 | the header rewritten in place and the records appended one by one give the response of the model |
| Dns.LookupMeaning | layers/L7/DNS.cpp:45-68 | the answers are exactly the records of (type, lower-case name), else exactly those of (CNAME, lower-case name), each as often as registered, else the request is echoed |
| Dns.AnsweredByName | layers/L7/DNS.cpp:38-56 | for a name whose labels are free of dots and zeros, the answers are exactly the records of the type registered in lower case under that name, else the aliases registered so |
| Dns.CaseInsensitive | layers/L7/DNS.cpp:38-45 | queries differing in letter case get the same records and answer sections (section 2.3.3 of RFC 1035) |
| Dns.RequestReads | layers/L7/DNS.cpp:12-36 | a request is refused exactly if an RFC 1035 reader finds QR set, not one question, or another class than 1; the question acted on is the one the reader finds, if its name is allowed |
| Dns.HeaderReads | layers/L7/DNS.cpp:79-90 | in an answer every header field is the request's but QR, AA and the three counts |
| Dns.EchoReads | layers/L7/DNS.cpp:58-66 | in a request sent back every header field is the request's but QR and RCODE, and what follows the header is unchanged |
| Dns.Echoed | layers/L7/DNS.cpp:58-66 | only QR and RCODE of the request change |
| Dns.ResponseParsesBack | layers/L7/DNS.cpp:70-101 | an RFC 1035 reader finds the request's header with QR, AA and the counts of records set and no other field changed, the question, and each selected record owned by the question's name through the pointer, TTL 60, type and data, with no byte left over, exactly when RFC 1035 allows the name in the question |
| Stack.Host.OnDatagram | layers/L4/udp/UDP.cpp:42-46 | UDP hands a query to DNS, and what DNS sends goes out through UDP: the frames of the specified reaction, or none |
| Stack.Host.OnSegment | layers/L4/L4.cpp:16-34 | TCP takes its step, and the segment it answers with, if any, goes out through IP |
| Stack.Host.OnPacket | layers/L3/L3.cpp:37-69 | the objects joined, from a packet received by IP to the frames that carry the reaction of ICMP, TCP, UDP or DNS to it |
| Stack.Host.Serve | layers/L2/L2.cpp:43-61 | over any run of ARP and IP frames in any order, the connections are those of the TCP machine run on the segments among them, and cache and frames those of the output run on the ARP payloads and reactions: all theorems about those runs hold of the joined stack |
| Stack.EveryIpFrameReacts | layers/L3/L3.cpp:92-108 | every IP frame of such a run carries the reaction to one of the packets that arrived, and goes to the TAP address or to one its target announced at most 120 seconds before |
| Stack.OtherPackets | layers/L4/L4.cpp:16-29 | any packet whose header is bad, or whose protocol is not 1, 6 or 17, has no reaction |
| Stack.IcmpReacts | layers/L3/icmp/ICMP.cpp:9-42 | any ICMP packet, of up to 131073 bytes, has a reaction exactly if its message sums up and is an echo; it is the echo reply, back to the source |
| Stack.UdpReacts | layers/L4/udp/UDP.cpp:12-58 | any UDP packet not for port 53 has a reaction as RFC 768 accepts it, but for the parting checksums; it is its data in capitals, back to where it came from |
| Stack.DnsReacts | layers/L4/udp/UDP.cpp:42-46 | the reaction to one for port 53 carries the response of DNS to its data, from port 53 to the port it came from |
| Stack.TcpReacts | layers/L4/tcp/TCP.cpp:9-30 | any TCP packet reaches the machine under the addresses and ports read by RFC 791 and RFC 793; what answers it goes back there, with the flags and the acknowledgment number due |
| Stack.SynEndToEnd | layers/L4/tcp/TCP.cpp:13-64 | a SYN packet for an unknown tuple is answered with the SYN-ACK and opens the connection unless its header carries; the answer is received by the peer's IP unless its own carries, and acknowledges the SYN for the reversed tuple |
| Stack.DnsEndToEnd | layers/L4/udp/UDP.cpp:42-46 | the server's stack reacts to a query packet unless its header carries; the reaction is addressed to the port of the query and received by the client's IP unless its own header carries; an RFC 1035 reader finds in it the question and exactly the selected records if and only if RFC 1035 allows the name |
| Dns.AliasReadsBack | layers/L7/DNS.h:37-60 | the data of a registered alias reads as exactly the name given if and only if RFC 1035 allows that name |

## Left out

- Dns.DnsLayer.OnRecv: requires a question with a label that ends inside the packet and a response that fits 512 bytes; the source does not check this, and what it does otherwise is undefined in C++.
- Tcp.TcpLayer.OnRecv: requires a full 20-byte header, and a data offset inside the segment for the one segment whose payload the source reads, the next in order on an established connection; there the source would read past the end.
- Ipv4Format.OnRecv: takes the buffer as exactly the packet; Ethernet padding after a packet is not modelled, and at least 20 bytes are required.
- Udp.UdpLayer.OnRecv: a datagram for port 53 is handed out as a result; the call into DNS and the datagram DNS sends back are in `Stack.Host`.
- Stack.Host.OnDatagram: needs for DNS what `Dns.DnsLayer.OnRecv` needs.
- Stack.Host.OnPacket: needs complete headers, and for TCP and DNS what `Tcp.TcpLayer.OnRecv` and `Dns.DnsLayer.OnRecv` need; a protocol the source throws on has no reaction.
- Arp.ArpLayer.OnRecv: payloads are built as values, not field by field; the clock is an argument and need not be monotone.
- The order of `equal_range` within one key is that of the table given; every order is covered, since the table is arbitrary.
- Exceptions are results (`Thrown`), after which the source unwinds to the driver loop.
- TCP beyond the receive path: FIN, RST, retransmission, windows, `sndbuf`, the application side of `rcvbuf`; nothing of it exists in the source. No claim of liveness.
- L2 framing, the driver, threads, parsing of address strings, hash functions and debug output: plumbing, or only easy members.
- `rand()` and `time()` are arbitrary inputs.
