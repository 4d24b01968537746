/** The pseudo header of section 3.1 of RFC 793 (layers/L4/L4.h:16-22), shared by TCP and UDP. */
module PseudoHeader {
  import opened Bytes
  import opened Checksum
  import Rfc

  function Of(src: Ipv4, dest: Ipv4, protocol: byte, length: u16): (s: seq<byte>)
    ensures |s| == 12
  {
    Put32(src) + Put32(dest) + [0, protocol] + Put16(length)
  }

  /** Octet by octet: source, destination, zero, protocol, length. */
  lemma Octets(src: Ipv4, dest: Ipv4, protocol: byte, length: u16)
    ensures var s := Of(src, dest, protocol, length);
            && Rfc.Four(s, 0) == src && Rfc.Four(s, 4) == dest && s[8] == 0 && s[9] == protocol
            && Rfc.Two(s, 10) == length
  {
    var s := Of(src, dest, protocol, length);
    hide Put16, Put32, Get16, Get32, Rfc.Two, Rfc.Four;
    assert s[0..4] == Put32(src) && s[4..8] == Put32(dest) && s[10..12] == Put16(length);
    Rfc.FieldsAgree(s, 0);
    Rfc.FieldsAgree(s, 4);
    Rfc.FieldsAgree(s, 10);
    FieldReads(s, 0, Put32(src));
    FieldReads(s, 4, Put32(dest));
    FieldReads(s, 10, Put16(length));
    RoundTrip32(src, s, 0);
    RoundTrip32(dest, s, 0);
    RoundTrip16(length, s, 0);
  }

  /** What is covered adds up to the sum the RFCs ask for. */
  lemma SumOf(src: Ipv4, dest: Ipv4, protocol: byte, length: u16, segment: seq<byte>)
    requires |segment| == length
    ensures BeWordSum(Of(src, dest, protocol, length) + segment) == Rfc.TransportSum(src, dest, protocol, segment)
  {
    assert Put16(protocol) == [0, protocol];
    hide BeWordSum, Put16, Put32;
    BeWordSumConcat(Of(src, dest, protocol, length), segment);
    BeWordSumConcat(Put32(src) + Put32(dest) + [0, protocol], Put16(length));
    BeWordSumConcat(Put32(src) + Put32(dest), [0, protocol]);
    BeWordSumConcat(Put32(src), Put32(dest));
    BeSumOfPut32(src);
    BeSumOfPut32(dest);
    BeWordOf(length);
    BeWordOf(protocol);
  }
}

/** TCP segments on the wire (layers/L4/tcp/TCP.h:16-67): reading a received header and building the
    20-byte segments the stack answers with. */
module TcpFormat {
  import opened Bytes
  import opened Checksum
  import opened Protocol
  import PseudoHeader
  import Rfc

  const WINDOW_SIZE: u16 := 4096
  const HEADER := 20

  const FLAG_SYN: byte := 0x02
  const FLAG_ACK: byte := 0x10

  /** What `on_recv` relies on without checking: a full fixed header. */
  predicate WellFormed(s: seq<byte>) {
    20 <= |s|
  }

  function SrcPort(s: seq<byte>): u16 requires WellFormed(s) { Get16(s, 0) }

  function DestPort(s: seq<byte>): u16 requires WellFormed(s) { Get16(s, 2) }

  function SeqNo(s: seq<byte>): u32 requires WellFormed(s) { Get32(s, 4) }

  function AckNo(s: seq<byte>): u32 requires WellFormed(s) { Get32(s, 8) }

  predicate HasSyn(s: seq<byte>) requires WellFormed(s) { s[13] / 2 % 2 == 1 }

  predicate HasAck(s: seq<byte>) requires WellFormed(s) { s[13] / 16 % 2 == 1 }

  function HeaderSize(s: seq<byte>): nat requires WellFormed(s) { s[12] / 16 * 4 }

  /** The data offset points into the segment.  `on_recv` looks at the offset, and relies on this, only
      for a segment that is next in order on an established connection. */
  predicate OffsetInside(s: seq<byte>) requires WellFormed(s) { HeaderSize(s) <= |s| }

  /** The payload, whose size is kept in 16 bits; where the offset points outside there is none to
      speak of. */
  function Payload(s: seq<byte>): (p: seq<byte>)
    requires WellFormed(s)
    ensures |p| < 0x1_0000
  {
    if !OffsetInside(s) then []
    else
      var size := (|s| - HeaderSize(s)) % 0x1_0000;
      s[HeaderSize(s)..HeaderSize(s) + size]
  }

  /** The sixteen octets before the checksum of a segment without options. */
  function Leading(srcPort: u16, destPort: u16, seqNo: u32, ackNo: u32, flags: byte): (s: seq<byte>)
    ensures |s| == 16
  {
    Put16(srcPort) + Put16(destPort) + Put32(seqNo) + Put32(ackNo) + [HEADER / 4 * 16, flags] + Put16(WINDOW_SIZE)
  }

  function SegmentWith(leading: seq<byte>, checksum: u16): (s: seq<byte>)
    requires |leading| == 16
    ensures |s| == 20
  {
    WithField(leading, checksum, [0, 0])
  }

  /** TCP_CHECKSUM with an empty body. */
  function TcpChecksum(segment: seq<byte>, src: Ipv4, dest: Ipv4): u16
    requires |segment| == 20
  {
    Sum16(PseudoHeader.Of(src, dest, TCP, HEADER) + segment)
  }

  /** The reply segment the stack emits. */
  function Reply(src: Ipv4, dest: Ipv4, leading: seq<byte>): (s: seq<byte>)
    requires |leading| == 16
    ensures |s| == 20
  {
    SegmentWith(leading, TcpChecksum(SegmentWith(leading, 0), src, dest))
  }

  /** Every field of a segment without options reads back as it was written. */
  lemma SegmentFields(srcPort: u16, destPort: u16, seqNo: u32, ackNo: u32, flags: byte, rest: seq<byte>)
    requires 4 <= |rest| < 0x1_0000
    ensures var s := Leading(srcPort, destPort, seqNo, ackNo, flags) + rest;
            && WellFormed(s) && OffsetInside(s)
            && SrcPort(s) == srcPort && DestPort(s) == destPort
            && SeqNo(s) == seqNo && AckNo(s) == ackNo
            && s[13] == flags && Get16(s, 14) == WINDOW_SIZE && Payload(s) == rest[4..]
  {
    var leading := Leading(srcPort, destPort, seqNo, ackNo, flags);
    var s := leading + rest;
    hide Put16, Put32, Get16, Get32;
    assert s[12] == leading[12] == 80 && s[13] == leading[13] == flags;
    assert s[0..2] == leading[0..2] == Put16(srcPort);
    assert s[2..4] == leading[2..4] == Put16(destPort);
    assert s[4..8] == leading[4..8] == Put32(seqNo);
    assert s[8..12] == leading[8..12] == Put32(ackNo);
    assert s[14..16] == leading[14..16] == Put16(WINDOW_SIZE);
    FieldReads(s, 0, Put16(srcPort));
    FieldReads(s, 2, Put16(destPort));
    FieldReads(s, 4, Put32(seqNo));
    FieldReads(s, 8, Put32(ackNo));
    FieldReads(s, 14, Put16(WINDOW_SIZE));
    RoundTrip16(srcPort, s, 0);
    RoundTrip16(destPort, s, 0);
    RoundTrip16(WINDOW_SIZE, s, 0);
    RoundTrip32(seqNo, s, 0);
    RoundTrip32(ackNo, s, 0);
  }

  // ----- against section 3.1 of RFC 793

  /** What the stack reads of any segment is what RFC 793 says is there; the data begins where the data
      offset points. */
  lemma FieldsMean(s: seq<byte>)
    requires WellFormed(s)
    ensures var h := Rfc.Tcp(s);
            && SrcPort(s) == h.source && DestPort(s) == h.destination
            && SeqNo(s) == h.sequence && AckNo(s) == h.acknowledgment
            && (HasSyn(s) <==> h.syn) && (HasAck(s) <==> h.ack)
            && (OffsetInside(s) <==> 4 * h.offset <= |s|)
            && (4 * h.offset <= |s| ==>
                  |Payload(s)| == (|s| - 4 * h.offset) % 0x1_0000 && Payload(s) <= s[4 * h.offset..])
  {
    hide Get16, Get32, Rfc.Two, Rfc.Four;
    Rfc.FieldsAgree(s, 0);
    Rfc.FieldsAgree(s, 2);
    Rfc.FieldsAgree(s, 4);
    Rfc.FieldsAgree(s, 8);
  }

  /** A segment whose header has `n` words, laid out field by field, with its options and its data. */
  function Layout(srcPort: u16, destPort: u16, seqNo: u32, ackNo: u32, n: nat, reserved: nat, flags: byte,
                  window: u16, checksum: u16, urgent: u16, options: seq<byte>, data: seq<byte>): seq<byte>
    requires 5 <= n <= 15 && reserved < 16 && |options| == 4 * n - 20
  {
    Put16(srcPort) + Put16(destPort) + Put32(seqNo) + Put32(ackNo) + [16 * n + reserved, flags]
    + Put16(window) + Put16(checksum) + Put16(urgent) + options + data
  }

  /** Whatever options a segment has, they are not taken for data. */
  lemma LayoutReads(srcPort: u16, destPort: u16, seqNo: u32, ackNo: u32, n: nat, reserved: nat, flags: byte,
                    window: u16, checksum: u16, urgent: u16, options: seq<byte>, data: seq<byte>)
    requires 5 <= n <= 15 && reserved < 16 && |options| == 4 * n - 20 && |data| < 0x1_0000
    ensures var s := Layout(srcPort, destPort, seqNo, ackNo, n, reserved, flags, window, checksum, urgent,
                            options, data);
            && WellFormed(s) && OffsetInside(s)
            && SrcPort(s) == srcPort && DestPort(s) == destPort && SeqNo(s) == seqNo && AckNo(s) == ackNo
            && (HasSyn(s) <==> flags / 2 % 2 == 1) && (HasAck(s) <==> flags / 16 % 2 == 1)
            && Payload(s) == data
  {
    var s := Layout(srcPort, destPort, seqNo, ackNo, n, reserved, flags, window, checksum, urgent, options, data);
    hide Put16, Put32, Get16, Get32, Layout;
    LayoutParts(srcPort, destPort, seqNo, ackNo, n, reserved, flags, window, checksum, urgent, options, data);
    FieldReads(s, 0, Put16(srcPort));
    FieldReads(s, 2, Put16(destPort));
    FieldReads(s, 4, Put32(seqNo));
    FieldReads(s, 8, Put32(ackNo));
    RoundTrip16(srcPort, s, 0);
    RoundTrip16(destPort, s, 0);
    RoundTrip32(seqNo, s, 0);
    RoundTrip32(ackNo, s, 0);
    OffsetWords(n, reserved);
  }

  lemma LayoutParts(srcPort: u16, destPort: u16, seqNo: u32, ackNo: u32, n: nat, reserved: nat, flags: byte,
                    window: u16, checksum: u16, urgent: u16, options: seq<byte>, data: seq<byte>)
    requires 5 <= n <= 15 && reserved < 16 && |options| == 4 * n - 20
    ensures var s := Layout(srcPort, destPort, seqNo, ackNo, n, reserved, flags, window, checksum, urgent,
                            options, data);
            && |s| == 4 * n + |data| && s[4 * n..] == data
            && s[0..2] == Put16(srcPort) && s[2..4] == Put16(destPort)
            && s[4..8] == Put32(seqNo) && s[8..12] == Put32(ackNo)
            && s[12] == 16 * n + reserved && s[13] == flags
  {
    var s := Layout(srcPort, destPort, seqNo, ackNo, n, reserved, flags, window, checksum, urgent, options, data);
    hide Put16, Put32;
    var front := Put16(srcPort) + Put16(destPort) + Put32(seqNo) + Put32(ackNo) + [16 * n + reserved, flags];
    var header := front + Put16(window) + Put16(checksum) + Put16(urgent) + options;
    assert front[0..2] == Put16(srcPort) && front[2..4] == Put16(destPort);
    assert front[4..8] == Put32(seqNo) && front[8..12] == Put32(ackNo);
    assert front[12] == 16 * n + reserved && front[13] == flags;
    assert s == header + data;
    hide Layout;
    assert header[..14] == front;
    Within(s, 0, header, 0, 14);
    Within(s, 0, front, 0, 2);
    Within(s, 0, front, 2, 4);
    Within(s, 0, front, 4, 8);
    Within(s, 0, front, 8, 12);
    Within(s, 0, front, 12, 14);
    Within(s, 0, front, 13, 14);
  }

  lemma OffsetWords(n: nat, reserved: nat)
    requires reserved < 16
    ensures (16 * n + reserved) / 16 == n
  {
  }

  /** What RFC 793 says of a reply: five words, window 4096, nothing urgent. */
  lemma ReplyReads(src: Ipv4, dest: Ipv4, srcPort: u16, destPort: u16, seqNo: u32, ackNo: u32, flags: byte)
    ensures var s := Reply(src, dest, Leading(srcPort, destPort, seqNo, ackNo, flags));
            && |s| == 20
            && Rfc.Tcp(s) == Rfc.TcpHeader(srcPort, destPort, seqNo, ackNo, 5,
                 flags / 32 % 2 == 1, flags / 16 % 2 == 1, flags / 8 % 2 == 1, flags / 4 % 2 == 1,
                 flags / 2 % 2 == 1, flags % 2 == 1, 4096, Rfc.Tcp(s).checksum, 0)
            && (Rfc.SumsUp(Rfc.TransportSum(src, dest, 6, s))
                <==> !Carries(Covered(src, dest, Leading(srcPort, destPort, seqNo, ackNo, flags))))
  {
    var leading := Leading(srcPort, destPort, seqNo, ackNo, flags);
    var s := Reply(src, dest, leading);
    ReplyFields(src, dest, srcPort, destPort, seqNo, ackNo, flags);
    ReplyVerifies(src, dest, leading);
    Verifying(src, dest, s);
    assert leading[12] == 80;
    hide Sum16, Carries, Get16, Get32, Put16, Rfc.Four, Leading, BeWordSum, EndAround, Covered, TcpChecksum,
      PseudoHeader.Of;
    assert s[..16] == leading && s[12] == s[..16][12];
    assert s[18] == 0 && s[19] == 0;
    Rfc.FieldsAgree(s, 0);
    Rfc.FieldsAgree(s, 2);
    Rfc.FieldsAgree(s, 4);
    Rfc.FieldsAgree(s, 8);
    Rfc.FieldsAgree(s, 14);
  }

  /** Verifying under the pseudo header is the test of RFC 793. */
  lemma Verifying(src: Ipv4, dest: Ipv4, s: seq<byte>)
    requires |s| < 0x1_0000
    ensures Sum16(PseudoHeader.Of(src, dest, TCP, |s|) + s) == 0 <==> Rfc.SumsUp(Rfc.TransportSum(src, dest, 6, s))
  {
    hide Sum16, PseudoHeader.Of, BeWordSum, EndAround, Rfc.TransportSum;
    PseudoHeader.SumOf(src, dest, 6, |s|, s);
    VerificationExact(PseudoHeader.Of(src, dest, TCP, |s|) + s);
  }

  /** What a peer reads in a reply. */
  lemma ReplyFields(src: Ipv4, dest: Ipv4, srcPort: u16, destPort: u16, seqNo: u32, ackNo: u32, flags: byte)
    ensures var s := Reply(src, dest, Leading(srcPort, destPort, seqNo, ackNo, flags));
            && WellFormed(s) && OffsetInside(s)
            && SrcPort(s) == srcPort && DestPort(s) == destPort
            && SeqNo(s) == seqNo && AckNo(s) == ackNo
            && s[13] == flags && Get16(s, 14) == WINDOW_SIZE && Payload(s) == []
  {
    var leading := Leading(srcPort, destPort, seqNo, ackNo, flags);
    var c := TcpChecksum(SegmentWith(leading, 0), src, dest);
    assert Reply(src, dest, leading) == leading + (Put16(c) + [0, 0]);
    SegmentFields(srcPort, destPort, seqNo, ackNo, flags, Put16(c) + [0, 0]);
  }

  /** What the checksum of a reply covers, the field itself zero. */
  function Covered(src: Ipv4, dest: Ipv4, leading: seq<byte>): (s: seq<byte>)
    requires |leading| == 16
    ensures |s| == 32
  {
    PseudoHeader.Of(src, dest, TCP, HEADER) + SegmentWith(leading, 0)
  }

  /** A reply passes verification under its pseudo header exactly when its fold did not carry. */
  lemma {:induction false} ReplyVerifies(src: Ipv4, dest: Ipv4, leading: seq<byte>)
    requires |leading| == 16
    ensures Sum16(PseudoHeader.Of(src, dest, TCP, HEADER) + Reply(src, dest, leading)) == 0
            <==> !Carries(Covered(src, dest, leading))
  {
    var pseudo := PseudoHeader.Of(src, dest, TCP, HEADER);
    hide Sum16, Carries, Put16;
    forall c: u16
      ensures pseudo + SegmentWith(leading, c) == WithField(pseudo + leading, c, [0, 0])
    {
    }
    GenerateThenVerify(pseudo + leading, [0, 0]);
  }

  /** The carry is never far: for every pair of addresses and ports, acknowledgment number and flags there
      is a sequence number, below 2^31 as `rand()` draws it, with which the fold of a reply carries. */
  lemma CarryingSeqNo(src: Ipv4, dest: Ipv4, srcPort: u16, destPort: u16, ackNo: u32, flags: byte)
    returns (seqNo: u32)
    ensures seqNo < 0x8000_0000
    ensures Carries(Covered(src, dest, Leading(srcPort, destPort, seqNo, ackNo, flags)))
  {
    hide *;
    var rest := SumAround(src, dest, srcPort, destPort, ackNo, flags);
    var first, second := WordsFor(rest);
    seqNo := 0x1_0000 * Swap(first) as int + Swap(second);
    SumOfSeqNo(first, second);
    var covered := Covered(src, dest, Leading(srcPort, destPort, seqNo, ackNo, flags));
    SumOfCovered(src, dest, srcPort, destPort, seqNo, ackNo, flags);
    NoOverflow(covered);
    WrapIdentity(WordSum(covered));
    StoredWord(covered);
  }

  /** The word sum of everything covered but the sequence number. */
  function SumAround(src: Ipv4, dest: Ipv4, srcPort: u16, destPort: u16, ackNo: u32, flags: byte): (n: nat)
    ensures 0x600 <= n
  {
    ProtocolCounts(src, dest, Put16(srcPort) + Put16(destPort));
    WordSum(PseudoHeader.Of(src, dest, TCP, HEADER) + (Put16(srcPort) + Put16(destPort)))
    + WordSum(Put32(ackNo) + [HEADER / 4 * 16, flags] + Put16(WINDOW_SIZE) + (Put16(0) + [0, 0]))
  }

  lemma ProtocolCounts(src: Ipv4, dest: Ipv4, after: seq<byte>)
    ensures WordSum(PseudoHeader.Of(src, dest, TCP, HEADER) + after) >= 0x600
  {
    var addresses := Put32(src) + Put32(dest);
    WordSumConcat(addresses + [0, TCP] + Put16(HEADER), after);
    WordSumConcat(addresses + [0, TCP], Put16(HEADER));
    WordSumConcat(addresses, [0, TCP]);
    assert [0, TCP][2..] == [];
  }

  lemma SumOfCovered(src: Ipv4, dest: Ipv4, srcPort: u16, destPort: u16, seqNo: u32, ackNo: u32, flags: byte)
    ensures WordSum(Covered(src, dest, Leading(srcPort, destPort, seqNo, ackNo, flags))) ==
            SumAround(src, dest, srcPort, destPort, ackNo, flags) + WordSum(Put32(seqNo))
  {
    var pseudo, ports := PseudoHeader.Of(src, dest, TCP, HEADER), Put16(srcPort) + Put16(destPort);
    var tail := Put32(ackNo) + [HEADER / 4 * 16, flags] + Put16(WINDOW_SIZE);
    hide WordSum, Put16, Put32, PseudoHeader.Of;
    assert Leading(srcPort, destPort, seqNo, ackNo, flags) == ports + Put32(seqNo) + tail;
    Regrouped(pseudo, ports, Put32(seqNo), tail, Put16(0), [0, 0]);
    hide Leading;
    WordSumConcat(pseudo + ports + Put32(seqNo), tail + (Put16(0) + [0, 0]));
    WordSumConcat(pseudo + ports, Put32(seqNo));
  }

  lemma Regrouped(a: seq<byte>, b: seq<byte>, c: seq<byte>, d: seq<byte>, e: seq<byte>, f: seq<byte>)
    ensures a + (b + c + d + e + f) == (a + b + c) + (d + (e + f))
  {
  }

  /** Two words that bring a sum to one whose low half is all ones and whose high half is not zero. */
  lemma WordsFor(rest: nat) returns (first: u16, second: u16)
    requires 0x600 <= rest
    ensures first in {0, 0xff7f}
    ensures var n := rest + first + second; n / 0x1_0000 + n % 0x1_0000 >= 0x1_0000
  {
    var low := rest % 0x1_0000;
    if rest >= 0x1_0000 {
      first, second := 0, 0xffff - low;
      Digits16(rest / 0x1_0000, 0xffff);
    } else {
      first := 0xff7f;
      second := 0x1_ffff - 0xff7f - rest;
      Digits16(1, 0xffff);
    }
  }

  lemma Digits16(high: nat, low: u16)
    ensures (0x1_0000 * high + low) / 0x1_0000 == high && (0x1_0000 * high + low) % 0x1_0000 == low
  {
  }

  lemma SumOfSeqNo(first: u16, second: u16)
    ensures WordSum(Put32(0x1_0000 * Swap(first) as int + Swap(second))) == first as int + second
    ensures first in {0, 0xff7f} ==> 0x1_0000 * Swap(first) as int + Swap(second) < 0x8000_0000
  {
    hide *;
    SwapOctets(0xff, 0x7f);
    SwapOctets(0, 0);
    SumOfPut32(0x1_0000 * Swap(first) as int + Swap(second));
    Digits16(Swap(first), Swap(second));
    SwapComplement(first);
    SwapComplement(second);
  }
}
