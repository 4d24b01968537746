/** UDP (layers/L4/udp/UDP.cpp): validation by recomputing the checksum, and the upper-case echo. */
module Udp {
  import opened Bytes
  import opened Checksum
  import opened Protocol
  import Ipv4Format
  import Output
  import PseudoHeader
  import Rfc

  const DNS_PORT: u16 := 53

  /** The first three fields; the length is kept in 16 bits. */
  function Leading(srcPort: u16, destPort: u16, size: nat): (s: seq<byte>)
    ensures |s| == 6
  {
    Put16(srcPort) + Put16(destPort) + Put16((8 + size) % 0x1_0000)
  }

  /** The datagram `UDP::send` builds: no checksum. */
  function Datagram(srcPort: u16, destPort: u16, data: seq<byte>): (s: seq<byte>)
    ensures |s| == 8 + |data|
  {
    WithField(Leading(srcPort, destPort, |data|), 0, data)
  }

  function ToUpper(b: byte): byte {
    if 'a' as int <= b <= 'z' as int then b - 32 else b
  }

  function Upper(s: seq<byte>): (r: seq<byte>)
    ensures |r| == |s|
  {
    seq(|s|, i requires 0 <= i < |s| => ToUpper(s[i]))
  }

  /** The checksum the stack expects: over the pseudo header and the datagram with a zero checksum. */
  function Expected(buf: seq<byte>, src: Ipv4, dest: Ipv4): u16
    requires |buf| >= 8
  {
    Sum16(PseudoHeader.Of(src, dest, UDP, Get16(buf, 4)) + WithField(buf[..6], 0, buf[8..]))
  }

  datatype Outcome =
    | Thrown
    | ToDns(data: seq<byte>, srcPort: u16)
    | Echoed(datagram: seq<byte>)

  function Received(buf: seq<byte>, src: Ipv4, dest: Ipv4): Outcome
    requires |buf| >= 8
  {
    if Get16(buf, 4) != |buf| then Thrown
    else if Get16(buf, 6) != 0 && Expected(buf, src, dest) != Get16(buf, 6) then Thrown
    else if Get16(buf, 2) == DNS_PORT then ToDns(buf[8..], Get16(buf, 0))
    else Echoed(Datagram(Get16(buf, 2), Get16(buf, 0), Upper(buf[8..])))
  }

  class UdpLayer {
    const l3: Output.L3Layer

    constructor (l3: Output.L3Layer)
      ensures this.l3 == l3
    {
      this.l3 := l3;
    }

    method Send(data: seq<byte>, dest: Ipv4, destPort: u16, src: Ipv4, srcPort: u16, now: int)
      returns (datagram: seq<byte>)
      requires l3.arp.context == l3.context
      modifies l3.context
      ensures datagram == Datagram(srcPort, destPort, data)
      ensures l3.context.frames == old(l3.context.frames)
                + Output.Emitted(l3.context.host, l3.arp.cache, src, dest, UDP, datagram, now)
    {
      var buf := new byte[8 + |data|];
      CopyInto(buf, 0, Put16(srcPort));
      CopyInto(buf, 2, Put16(destPort));
      CopyInto(buf, 4, Put16((8 + |data|) % 0x1_0000));
      CopyInto(buf, 6, Put16(0));
      CopyInto(buf, 8, data);
      datagram := buf[..8 + |data|];
      l3.Send(src, dest, UDP, datagram, now);
    }

    /** Recomputes the checksum over the datagram, whose checksum field it has overwritten by zero. */
    method Expect(buf: array<byte>, src: Ipv4, dest: Ipv4) returns (checksum: u16)
      requires buf.Length >= 8
      modifies buf
      ensures checksum == Expected(old(buf[..]), src, dest)
      ensures buf[..] == WithField(old(buf[..6]), 0, old(buf[8..]))
    {
      ghost var was := buf[..];
      var length := Get16(buf[..], 4);
      CopyInto(buf, 6, Put16(0));
      assert buf[..] == buf[..8] + buf[8..] == WithField(was[..6], 0, was[8..]);
      checksum := Checksum16Be(PseudoHeader.Of(src, dest, UDP, length) + buf[..]);
    }

    /** The loop of the echo, on a copy of the data. */
    method Capitalize(data: array<byte>)
      modifies data
      ensures data[..] == Upper(old(data[..]))
    {
      for i := 0 to data.Length
        invariant forall j :: 0 <= j < i ==> data[j] == ToUpper(old(data[j]))
        invariant forall j :: i <= j < data.Length ==> data[j] == old(data[j])
      {
        if 'a' as int <= data[i] <= 'z' as int {
          data[i] := data[i] - 32;
        }
      }
    }

    method OnRecv(buf: array<byte>, src: Ipv4, dest: Ipv4, now: int) returns (r: Outcome)
      requires buf.Length >= 8 && l3.arp.context == l3.context
      modifies buf, l3.context
      ensures r == Received(old(buf[..]), src, dest)
      ensures l3.context.frames == old(l3.context.frames) +
                (if r.Echoed?
                 then Output.Emitted(l3.context.host, l3.arp.cache, dest, src, UDP, r.datagram, now)
                 else [])
    {
      ghost var was := buf[..];
      var length, destPort, srcPort := Get16(buf[..], 4), Get16(buf[..], 2), Get16(buf[..], 0);
      if length != buf.Length {
        return Thrown;
      }
      var checksum := Get16(buf[..], 6);
      if checksum != 0 {
        var expected := Expect(buf, src, dest);
        if expected != checksum {
          return Thrown;
        }
      }
      assert buf[8..] == was[8..];
      if destPort == DNS_PORT {
        return ToDns(buf[8..], srcPort);
      }
      var reply := new byte[buf.Length - 8];
      CopyInto(reply, 0, buf[8..]);
      assert reply[..] == reply[..buf.Length - 8] == was[8..];
      Capitalize(reply);
      var datagram := Send(reply[..], src, srcPort, dest, destPort, now);
      return Echoed(datagram);
    }
  }

  // ----- recomputing against verifying

  /** The source's test: a zero field means no checksum, any other must equal the recomputed value. */
  predicate RecomputedAccepts(before: seq<byte>, c: u16, after: seq<byte>) {
    c == 0 || Sum16(WithField(before, 0, after)) == c
  }

  /** The test of RFC 768 and section 1 of RFC 1071: the sum over everything must be all ones. */
  predicate VerifyingAccepts(before: seq<byte>, c: u16, after: seq<byte>) {
    c == 0 || Sum16(WithField(before, c, after)) == 0
  }

  /** The field values, given the datagram with a zero field, on which the two tests part: after a carry
      the value recomputed and the correct one; without a carry all ones, if the value computed is
      zero and was sent in that form as RFC 768 asks. */
  predicate Parting(zeroed: seq<byte>, c: u16) {
    if Carries(zeroed) then c == Sum16(zeroed) || c == Rfc1071(zeroed)
    else Sum16(zeroed) == 0 && c == 0xffff
  }

  /** Verifying accepts the correct checksum of RFC 1071, with zero and all ones taken for the same. */
  lemma VerifyingMeans(before: seq<byte>, c: u16, after: seq<byte>)
    requires |before| % 2 == 0 && |before| + 2 + |after| <= 0x2_0001 && c != 0
    ensures VerifyingAccepts(before, c, after) <==> c % 0xffff == Rfc1071(WithField(before, 0, after)) % 0xffff
  {
    var zeroed := WithField(before, 0, after);
    hide Sum16, WithField, BeWordSum, EndAround;
    VerificationExact(WithField(before, c, after));
    BeFieldSum(before, c, after);
    EndAroundResidue(BeWordSum(zeroed));
    EndAroundResidue(BeWordSum(zeroed) + c);
    ComplementResidue(BeWordSum(zeroed), EndAround(BeWordSum(zeroed)), c);
    OnesResidue(BeWordSum(zeroed) + c, EndAround(BeWordSum(zeroed) + c));
  }

  lemma BeFieldSum(before: seq<byte>, c: u16, after: seq<byte>)
    requires |before| % 2 == 0
    ensures BeWordSum(WithField(before, c, after)) == BeWordSum(WithField(before, 0, after)) + c
  {
    BeWordSumConcat(before + Put16(c), after);
    BeWordSumConcat(before + Put16(0), after);
    BeWordSumConcat(before, Put16(c));
    BeWordSumConcat(before, Put16(0));
    BeWordOf(c);
    BeWordOf(0);
  }

  lemma ComplementResidue(n: nat, e: u16, c: u16)
    requires e % 0xffff == n % 0xffff
    ensures (n + c) % 0xffff == 0 <==> c % 0xffff == (0xffff - e) % 0xffff
  {
    var k := e / 0xffff - n / 0xffff - 1;
    ResidueShift(n + c, k);
    assert c - (0xffff - e) == n + c + 0xffff * k;
    SameResidue(c, 0xffff - e);
  }

  lemma SameResidue(a: int, b: int)
    ensures (a - b) % 0xffff == 0 <==> a % 0xffff == b % 0xffff
  {
    ResidueShift(a % 0xffff - b % 0xffff, a / 0xffff - b / 0xffff);
    assert a - b == a % 0xffff - b % 0xffff + 0xffff * (a / 0xffff - b / 0xffff);
  }

  lemma OnesResidue(n: nat, e: u16)
    requires e % 0xffff == n % 0xffff && n > 0 && e != 0
    ensures e == 0xffff <==> n % 0xffff == 0
  {
  }

  /** The two tests differ on exactly these field values. */
  lemma {:induction false} PartCompany(before: seq<byte>, c: u16, after: seq<byte>)
    requires |before| % 2 == 0 && |before| + 2 + |after| <= 0x2_0001
    ensures RecomputedAccepts(before, c, after) != VerifyingAccepts(before, c, after)
            <==> Parting(WithField(before, 0, after), c)
  {
    var zeroed := WithField(before, 0, after);
    CorrectAgainstComputed(zeroed);
    if c != 0 {
      VerifyingMeans(before, c, after);
    }
    hide Sum16, Rfc1071, WithField, Carries;
    PartingValues(Carries(zeroed), Sum16(zeroed), Rfc1071(zeroed), c);
  }

  lemma PartingValues(carries: bool, computed: u16, correct: u16, c: u16)
    requires if carries then computed != 0 && correct != 0 && computed % 0xffff != correct % 0xffff
             else computed == correct
    ensures c != 0 && (computed == c) != (c % 0xffff == correct % 0xffff)
            <==> if carries then c == computed || c == correct else computed == 0 && c == 0xffff
  {
  }

  /** The computed value and the correct one: equal without a carry, otherwise neither zero nor the same
      modulo 65535. */
  lemma CorrectAgainstComputed(s: seq<byte>)
    requires |s| <= 0x2_0001
    ensures !Carries(s) ==> Sum16(s) == Rfc1071(s)
    ensures Carries(s) ==> Sum16(s) != 0 && Rfc1071(s) != 0 && Sum16(s) % 0xffff != Rfc1071(s) % 0xffff
  {
    hide Sum16, Carries, BeWordSum, EndAround, Swap;
    GenerationExact(s);
    VerificationExact(s);
    SuccessorsDiffer(Sum16(s), Rfc1071(s));
  }

  lemma SuccessorsDiffer(a: u16, b: u16)
    ensures Swap(a) == Swap(b) + 1 ==> a != 0 && a % 0xffff != b % 0xffff
  {
  }

  /** The two tests accept the same checksum fields exactly when the recomputation neither carries
      nor comes out as zero. */
  lemma {:induction false} TestsAgree(before: seq<byte>, after: seq<byte>)
    requires |before| % 2 == 0 && |before| + 2 + |after| <= 0x2_0001
    ensures var zeroed := WithField(before, 0, after);
            (forall c: u16 :: RecomputedAccepts(before, c, after) <==> VerifyingAccepts(before, c, after))
            <==> !Carries(zeroed) && Sum16(zeroed) != 0
  {
    var zeroed := WithField(before, 0, after);
    hide Sum16, Carries, WithField, RecomputedAccepts, VerifyingAccepts, Rfc1071;
    var parting := if Carries(zeroed) then Sum16(zeroed) else 0xffff;
    PartCompany(before, parting, after);
    forall c: u16
      ensures RecomputedAccepts(before, c, after) != VerifyingAccepts(before, c, after) <==> Parting(zeroed, c)
    {
      PartCompany(before, c, after);
    }
  }

  // ----- on datagrams

  /** What the checksum covers, up to its own field. */
  function Covered(buf: seq<byte>, src: Ipv4, dest: Ipv4): (s: seq<byte>)
    requires |buf| >= 8
    ensures |s| == 18
  {
    PseudoHeader.Of(src, dest, UDP, Get16(buf, 4)) + buf[..6]
  }

  /** A datagram is let through exactly when its length is right and the recomputation accepts its
      checksum field under the pseudo header. */
  lemma LetThrough(buf: seq<byte>, src: Ipv4, dest: Ipv4)
    requires |buf| >= 8
    ensures Received(buf, src, dest) != Thrown <==>
            Get16(buf, 4) == |buf| && RecomputedAccepts(Covered(buf, src, dest), Get16(buf, 6), buf[8..])
  {
    hide Sum16, Put16, PseudoHeader.Of;
    var pseudo := PseudoHeader.Of(src, dest, UDP, Get16(buf, 4));
    assert pseudo + WithField(buf[..6], 0, buf[8..]) == WithField(pseudo + buf[..6], 0, buf[8..]);
  }

  /** So a datagram of the right length meets the fate RFC 768 asks for except when its field is one of
      the parting values; and one that carries the correct checksum, not zero, is let through exactly
      when the recomputation does not carry. */
  lemma {:induction false} FateOfDatagram(buf: seq<byte>, src: Ipv4, dest: Ipv4)
    requires |buf| >= 8 && Get16(buf, 4) == |buf|
    ensures var before, c := Covered(buf, src, dest), Get16(buf, 6);
            var zeroed := WithField(before, 0, buf[8..]);
            && ((Received(buf, src, dest) != Thrown) == VerifyingAccepts(before, c, buf[8..])
                <==> !Parting(zeroed, c))
            && (c == Rfc1071(zeroed) && c != 0 ==> (Received(buf, src, dest) != Thrown <==> !Carries(zeroed)))
  {
    var before, c := Covered(buf, src, dest), Get16(buf, 6);
    var zeroed := WithField(before, 0, buf[8..]);
    LetThrough(buf, src, dest);
    PartCompany(before, c, buf[8..]);
    GenerationExact(zeroed);
    hide Sum16, Carries, WithField, Rfc1071, Received, Covered, VerifyingAccepts, Parting;
  }

  // ----- against RFC 768

  /** A receiver of RFC 768: the length is that of the datagram, and either there is no checksum or the
      sum, with the pseudo header, is right. */
  predicate Rfc768Accepts(s: seq<byte>, source: u32, destination: u32)
    requires |s| >= 8
  {
    && Rfc.Udp(s).length == |s|
    && (Rfc.Udp(s).checksum == 0 || Rfc.SumsUp(Rfc.TransportSum(source, destination, 17, s)))
  }

  /** `on_recv` in the terms of RFC 768.  It accepts what a receiver of RFC 768 accepts except when the
      checksum is one of the parting values, and what it accepts goes to DNS if it is for port 53; any
      other is echoed, from that port to the source port, without a checksum, each letter the capital. */
  lemma {:induction false} ReceivedMeans(buf: seq<byte>, src: Ipv4, dest: Ipv4)
    requires |buf| >= 8
    ensures var h, r := Rfc.Udp(buf), Received(buf, src, dest);
            && ((r != Thrown) == Rfc768Accepts(buf, src, dest) <==>
                  h.length != |buf| || !Parting(WithField(Covered(buf, src, dest), 0, buf[8..]), h.checksum))
            && (r.ToDns? ==> h.destination == 53 && r.data == buf[8..] && r.srcPort == h.source)
            && (r.Echoed? ==>
                  && h.destination != 53 && |r.datagram| == |buf|
                  && Rfc.Udp(r.datagram) == Rfc.UdpHeader(h.destination, h.source, h.length, 0)
                  && Rfc.SameText(buf[8..], r.datagram[8..]) && Rfc.NoSmallLetters(r.datagram[8..]))
  {
    Rfc.FieldsAgree(buf, 0);
    Rfc.FieldsAgree(buf, 2);
    Rfc.FieldsAgree(buf, 4);
    Rfc.FieldsAgree(buf, 6);
    hide Get16, Rfc.Two, Sum16, Carries, BeWordSum, EndAround, PseudoHeader.Of;
    if Get16(buf, 4) == |buf| {
      VerifyingIsRfc768(buf, src, dest);
      FateOfDatagram(buf, src, dest);
    }
    var r := Received(buf, src, dest);
    if r.Echoed? {
      DatagramFields(Get16(buf, 2), Get16(buf, 0), Upper(buf[8..]));
      UpperMeans(buf[8..]);
      Rfc.FieldsAgree(r.datagram, 0);
      Rfc.FieldsAgree(r.datagram, 2);
      Rfc.FieldsAgree(r.datagram, 4);
      Rfc.FieldsAgree(r.datagram, 6);
    }
    hide Parting, Covered, VerifyingAccepts, Rfc768Accepts, Upper, Datagram;
  }

  /** Upper case: the same text without small letters. */
  lemma UpperMeans(s: seq<byte>)
    ensures Rfc.SameText(s, Upper(s)) && Rfc.NoSmallLetters(Upper(s))
  {
  }

  /** Verifying under the pseudo header is the test of RFC 768. */
  lemma VerifyingIsRfc768(buf: seq<byte>, src: Ipv4, dest: Ipv4)
    requires |buf| >= 8 && Get16(buf, 4) == |buf|
    ensures VerifyingAccepts(Covered(buf, src, dest), Get16(buf, 6), buf[8..]) <==> Rfc768Accepts(buf, src, dest)
  {
    var pseudo := PseudoHeader.Of(src, dest, UDP, Get16(buf, 4));
    Rfc.FieldsAgree(buf, 4);
    Rfc.FieldsAgree(buf, 6);
    RoundTrip16(0, buf, 6);
    PseudoHeader.SumOf(src, dest, 17, |buf|, buf);
    hide Sum16, Put16, Get16, Rfc.Two, PseudoHeader.Of, BeWordSum, EndAround;
    assert buf == buf[..6] + buf[6..8] + buf[8..];
    assert WithField(Covered(buf, src, dest), Get16(buf, 6), buf[8..]) == pseudo + buf;
    VerificationExact(pseudo + buf);
  }

  // ----- datagrams sent as RFC 768 asks

  /** Everything the checksum covers before the data, the field itself zero. */
  function UpToData(src: Ipv4, dest: Ipv4, srcPort: u16, destPort: u16, size: nat): (s: seq<byte>)
    requires 8 + size < 0x1_0000
    ensures |s| == 20
  {
    PseudoHeader.Of(src, dest, UDP, 8 + size) + Leading(srcPort, destPort, size) + Put16(0)
  }

  /** The field a sender fills in: the correct checksum, and all ones if that is zero. */
  function Rfc768Field(covered: seq<byte>): u16 {
    if Rfc1071(covered) == 0 then 0xffff else Rfc1071(covered)
  }

  function Rfc768Datagram(src: Ipv4, dest: Ipv4, srcPort: u16, destPort: u16, data: seq<byte>): (s: seq<byte>)
    requires 8 + |data| < 0x1_0000
    ensures |s| == 8 + |data|
  {
    WithField(Leading(srcPort, destPort, |data|),
              Rfc768Field(UpToData(src, dest, srcPort, destPort, |data|) + data), data)
  }

  lemma FieldsWithChecksum(srcPort: u16, destPort: u16, c: u16, data: seq<byte>)
    requires 8 + |data| < 0x1_0000
    ensures var s := WithField(Leading(srcPort, destPort, |data|), c, data);
            && Get16(s, 0) == srcPort && Get16(s, 2) == destPort && Get16(s, 4) == |s| && Get16(s, 6) == c
            && s[..6] == Leading(srcPort, destPort, |data|) && s[8..] == data
  {
    var s := WithField(Leading(srcPort, destPort, |data|), c, data);
    hide Put16, Get16;
    assert s[0..2] == Put16(srcPort) && s[2..4] == Put16(destPort);
    assert s[4..6] == Put16(8 + |data|) && s[6..8] == Put16(c);
    FieldReads(s, 0, Put16(srcPort));
    FieldReads(s, 2, Put16(destPort));
    FieldReads(s, 4, Put16(8 + |data|));
    FieldReads(s, 6, Put16(c));
    RoundTrip16(srcPort, s, 0);
    RoundTrip16(destPort, s, 0);
    RoundTrip16(8 + |data|, s, 0);
    RoundTrip16(c, s, 0);
  }

  /** A datagram sent as RFC 768 asks is let through exactly when the recomputation neither carries nor
      comes out as zero. */
  lemma {:induction false} Rfc768Fate(src: Ipv4, dest: Ipv4, srcPort: u16, destPort: u16, data: seq<byte>)
    requires 8 + |data| < 0x1_0000
    ensures var covered := UpToData(src, dest, srcPort, destPort, |data|) + data;
            Received(Rfc768Datagram(src, dest, srcPort, destPort, data), src, dest) != Thrown
            <==> !Carries(covered) && Rfc1071(covered) != 0
  {
    var buf := Rfc768Datagram(src, dest, srcPort, destPort, data);
    var before := PseudoHeader.Of(src, dest, UDP, 8 + |data|) + Leading(srcPort, destPort, |data|);
    var zeroed := WithField(before, 0, data);
    FieldsWithChecksum(srcPort, destPort, Rfc768Field(zeroed), data);
    assert Covered(buf, src, dest) == before;
    hide *;
    FieldParts(zeroed);
    VerifyingMeans(before, Rfc768Field(zeroed), data);
    FateOfDatagram(buf, src, dest);
  }

  /** Verifying accepts such a field, and whether the two tests part on it is settled by the sum. */
  lemma FieldParts(zeroed: seq<byte>)
    requires |zeroed| <= 0x2_0001
    ensures var c := Rfc768Field(zeroed);
            && c != 0 && c % 0xffff == Rfc1071(zeroed) % 0xffff
            && (!Parting(zeroed, c) <==> !Carries(zeroed) && Rfc1071(zeroed) != 0)
  {
    hide Sum16, Carries, Rfc1071;
    CorrectAgainstComputed(zeroed);
  }

  /** Both kinds of refusal happen between any two ports of any two hosts: to the datagram whose six
      bytes of data make the fold carry, though its field is the correct checksum, and to the one whose
      two bytes make that checksum zero, sent as all ones. */
  lemma Rfc768CanBeRefused(src: Ipv4, dest: Ipv4, srcPort: u16, destPort: u16)
    ensures var data := Filler(WordSum(UpToData(src, dest, srcPort, destPort, 6)));
            var covered := UpToData(src, dest, srcPort, destPort, |data|) + data;
            var buf := Rfc768Datagram(src, dest, srcPort, destPort, data);
            Get16(buf, 6) == Rfc1071(covered) != 0 && Received(buf, src, dest) == Thrown
    ensures var data := Completer(WordSum(UpToData(src, dest, srcPort, destPort, 2)));
            var covered := UpToData(src, dest, srcPort, destPort, |data|) + data;
            var buf := Rfc768Datagram(src, dest, srcPort, destPort, data);
            Get16(buf, 6) == 0xffff && Rfc1071(covered) == 0 && Received(buf, src, dest) == Thrown
  {
    hide Sum16, Carries, Rfc1071, Received, Leading, UpToData, Get16, WordSum, Filler, Completer, WithField;
    var carrying := UpToData(src, dest, srcPort, destPort, 6);
    var completed := UpToData(src, dest, srcPort, destPort, 2);
    var data, data2 := Filler(WordSum(carrying)), Completer(WordSum(completed));
    FilledCarries(carrying);
    CorrectAgainstComputed(carrying + data);
    CompletedIsZero(completed);
    FieldsWithChecksum(srcPort, destPort, Rfc768Field(carrying + data), data);
    FieldsWithChecksum(srcPort, destPort, Rfc768Field(completed + data2), data2);
    Rfc768Fate(src, dest, srcPort, destPort, data);
    Rfc768Fate(src, dest, srcPort, destPort, data2);
  }

  // ----- the echo, end to end

  lemma DatagramFields(srcPort: u16, destPort: u16, data: seq<byte>)
    requires 8 + |data| < 0x1_0000
    ensures var s := Datagram(srcPort, destPort, data);
            && Get16(s, 0) == srcPort && Get16(s, 2) == destPort
            && Get16(s, 4) == |s| && Get16(s, 6) == 0 && s[8..] == data
  {
    FieldsWithChecksum(srcPort, destPort, 0, data);
  }

  /** A client sends `data` from one port to another, not port 53, of a server; all of it fits one
      packet.  If the header carries, the server's stack throws the packet away.  Otherwise it delivers
      the datagram to its UDP, which answers with the upper-case image of the data, ports and addresses
      exchanged, and the answer arrives at the client with exactly that content. */
  lemma EchoEndToEnd(client: Ipv4, server: Ipv4, srcPort: u16, destPort: u16, data: seq<byte>)
    requires 8 + |data| < 0x1_0000 && destPort != DNS_PORT
    ensures var request, reply := Datagram(srcPort, destPort, data), Datagram(destPort, srcPort, Upper(data));
            var there := Ipv4Format.Received(Ipv4Format.Packet(client, server, UDP, request));
            var back := Ipv4Format.Received(Ipv4Format.Packet(server, client, UDP, reply));
            && Received(request, client, server) == Echoed(reply)
            && reply[8..] == Upper(data) && Get16(reply, 0) == destPort && Get16(reply, 2) == srcPort
            && if Carries(Ipv4Format.ZeroedHeader(client, server, UDP, 8 + |data|))
               then there == back == Ipv4Format.Thrown
               else there == Ipv4Format.ToL4(request, client, server, UDP)
                    && back == Ipv4Format.ToL4(reply, server, client, UDP)
  {
    hide Carries, Get16, Upper, Datagram, Ipv4Format.Packet, Ipv4Format.Received, Expected;
    var request, reply := Datagram(srcPort, destPort, data), Datagram(destPort, srcPort, Upper(data));
    DatagramFields(srcPort, destPort, data);
    DatagramFields(destPort, srcPort, Upper(data));
    Ipv4Format.ReplyHeaderCarriesAlike(client, server, UDP, 8 + |data|);
    Ipv4Format.SendReceive(client, server, UDP, request);
    Ipv4Format.SendReceive(server, client, UDP, reply);
  }
}
