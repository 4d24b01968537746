/** The authoritative answerer `DNS::on_recv` (layers/L7/DNS.cpp:8-102). */
module Dns {
  import opened Bytes
  import opened Options
  import opened DnsName
  import DnsParser
  import Rfc

  const TYPE_CNAME: u16 := 5
  const CLASS_IN: u16 := 1
  const TTL: u32 := 60

  /** One entry of the multimap: its key, and the data whose length is kept in 16 bits. */
  datatype Entry = Entry(kind: u16, name: seq<byte>, rdata: seq<byte>)

  type Record = e: Entry | |e.rdata| < 0x1_0000 witness Entry(0, [], [])

  /** The records of a key, in the order of the table. */
  function Select(records: seq<Record>, kind: u16, name: seq<byte>): (r: seq<Record>) {
    if records == [] then []
    else
      var rest := Select(records[1..], kind, name);
      if records[0].kind == kind && records[0].name == name then [records[0]] + rest else rest
  }

  /** The records asked for, or else the aliases of the name. */
  function Answers(records: seq<Record>, kind: u16, name: seq<byte>): seq<Record> {
    var direct := Select(records, kind, name);
    if direct != [] then direct else Select(records, TYPE_CNAME, name)
  }

  // ----- the request

  function Reads(packet: seq<byte>): Reading
    requires |packet| >= 12
  {
    Unwire(packet[12..])
  }

  predicate IsQuery(packet: seq<byte>)
    requires |packet| >= 12
  {
    packet[2] / 128 == 0 && Get16(packet, 4) == 1
  }

  /** What the source relies on without checking: a query's name has a label and fits the 512 bytes
      set aside for it, and its question ends inside the packet. */
  predicate Expected(packet: seq<byte>) {
    && 12 <= |packet|
    && (IsQuery(packet) ==>
          && Reads(packet).Read? && Reads(packet).name.Label? && Reads(packet).length <= 512
          && 12 + Reads(packet).length + 4 <= |packet|)
  }

  function QuestionEnd(packet: seq<byte>): nat
    requires Expected(packet) && IsQuery(packet)
  {
    12 + Reads(packet).length + 4
  }

  function QType(packet: seq<byte>): u16
    requires Expected(packet) && IsQuery(packet)
  {
    Get16(packet, 12 + Reads(packet).length)
  }

  function QClass(packet: seq<byte>): u16
    requires Expected(packet) && IsQuery(packet)
  {
    Get16(packet, 12 + Reads(packet).length + 2)
  }

  /** The C string the question comes to after decoding and lowercasing. */
  function Key(packet: seq<byte>): seq<byte>
    requires Expected(packet) && IsQuery(packet)
  {
    Lower(CString(Join(Reads(packet).name) + [0]))
  }

  function Selected(records: seq<Record>, packet: seq<byte>): seq<Record>
    requires Expected(packet) && IsQuery(packet)
  {
    Answers(records, QType(packet), Key(packet))
  }

  // ----- the response

  function ResourceBytes(r: Record): (s: seq<byte>)
    ensures |s| == 12 + |r.rdata|
  {
    [0xc0, 0x0c] + Put16(r.kind) + Put16(CLASS_IN) + Put32(TTL) + Put16(|r.rdata|) + r.rdata
  }

  function AnswerSection(rs: seq<Record>): seq<byte> {
    if rs == [] then [] else ResourceBytes(rs[0]) + AnswerSection(rs[1..])
  }

  /** The bit fields qr and aa of the first flag octet. */
  function SetQr(b: byte): byte {
    128 + b % 128
  }

  function SetAa(b: byte): byte {
    b / 8 * 8 + 4 + b % 4
  }

  /** Setting QR and AA changes no other bit of the octet. */
  lemma FlagsRead(b: byte)
    ensures var c := SetAa(SetQr(b));
            && c / 128 == 1 && c / 8 % 16 == b / 8 % 16 && c / 4 % 2 == 1
            && c / 2 % 2 == b / 2 % 2 && c % 2 == b % 2
  {
    var high: nat, low: nat := b / 8, b % 8;
    hide SetQr, SetAa;
    AfterQr(high, low);
    AfterAa(high % 16, low);
    Eights(high, low);
  }

  lemma AfterQr(high: nat, low: nat)
    requires high < 32 && low < 8
    ensures SetQr(8 * high + low) == 8 * (16 + high % 16) + low
  {
  }

  lemma AfterAa(mid: nat, low: nat)
    requires mid < 16 && low < 8
    ensures var c := SetAa(8 * (16 + mid) + low);
            && c / 128 == 1 && c / 8 % 16 == mid && c / 4 % 2 == 1
            && c / 2 % 2 == low / 2 % 2 && c % 2 == low % 2
  {
    WithAa(16 + mid, low);
    hide SetAa;
    Eights(16 + mid, 4 + low % 4);
    Sixteens(1, mid);
  }

  lemma WithAa(high: nat, low: nat)
    requires high < 32 && low < 8
    ensures SetAa(8 * high + low) == 8 * high + (4 + low % 4)
  {
    Eights(high, low);
  }

  lemma Eights(high: nat, low: nat)
    requires low < 8
    ensures var c := 8 * high + low;
            && c / 8 == high && c / 4 % 2 == low / 4 && c % 4 == low % 4
            && c / 2 % 2 == low / 2 % 2 && c % 2 == low % 2
  {
    Fours(2 * high + low / 4, low % 4);
    Twos(high, low / 4);
    Twos(4 * high + low / 2, low % 2);
    Twos(2 * high + low / 4, low / 2 % 2);
  }

  lemma Fours(high: nat, low: nat)
    requires low < 4
    ensures (4 * high + low) / 4 == high && (4 * high + low) % 4 == low
  {
  }

  lemma Twos(high: nat, low: nat)
    requires low < 2
    ensures (2 * high + low) / 2 == high && (2 * high + low) % 2 == low
  {
  }

  /** The header of an answer: QR and AA set, the counts replaced, everything else as in the request. */
  function AnswerHeader(packet: seq<byte>, count: nat): (s: seq<byte>)
    requires |packet| >= 12
    ensures |s| == 12
  {
    packet[..2] + [SetAa(SetQr(packet[2])), packet[3]] + packet[4..6]
    + Put16(count % 0x1_0000) + [0, 0, 0, 0]
  }

  function Answered(packet: seq<byte>, rs: seq<Record>): seq<byte>
    requires Expected(packet) && IsQuery(packet)
  {
    AnswerHeader(packet, |rs|) + packet[12..QuestionEnd(packet)] + AnswerSection(rs)
  }

  /** Nothing found: the request comes back with QR set and RCODE zero. */
  function Echoed(packet: seq<byte>): (s: seq<byte>)
    requires |packet| >= 12
    ensures |s| == |packet| && forall j :: 0 <= j < |s| && j !in {2, 3} ==> s[j] == packet[j]
    ensures s[2] / 128 == 1 && s[2] % 128 == packet[2] % 128
    ensures s[3] % 16 == 0 && s[3] / 16 == packet[3] / 16
  {
    packet[2 := SetQr(packet[2])][3 := packet[3] / 16 * 16]
  }

  datatype Outcome = Thrown | Responded(response: seq<byte>)

  function Respond(records: seq<Record>, packet: seq<byte>): Outcome
    requires Expected(packet)
  {
    if !IsQuery(packet) then Thrown
    else if QClass(packet) != CLASS_IN then Thrown
    else
      var rs := Selected(records, packet);
      Responded(if rs == [] then Echoed(packet) else Answered(packet, rs))
  }

  /** The response fits its buffer; the source writes past the end otherwise. */
  predicate Fits(records: seq<Record>, packet: seq<byte>)
    requires Expected(packet)
  {
    IsQuery(packet) && QClass(packet) == CLASS_IN ==>
      var rs := Selected(records, packet);
      if rs == [] then |packet| <= 512 else QuestionEnd(packet) + |AnswerSection(rs)| <= 512
  }

  // ----- the layer

  /** The arguments of one `UDP_send`. */
  datatype Sent = Sent(payload: seq<byte>, dest: Ipv4, destPort: u16, src: Ipv4, srcPort: u16)

  class DnsLayer {
    const records: seq<Record>
    var sent: seq<Sent>

    constructor (records: seq<Record>)
      ensures this.records == records && sent == []
    {
      this.records := records;
      sent := [];
    }

    /** Puts a resource record after what `buf` holds, field by field. */
    method Append(buf: array<byte>, size: nat, r: Record)
      requires size + 12 + |r.rdata| <= buf.Length
      modifies buf
      ensures buf[..size + 12 + |r.rdata|] == old(buf[..size]) + ResourceBytes(r)
    {
      hide Put16, Put32;
      CopyInto(buf, size, [0xc0, 0x0c]);
      CopyInto(buf, size + 2, Put16(r.kind));
      CopyInto(buf, size + 4, Put16(CLASS_IN));
      CopyInto(buf, size + 6, Put32(TTL));
      CopyInto(buf, size + 10, Put16(|r.rdata|));
      CopyInto(buf, size + 12, r.rdata);
    }

    /** Turns the header of the request into that of an answer, the count still zero. */
    method RewriteHeader(buf: array<byte>, ghost packet: seq<byte>)
      requires 12 <= buf.Length && 12 <= |packet| && buf[..12] == packet[..12]
      modifies buf
      ensures buf[..12] == AnswerHeader(packet, 0) && buf[12..] == old(buf[12..])
    {
      HeaderOctets(packet);
      hide *;
      assert forall j :: 0 <= j < 12 ==> buf[j] == buf[..12][j] == packet[..12][j] == packet[j];
      buf[2] := SetQr(buf[2]);
      buf[2] := SetAa(buf[2]);
      buf[6], buf[7] := 0, 0;                             // ancount
      buf[10], buf[11] := 0, 0;                           // arcount
      buf[8], buf[9] := 0, 0;                             // nscount
    }

    /** Copies the request up to the end of its question and makes its header that of an answer. */
    method StartAnswer(buf: array<byte>, packet: seq<byte>, end: nat)
      requires 12 <= end <= |packet| && end <= buf.Length
      modifies buf
      ensures buf[..end] == AnswerHeader(packet, 0) + packet[12..end]
    {
      hide *;
      CopyInto(buf, 0, packet[..end]);
      assert buf[..end] == packet[..end];
      assert buf[..12] == buf[..end][..12] == packet[..12];
      assert buf[12..][..end - 12] == buf[..end][12..] == packet[12..end];
      RewriteHeader(buf, packet);
      assert buf[..end] == buf[..12] + buf[12..][..end - 12];
    }

    /** One more answer in the header. */
    method CountUp(buf: array<byte>, packet: seq<byte>, ghost i: nat)
      requires buf.Length == 512 && |packet| >= 12 && buf[..12] == AnswerHeader(packet, i)
      modifies buf
      ensures buf[..12] == AnswerHeader(packet, i + 1) && buf[12..] == old(buf[12..])
    {
      ghost var was := buf[..12];
      CountOf(packet, i);
      CountWraps(i);
      hide Put16;
      var count := Get16(buf[..12], 6);
      CopyInto(buf, 6, Put16((count as int + 1) % 0x1_0000));
      assert buf[..8] == was[..6] + Put16((i + 1) % 0x1_0000);
      assert buf[..12] == buf[..8] + was[8..];
    }

    /** The loop over the selected records. */
    method AppendAll(buf: array<byte>, packet: seq<byte>, end: nat, rs: seq<Record>) returns (size: nat)
      requires buf.Length == 512 && 12 <= end <= |packet| && end + |AnswerSection(rs)| <= 512
      requires buf[..end] == AnswerHeader(packet, 0) + packet[12..end]
      modifies buf
      ensures size == end + |AnswerSection(rs)|
      ensures buf[..size] == AnswerHeader(packet, |rs|) + (packet[12..end] + AnswerSection(rs))
    {
      hide Put16, Put32, AnswerHeader, ResourceBytes, AnswerSection;
      size := end;
      ghost var body := packet[12..end] + AnswerSection(rs);
      assert buf[..12] == buf[..end][..12] && buf[12..end] == buf[..end][12..];
      assert rs[0..] == rs;
      for i := 0 to |rs|
        invariant 12 <= size
        invariant size + |AnswerSection(rs[i..])| == end + |AnswerSection(rs)|
        invariant buf[..12] == AnswerHeader(packet, i)
        invariant buf[12..size] + AnswerSection(rs[i..]) == body
      {
        SectionFrom(rs, i);
        ghost var front, rest := buf[12..size], AnswerSection(rs[i + 1..]);
        assert front + (ResourceBytes(rs[i]) + rest) == front + ResourceBytes(rs[i]) + rest;
        CountUp(buf, packet, i);
        assert buf[12..size] == buf[12..][..size - 12] == front;
        Append(buf, size, rs[i]);
        size := size + 12 + |rs[i].rdata|;
        assert buf[..12] == buf[..size][..12];
        assert buf[12..size] == buf[..size][12..] == front + ResourceBytes(rs[i]);
      }
      NoSection(rs);
      assert buf[..size] == buf[..12] + buf[12..size];
    }

    /** Decodes and lowercases the name of the question. */
    method QueryName(packet: seq<byte>) returns (name: seq<byte>, dataPtr: nat)
      requires Expected(packet) && IsQuery(packet)
      ensures name == Key(packet) && dataPtr == 12 + Reads(packet).length - 1
    {
      var queryName := new byte[512];
      var ptr, at := Decode(packet[12..], queryName);
      dataPtr := 12 + at;
      ghost var text := Join(Reads(packet).name) + [0];
      assert queryName[..ptr] == text;
      assert queryName[|text| - 1] == text[|text| - 1];
      SamePrefix(queryName[..], text);
      LowerInPlace(queryName);
      name := CString(queryName[..]);
    }

    method BuildAnswer(packet: seq<byte>, end: nat, rs: seq<Record>) returns (response: seq<byte>)
      requires Expected(packet) && IsQuery(packet) && end == QuestionEnd(packet)
      requires end + |AnswerSection(rs)| <= 512
      ensures response == Answered(packet, rs)
    {
      hide AnswerHeader, AnswerSection;
      var buf := new byte[512];
      StartAnswer(buf, packet, end);
      var size := AppendAll(buf, packet, end, rs);
      response := buf[..size];
      assert AnswerHeader(packet, |rs|) + (packet[12..end] + AnswerSection(rs))
          == AnswerHeader(packet, |rs|) + packet[12..end] + AnswerSection(rs);
    }

    method BuildEcho(packet: seq<byte>) returns (response: seq<byte>)
      requires 12 <= |packet| <= 512
      ensures response == Echoed(packet)
    {
      var buf := new byte[512];
      CopyInto(buf, 0, packet);
      buf[2] := SetQr(buf[2]);
      buf[3] := buf[3] / 16 * 16;
      response := buf[..|packet|];
    }

    /** `DNS::on_recv`. */
    method OnRecv(packet: seq<byte>, srcAddr: Ipv4, srcPort: u16, destAddr: Ipv4, destPort: u16)
      returns (thrown: bool)
      requires Expected(packet) && Fits(records, packet)
      modifies this
      ensures thrown <==> Respond(records, packet).Thrown?
      ensures sent == old(sent) +
                match Respond(records, packet)
                case Thrown => []
                case Responded(response) => [Sent(response, srcAddr, srcPort, destAddr, destPort)]
    {
      hide Key, Answered, Echoed, AnswerSection;
      if packet[2] / 128 != 0 {
        return true;
      }
      if Get16(packet, 4) != 1 {
        return true;
      }
      var name, dataPtr := QueryName(packet);
      var qtype, qclass := Get16(packet, dataPtr + 1), Get16(packet, dataPtr + 3);
      if qclass != CLASS_IN {
        return true;
      }
      var range := Select(records, qtype, name);
      var response;
      if range == [] {
        var cnameRange := Select(records, TYPE_CNAME, name);
        if cnameRange != [] {
          range := cnameRange;
        } else {
          response := BuildEcho(packet);
          sent := sent + [Sent(response, srcAddr, srcPort, destAddr, destPort)];
          return false;
        }
      }
      response := BuildAnswer(packet, dataPtr + 5, range);
      sent := sent + [Sent(response, srcAddr, srcPort, destAddr, destPort)];
      return false;
    }
  }

  lemma HeaderOctets(packet: seq<byte>)
    requires |packet| >= 12
    ensures AnswerHeader(packet, 0) ==
            [packet[0], packet[1], SetAa(SetQr(packet[2])), packet[3], packet[4], packet[5], 0, 0, 0, 0, 0, 0]
  {
    assert Put16(0) == [0, 0];
    hide SetQr, SetAa, Put16;
  }

  lemma SectionFrom(rs: seq<Record>, i: nat)
    requires i < |rs|
    ensures AnswerSection(rs[i..]) == ResourceBytes(rs[i]) + AnswerSection(rs[i + 1..])
  {
    assert rs[i..][1..] == rs[i + 1..];
  }

  lemma NoSection(rs: seq<Record>)
    ensures AnswerSection(rs[|rs|..]) == []
  {
  }

  lemma CountOf(packet: seq<byte>, i: nat)
    requires |packet| >= 12
    ensures Get16(AnswerHeader(packet, i), 6) == i % 0x1_0000
  {
    hide Put16, Get16, SetQr, SetAa;
    var h := AnswerHeader(packet, i);
    assert h[6..8] == Put16(i % 0x1_0000);
    hide AnswerHeader;
    FieldReads(h, 6, Put16(i % 0x1_0000));
    RoundTrip16(i % 0x1_0000, h, 6);
  }

  lemma CountWraps(i: nat)
    ensures (i % 0x1_0000 + 1) % 0x1_0000 == (i + 1) % 0x1_0000
  {
  }

  lemma {:induction false} SamePrefix(s: seq<byte>, text: seq<byte>)
    requires text <= s && 0 in text
    ensures CString(s) == CString(text) && 0 in s
  {
    if text[0] != 0 {
      SamePrefix(s[1..], text[1..]);
    }
    assert forall i :: 0 <= i < |text| ==> text[i] == s[i];
  }

  // ----- what the answers are

  predicate Keyed(r: Record, kind: u16, name: seq<byte>) {
    r.kind == kind && r.name == name
  }

  /** Selection keeps exactly the records of the key, as often as the table has them. */
  lemma {:induction false} SelectMeaning(records: seq<Record>, kind: u16, name: seq<byte>, r: Record)
    ensures multiset(Select(records, kind, name))[r] == if Keyed(r, kind, name) then multiset(records)[r] else 0
  {
    if records != [] {
      SelectMeaning(records[1..], kind, name, r);
      assert records == [records[0]] + records[1..];
    }
  }

  /** The answer set: every record keyed by the type asked for and the lowercase name if there is one,
      else every alias of the name, and nothing else; with neither the request is echoed. */
  lemma {:induction false} LookupMeaning(records: seq<Record>, packet: seq<byte>, r: Record)
    requires Expected(packet) && IsQuery(packet) && QClass(packet) == 1
    ensures var kind, name, rs := QType(packet), Key(packet), Selected(records, packet);
            var aliased := Keyed(r, 5, name) && !exists d :: d in records && Keyed(d, kind, name);
            && (r in rs <==> r in records && (Keyed(r, kind, name) || aliased))
            && (r in rs ==> multiset(rs)[r] == multiset(records)[r])
            && Respond(records, packet) == Responded(if rs == [] then Echoed(packet) else Answered(packet, rs))
  {
    var kind, name := QType(packet), Key(packet);
    hide Key, QType, Expected, Answered, Echoed, IsQuery;
    forall d: Record
      ensures d in Select(records, kind, name) <==> d in records && Keyed(d, kind, name)
    {
      InMultiset(records, kind, name, d);
    }
    var direct := Select(records, kind, name);
    assert direct != [] ==> direct[0] in direct;
    InMultiset(records, TYPE_CNAME, name, r);
    SelectMeaning(records, kind, name, r);
    SelectMeaning(records, TYPE_CNAME, name, r);
  }

  lemma InMultiset(records: seq<Record>, kind: u16, name: seq<byte>, r: Record)
    ensures r in Select(records, kind, name) <==> r in records && Keyed(r, kind, name)
  {
    SelectMeaning(records, kind, name, r);
    assert r in Select(records, kind, name) <==> r in multiset(Select(records, kind, name));
    assert r in records <==> r in multiset(records);
  }

  /** The record is of this type and registered, without capitals, under the name. */
  predicate Registered(r: Record, kind: u16, name: Name) {
    r.kind == kind && Rfc.NoCapitals(r.name) && SameIgnoringCase(name, Split(r.name))
  }

  lemma KeyedIsRegistered(r: Record, kind: u16, name: Name)
    requires name.Label?
    ensures Keyed(r, kind, Lower(CString(Join(name) + [0]))) <==> Registered(r, kind, Printed(name))
  {
    var text := CString(Join(name) + [0]);
    hide Lower, SameIgnoringCase, Split, CString, Join, Rfc.NoCapitals, Rfc.SameText;
    LowerMeans(text, []);
    LowerMeans(r.name, []);
    LowerMeans(Lower(text), []);
    JoinSplit(text);
    JoinSplit(r.name);
    if Registered(r, kind, Printed(name)) {
      CaseOfJoin(Printed(name), Split(r.name));
    }
    if r.name == Lower(text) {
      CaseOfSplit(text, r.name);
    }
  }

  /** In terms of names: a query, if its labels are free of dots and zero octets, is answered with exactly
      the records of its type registered in lower case under its name, letter case aside, or else with
      the aliases registered so.  A record registered with a capital letter is never found. */
  lemma {:induction false} AnsweredByName(records: seq<Record>, packet: seq<byte>, r: Record)
    requires Expected(packet) && IsQuery(packet) && QClass(packet) == 1 && Clean(Reads(packet).name)
    ensures var kind, name := QType(packet), Reads(packet).name;
            r in Selected(records, packet) <==>
            && r in records
            && (Registered(r, kind, name)
                || (Registered(r, 5, name) && !exists d :: d in records && Registered(d, kind, name)))
  {
    var kind, name := QType(packet), Reads(packet).name;
    hide Registered, Keyed, Printed, QType;
    LookupMeaning(records, packet, r);
    PrintedIsItself(name);
    KeyedIsRegistered(r, kind, name);
    KeyedIsRegistered(r, TYPE_CNAME, name);
    forall d: Record
      ensures Keyed(d, kind, Key(packet)) <==> Registered(d, kind, name)
    {
      KeyedIsRegistered(d, kind, name);
    }
    hide *;
  }

  /** Two queries for the same type whose names differ in letter case at most select the same records
      and get the same answer section. */
  lemma {:induction false} CaseInsensitive(records: seq<Record>, p: seq<byte>, q: seq<byte>)
    requires Expected(p) && IsQuery(p) && Expected(q) && IsQuery(q)
    requires SameIgnoringCase(Reads(p).name, Reads(q).name) && QType(p) == QType(q)
    ensures Selected(records, p) == Selected(records, q)
    ensures var rs := Selected(records, p);
            Answered(p, rs)[QuestionEnd(p)..] == Answered(q, rs)[QuestionEnd(q)..] == AnswerSection(rs)
  {
    CaseOfKey(Reads(p).name, Reads(q).name);
  }

  // ----- reading the response back

  /** The data of an alias, as the encoder makes it, reads as exactly the name given if and only if RFC
      1035 allows the name: no piece empty, none longer than 63 bytes. */
  lemma {:induction false} AliasReadsBack(cname: seq<byte>)
    requires Short(Split(cname))
    ensures var rdata := Wire(Split(cname));
            && |rdata| == |cname| + 2
            && (DnsParser.ReadName(rdata, 0, 0) == Read(Split(cname), |rdata|) <==> DnsParser.Allowed(Split(cname)))
  {
    NameWireIsWire(cname);
    var rdata := Wire(Split(cname));
    if DnsParser.Allowed(Split(cname)) {
      assert rdata[0..0 + |rdata|] == rdata;
      DnsParser.ReadWire(rdata, 0, 0, Split(cname));
    } else if DnsParser.ReadName(rdata, 0, 0).Read? {
      DnsParser.ReadIsAllowed(rdata, 0, 0);
    }
  }

  function AsResources(owner: Name, rs: seq<Record>): seq<DnsParser.Resource> {
    if rs == [] then []
    else [DnsParser.Resource(owner, rs[0].kind, 1, 60, rs[0].rdata)] + AsResources(owner, rs[1..])
  }

  lemma ResourceFields(m: seq<byte>, at: nat, r: Record)
    requires at + 12 + |r.rdata| <= |m| && m[at..at + 12 + |r.rdata|] == ResourceBytes(r)
    ensures m[at] == 0xc0 && m[at + 1] == 0x0c
    ensures Get16(m, at + 2) == r.kind && Get16(m, at + 4) == CLASS_IN && Get32(m, at + 6) == TTL
    ensures Get16(m, at + 10) == |r.rdata| && m[at + 12..at + 12 + |r.rdata|] == r.rdata
  {
    var s := ResourceBytes(r);
    hide Put16, Put32, Get16, Get32;
    assert s[0] == 0xc0 && s[1] == 0x0c;
    assert s[2..4] == Put16(r.kind);
    assert s[4..6] == Put16(CLASS_IN);
    assert s[6..10] == Put32(TTL);
    assert s[10..12] == Put16(|r.rdata|);
    assert s[12..] == r.rdata;
    hide ResourceBytes;
    assert m[at] == m[at..at + 12 + |r.rdata|][0] && m[at + 1] == m[at..at + 12 + |r.rdata|][1];
    Within(m, at, s, 2, 4);
    Within(m, at, s, 4, 6);
    Within(m, at, s, 6, 10);
    Within(m, at, s, 10, 12);
    Within(m, at, s, 12, |s|);
    FieldReads(m, at + 2, Put16(r.kind));
    FieldReads(m, at + 4, Put16(CLASS_IN));
    FieldReads(m, at + 6, Put32(TTL));
    FieldReads(m, at + 10, Put16(|r.rdata|));
    RoundTrip16(r.kind, m, 0);
    RoundTrip16(CLASS_IN, m, 0);
    RoundTrip32(TTL, m, 0);
    RoundTrip16(|r.rdata|, m, 0);
  }

  /** The reader follows each record's pointer to the question and reads the records in order. */
  lemma {:induction false} ReadAnswers(m: seq<byte>, at: nat, owner: Name, rs: seq<Record>)
    requires DnsParser.Allowed(owner) && Short(owner) && 12 + |Wire(owner)| <= at
    requires at + |AnswerSection(rs)| == |m| && m[at..] == AnswerSection(rs)
    requires m[12..12 + |Wire(owner)|] == Wire(owner)
    ensures DnsParser.ReadResources(m, at, |rs|) == DnsParser.Parsed(AsResources(owner, rs), |m|)
    decreases |rs|
  {
    hide *;
    if rs == [] {
      NoAnswers(m, at, owner);
    } else {
      var r := rs[0];
      var next := at + 12 + |r.rdata|;
      var first := DnsParser.Resource(owner, r.kind, 1, 60, r.rdata);
      FirstAsResource(owner, rs);
      FirstResource(m, at, rs);
      ReadOne(m, at, owner, r);
      ReadAnswers(m, next, owner, rs[1..]);
      DnsParser.ReadCons(m, at, |rs|, first, next);
    }
  }

  lemma NoAnswers(m: seq<byte>, at: nat, owner: Name)
    ensures AnswerSection([]) == [] && DnsParser.ReadResources(m, at, 0) == DnsParser.Parsed(AsResources(owner, []), at)
  {
  }

  lemma FirstAsResource(owner: Name, rs: seq<Record>)
    requires rs != []
    ensures AsResources(owner, rs) ==
            [DnsParser.Resource(owner, rs[0].kind, 1, 60, rs[0].rdata)] + AsResources(owner, rs[1..])
  {
  }

  lemma FirstResource(m: seq<byte>, at: nat, rs: seq<Record>)
    requires rs != [] && at + |AnswerSection(rs)| == |m| && m[at..] == AnswerSection(rs)
    ensures var next := at + 12 + |rs[0].rdata|;
            && next <= |m| && m[at..next] == ResourceBytes(rs[0])
            && next + |AnswerSection(rs[1..])| == |m| && m[next..] == AnswerSection(rs[1..])
  {
    var r, rest := rs[0], AnswerSection(rs[1..]);
    var next := at + 12 + |r.rdata|;
    assert AnswerSection(rs) == ResourceBytes(r) + rest;
    hide ResourceBytes, AnswerSection;
    assert m[at..next] == m[at..][..12 + |r.rdata|] == ResourceBytes(r);
    assert m[next..] == m[at..][12 + |r.rdata|..] == rest;
  }

  lemma ReadOne(m: seq<byte>, at: nat, owner: Name, r: Record)
    requires at + 12 + |r.rdata| <= |m| && m[at..at + 12 + |r.rdata|] == ResourceBytes(r)
    requires DnsParser.Allowed(owner) && Short(owner) && 12 + |Wire(owner)| <= at
    requires m[12..12 + |Wire(owner)|] == Wire(owner)
    ensures DnsParser.ReadResource(m, at) ==
            DnsParser.GoodResource(DnsParser.Resource(owner, r.kind, 1, 60, r.rdata), at + 12 + |r.rdata|)
  {
    hide ResourceBytes, Wire, DnsParser.ReadName, Get16, Get32, Rfc.Two, Rfc.Four;
    ResourceFields(m, at, r);
    Rfc.FieldsAgree(m, at + 2);
    Rfc.FieldsAgree(m, at + 4);
    Rfc.FieldsAgree(m, at + 6);
    Rfc.FieldsAgree(m, at + 10);
    FollowPointer(m, at, owner);
  }

  lemma FollowPointer(m: seq<byte>, at: nat, owner: Name)
    requires DnsParser.Allowed(owner) && Short(owner) && 12 + |Wire(owner)| <= at && at + 2 <= |m|
    requires m[12..12 + |Wire(owner)|] == Wire(owner) && m[at] == 0xc0 && m[at + 1] == 0x0c
    ensures DnsParser.ReadName(m, at, at) == Read(owner, at + 2)
  {
    hide Wire;
    DnsParser.ReadWire(m, 12, 12, owner);
  }

  /** In the header of an answer a reader finds that of the request, but for QR, AA and three counts. */
  lemma HeaderReads(packet: seq<byte>, n: u16, m: seq<byte>)
    requires |packet| >= 12 && AnswerHeader(packet, n) <= m
    ensures DnsParser.ReadHeader(m) == DnsParser.ReadHeader(packet).(
              qr := true, aa := true, answers := n, authorities := 0, additionals := 0)
  {
    var h := AnswerHeader(packet, n);
    hide SetQr, SetAa, Put16, Get16;
    FlagsRead(packet[2]);
    CountOf(packet, n);
    Rfc.FieldsAgree(h, 6);
    assert h[2] == SetAa(SetQr(packet[2])) && h[3] == packet[3];
    assert h[0] == packet[0] && h[1] == packet[1] && h[4] == packet[4] && h[5] == packet[5];
    assert h[8] == h[9] == h[10] == h[11] == 0;
    hide AnswerHeader;
    assert forall j :: 0 <= j < 12 ==> m[j] == h[j];
  }

  /** And in the header of a request sent back, all but QR and RCODE. */
  lemma {:induction false} EchoReads(packet: seq<byte>)
    requires |packet| >= 12
    ensures DnsParser.ReadHeader(Echoed(packet)) == DnsParser.ReadHeader(packet).(qr := true, rcode := 0)
    ensures Echoed(packet)[12..] == packet[12..]
  {
    var s := Echoed(packet);
    LowBits(s[2], packet[2]);
    HighBits(s[3], packet[3]);
    hide Echoed;
  }

  lemma LowBits(c: byte, b: byte)
    requires c % 128 == b % 128
    ensures c / 8 % 16 == b / 8 % 16 && c / 4 % 2 == b / 4 % 2 && c / 2 % 2 == b / 2 % 2 && c % 2 == b % 2
  {
    LowSeven(c / 128, c % 128);
    LowSeven(b / 128, b % 128);
  }

  lemma LowSeven(top: nat, r: nat)
    requires r < 128
    ensures var c := 128 * top + r;
            c / 8 % 16 == r / 8 && c / 4 % 2 == r / 4 % 2 && c / 2 % 2 == r / 2 % 2 && c % 2 == r % 2
  {
    Eights(16 * top + r / 8, r % 8);
    Eights(r / 8, r % 8);
    Sixteens(top, r / 8);
  }

  lemma Sixteens(high: nat, low: nat)
    requires low < 16
    ensures (16 * high + low) % 16 == low
  {
  }

  lemma HighBits(c: byte, b: byte)
    requires c / 16 == b / 16
    ensures c / 128 == b / 128
  {
  }

  /** A request is refused exactly if it is a response, has not one question, or asks for another class
      than IN, as RFC 1035 reads it; a question whose name RFC 1035 allows is the one it reads. */
  lemma {:induction false} RequestReads(records: seq<Record>, packet: seq<byte>)
    requires Expected(packet)
    ensures var h := DnsParser.ReadHeader(packet);
            && (IsQuery(packet) <==> !h.qr && h.questions == 1)
            && (IsQuery(packet) && DnsParser.Allowed(Reads(packet).name) ==>
                  DnsParser.ReadQuestion(packet) ==
                  DnsParser.GoodQuestion(DnsParser.Question(Reads(packet).name, QType(packet), QClass(packet)),
                                         QuestionEnd(packet)))
            && (Respond(records, packet) == Thrown <==> h.qr || h.questions != 1 || QClass(packet) != 1)
  {
    Rfc.FieldsAgree(packet, 4);
    if IsQuery(packet) {
      var r := Reads(packet);
      WireUnwire(packet[12..]);
      assert packet[12..12 + r.length] == packet[12..][..r.length];
      Rfc.FieldsAgree(packet, 12 + r.length);
      Rfc.FieldsAgree(packet, 12 + r.length + 2);
      hide *;
      if DnsParser.Allowed(r.name) {
        DnsParser.ReadWire(packet, 12, 12, r.name);
      }
    }
  }

  /** The parts of an answer, as a reader meets them. */
  lemma AnswerParts(packet: seq<byte>, rs: seq<Record>)
    requires Expected(packet) && IsQuery(packet)
    ensures var m, name, end := Answered(packet, rs), Reads(packet).name, QuestionEnd(packet);
            && |m| == end + |AnswerSection(rs)| && m[end..] == AnswerSection(rs)
            && m[..12] == AnswerHeader(packet, |rs|)
            && Short(name) && 12 + |Wire(name)| + 4 == end && m[12..end - 4] == Wire(name)
            && Get16(m, end - 4) == QType(packet) && Get16(m, end - 2) == QClass(packet)
  {
    hide AnswerHeader, AnswerSection, Unwire, Wire, Get16;
    var end := QuestionEnd(packet);
    WireUnwire(packet[12..]);
    assert packet[12..end - 4] == packet[12..][..Reads(packet).length];
    PartsOf(packet, AnswerHeader(packet, |rs|), end, AnswerSection(rs));
  }

  /** A message with another header, the same bytes up to `end`, and another rest. */
  lemma PartsOf(packet: seq<byte>, header: seq<byte>, end: nat, rest: seq<byte>)
    requires |header| == 12 && 16 <= end <= |packet|
    ensures var m := header + packet[12..end] + rest;
            && |m| == end + |rest| && m[..12] == header && m[end..] == rest
            && m[12..end - 4] == packet[12..end - 4]
            && Get16(m, end - 4) == Get16(packet, end - 4) && Get16(m, end - 2) == Get16(packet, end - 2)
  {
    var m := header + packet[12..end] + rest;
    assert forall j :: 12 <= j < end ==> m[j] == packet[j];
  }

  lemma {:induction false} CountBounded(rs: seq<Record>)
    ensures 12 * |rs| <= |AnswerSection(rs)|
  {
    if rs != [] {
      CountBounded(rs[1..]);
    }
  }

  /** What fits its buffer is at most 512 bytes. */
  lemma ResponseSize(records: seq<Record>, packet: seq<byte>)
    requires Expected(packet) && Fits(records, packet)
    ensures var r := Respond(records, packet); r.Responded? ==> |r.response| <= 512
  {
    if IsQuery(packet) {
      hide Answered, Echoed, Selected, AnswerSection;
      AnswerParts(packet, Selected(records, packet));
    }
  }

  /** What a reader should make of the response, given what it makes of the request. */
  function Intended(records: seq<Record>, packet: seq<byte>): DnsParser.Message
    requires Expected(packet) && IsQuery(packet) && |Selected(records, packet)| < 0x1_0000
  {
    var rs, name := Selected(records, packet), Reads(packet).name;
    DnsParser.Message(
      DnsParser.ReadHeader(packet).(qr := true, aa := true, answers := |rs|, authorities := 0, additionals := 0),
      DnsParser.Question(name, QType(packet), 1), AsResources(name, rs), |Answered(packet, rs)|)
  }

  /** A reader of RFC 1035 takes the response for what it is meant to be: the request's header but for QR,
      AA and the counts of records, its question, one answer per selected record, each owned by the name
      asked for, with TTL 60 and the stored type and data, and no byte left over; and it does so exactly
      when RFC 1035 allows the name in the question, which the source does not check. */
  lemma {:induction false} ResponseParsesBack(records: seq<Record>, packet: seq<byte>)
    requires Expected(packet) && IsQuery(packet) && QClass(packet) == 1 && Fits(records, packet)
    requires Selected(records, packet) != []
    ensures var rs := Selected(records, packet);
            var response := Answered(packet, rs);
            && Respond(records, packet) == Responded(response)
            && |response| == QuestionEnd(packet) + |AnswerSection(rs)|
            && |rs| < 0x1_0000
            && (DnsParser.ReadMessage(response) == Some(Intended(records, packet))
                <==> DnsParser.Allowed(Reads(packet).name))
  {
    var rs := Selected(records, packet);
    AnswerParts(packet, rs);
    CountBounded(rs);
    if DnsParser.Allowed(Reads(packet).name) {
      AllowedParsesBack(packet, rs);
    } else {
      QuestionIsAllowed(Answered(packet, rs));
    }
  }

  lemma QuestionIsAllowed(m: seq<byte>)
    ensures DnsParser.ReadMessage(m).Some? ==> DnsParser.Allowed(DnsParser.ReadMessage(m).value.question.name)
  {
    if DnsParser.ReadMessage(m).Some? {
      DnsParser.ReadIsAllowed(m, 12, 12);
    }
  }

  lemma AllowedParsesBack(packet: seq<byte>, rs: seq<Record>)
    requires Expected(packet) && IsQuery(packet) && QClass(packet) == 1 && |rs| < 0x1_0000
    requires DnsParser.Allowed(Reads(packet).name)
    ensures var name := Reads(packet).name;
            DnsParser.ReadMessage(Answered(packet, rs)) ==
            Some(DnsParser.Message(
              DnsParser.ReadHeader(packet).(
                qr := true, aa := true, answers := |rs|, authorities := 0, additionals := 0),
              DnsParser.Question(name, QType(packet), 1), AsResources(name, rs), |Answered(packet, rs)|))
  {
    var name, end := Reads(packet).name, QuestionEnd(packet);
    var m := Answered(packet, rs);
    hide Answered, AnswerHeader, AnswerSection, Wire, Get16, Rfc.Two, DnsParser.Allowed, DnsParser.ReadHeader,
      AsResources;
    AnswerParts(packet, rs);
    assert AnswerHeader(packet, |rs|) <= m;
    HeaderReads(packet, |rs|, m);
    Rfc.FieldsAgree(m, end - 4);
    Rfc.FieldsAgree(m, end - 2);
    OneQuestion(packet);
    DnsParser.ReadWire(m, 12, 12, name);
    ReadAnswers(m, end, name, rs);
  }

  lemma OneQuestion(packet: seq<byte>)
    requires |packet| >= 12 && IsQuery(packet)
    ensures DnsParser.ReadHeader(packet).questions == 1
  {
    Rfc.FieldsAgree(packet, 4);
  }
}
