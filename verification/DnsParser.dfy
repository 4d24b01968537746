/** An RFC 1035 reader of messages (sections 3.1, 4.1.1 to 4.1.4), independent of the answerer: it
    follows compression pointers and refuses labels of more than 63 octets. */
module DnsParser {
  import opened Bytes
  import opened Options
  import opened DnsName
  import opened Rfc

  datatype Question = Question(name: Name, qtype: u16, qclass: u16)

  datatype Resource = Resource(owner: Name, kind: u16, class_: u16, ttl: u32, rdata: seq<byte>)

  /** Section 4.1.1: QR, OPCODE, AA, TC, RD, RA, Z, RCODE, and the four counts. */
  datatype Header = Header(
    id: u16, qr: bool, opcode: nat, aa: bool, tc: bool, rd: bool, ra: bool, z: nat, rcode: nat,
    questions: u16, answers: u16, authorities: u16, additionals: u16)

  datatype Message = Message(header: Header, question: Question, answers: seq<Resource>, size: nat)

  function ReadHeader(m: seq<byte>): Header
    requires |m| >= 12
  {
    Header(Two(m, 0), m[2] / 128 == 1, m[2] / 8 % 16, m[2] / 4 % 2 == 1, m[2] / 2 % 2 == 1, m[2] % 2 == 1,
           m[3] / 128 == 1, m[3] / 16 % 8, m[3] % 16, Two(m, 4), Two(m, 6), Two(m, 8), Two(m, 10))
  }

  /** The name at `at`.  A pointer may only lead before `limit`, the start of what it was reached
      from, so reading ends. */
  function ReadName(m: seq<byte>, at: nat, limit: nat): (r: Reading)
    ensures r.Read? ==> at < r.length <= |m|
    decreases limit, |m| - at
  {
    if at >= |m| then Endless
    else if m[at] == 0 then Read(Root, at + 1)
    else if m[at] >= 192 then
      if at + 2 <= |m| && 0x100 * (m[at] as int - 192) + m[at + 1] < limit then
        var target := 0x100 * (m[at] as int - 192) + m[at + 1];
        match ReadName(m, target, target)
        case Endless => Endless
        case Read(name, _) => Read(name, at + 2)
      else Endless
    else if m[at] < 64 && at + 1 + m[at] as int <= |m| then
      match ReadName(m, at + 1 + m[at], limit)
      case Endless => Endless
      case Read(rest, next) => Read(Label(m[at + 1..at + 1 + m[at]], rest), next)
    else Endless
  }

  datatype OneResource = BadResource | GoodResource(resource: Resource, next: nat)

  function ReadResource(m: seq<byte>, at: nat): OneResource {
    match ReadName(m, at, at)
    case Endless => BadResource
    case Read(owner, next) =>
      if next + 10 > |m| || next + 10 + Two(m, next + 8) > |m| then BadResource
      else
        var end := next + 10 + Two(m, next + 8);
        GoodResource(Resource(owner, Two(m, next), Two(m, next + 2), Four(m, next + 4), m[next + 10..end]), end)
  }

  datatype Resources = Malformed | Parsed(list: seq<Resource>, next: nat)

  function ReadResources(m: seq<byte>, at: nat, count: nat): (r: Resources)
    decreases count
  {
    if count == 0 then Parsed([], at)
    else
      match ReadResource(m, at)
      case BadResource => Malformed
      case GoodResource(first, next) =>
        match ReadResources(m, next, count - 1)
        case Malformed => Malformed
        case Parsed(list, last) => Parsed([first] + list, last)
  }

  lemma ReadCons(m: seq<byte>, at: nat, count: nat, first: Resource, next: nat)
    requires count > 0 && ReadResource(m, at) == GoodResource(first, next)
    requires ReadResources(m, next, count - 1).Parsed?
    ensures var r := ReadResources(m, next, count - 1);
            ReadResources(m, at, count) == Parsed([first] + r.list, r.next)
  {
  }

  datatype OneQuestion = BadQuestion | GoodQuestion(question: Question, next: nat)

  /** The question that follows the header. */
  function ReadQuestion(m: seq<byte>): OneQuestion {
    match ReadName(m, 12, 12)
    case Endless => BadQuestion
    case Read(name, next) =>
      if next + 4 > |m| then BadQuestion
      else GoodQuestion(Question(name, Two(m, next), Two(m, next + 2)), next + 4)
  }

  /** A message with one question and as many answers as it announces. */
  function ReadMessage(m: seq<byte>): Option<Message> {
    if |m| < 12 || ReadHeader(m).questions != 1 then None
    else
      match ReadQuestion(m)
      case BadQuestion => None
      case GoodQuestion(question, next) =>
        match ReadResources(m, next, ReadHeader(m).answers)
        case Malformed => None
        case Parsed(answers, last) => Some(Message(ReadHeader(m), question, answers, last))
  }

  /** RFC 1035 allows labels of 1 to 63 octets. */
  predicate Allowed(name: Name) {
    name.Label? ==> 1 <= |name.text| <= 63 && Allowed(name.rest)
  }

  lemma {:induction false} AllowedIsShort(name: Name)
    requires Allowed(name)
    ensures Short(name) && NonEmptyLabels(name)
  {
    if name.Label? {
      AllowedIsShort(name.rest);
    }
  }

  /** Plain wire forms read as they should. */
  lemma {:induction false} ReadWire(m: seq<byte>, at: nat, limit: nat, name: Name)
    requires Allowed(name) && Short(name) && at + |Wire(name)| <= |m|
    requires m[at..at + |Wire(name)|] == Wire(name)
    ensures ReadName(m, at, limit) == Read(name, at + |Wire(name)|)
    decreases name
  {
    hide *;
    if name.Root? {
      RootInWire(m, at, limit);
    } else {
      LabelInWire(m, at, name);
      ReadWire(m, at + 1 + |name.text|, limit, name.rest);
      ReadPlain(m, at, limit);
    }
  }

  lemma RootInWire(m: seq<byte>, at: nat, limit: nat)
    ensures Short(Root) && |Wire(Root)| == 1
    ensures at + 1 <= |m| && m[at..at + 1] == Wire(Root) ==> ReadName(m, at, limit) == Read(Root, at + 1)
  {
    if at + 1 <= |m| {
      assert m[at..at + 1][0] == m[at];
    }
  }

  /** The first label of a wire form inside a message, and where the rest of it stands. */
  lemma LabelInWire(m: seq<byte>, at: nat, name: Name)
    requires name.Label? && Allowed(name) && Short(name)
    requires at + |Wire(name)| <= |m| && m[at..at + |Wire(name)|] == Wire(name)
    ensures Short(name.rest) && Allowed(name.rest) && 1 <= |name.text| <= 63
    ensures var next, end := at + 1 + |name.text|, at + |Wire(name)|;
            && end == next + |Wire(name.rest)| && m[at] == |name.text| && m[at + 1..next] == name.text
            && m[next..end] == Wire(name.rest)
  {
    hide Wire;
    var w, l := Wire(name), |name.text|;
    WireOfLabel(name);
    Within(m, at, w, 0, 0);
    Within(m, at, w, 1, 1 + l);
    Within(m, at, w, 1 + l, |w|);
  }

  lemma ReadPlain(m: seq<byte>, at: nat, limit: nat)
    requires at < |m| && 0 < m[at] < 64 && at + 1 + m[at] as int <= |m|
    requires ReadName(m, at + 1 + m[at], limit).Read?
    ensures var rest := ReadName(m, at + 1 + m[at], limit);
            ReadName(m, at, limit) == Read(Label(m[at + 1..at + 1 + m[at]], rest.name), rest.length)
  {
  }

  /** A reader never reports a name RFC 1035 does not allow. */
  lemma {:induction false} ReadIsAllowed(m: seq<byte>, at: nat, limit: nat)
    requires ReadName(m, at, limit).Read?
    ensures Allowed(ReadName(m, at, limit).name)
    decreases limit, |m| - at
  {
    if m[at] >= 192 {
      var target := 0x100 * (m[at] as int - 192) + m[at + 1];
      ReadIsAllowed(m, target, target);
    } else if m[at] != 0 {
      ReadIsAllowed(m, at + 1 + m[at], limit);
    }
  }
}
