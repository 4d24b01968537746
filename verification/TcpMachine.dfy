/** `TCP::on_recv` (layers/L4/tcp/TCP.cpp:6-122) as a step on values: the table of connections, the
    segment that arrived, and the number `rand()` returned. */
module TcpMachine {
  import opened Bytes
  import opened Checksum
  import opened Options
  import opened Protocol
  import opened TcpFormat
  import ByteQueue
  import PseudoHeader
  import Rfc

  datatype ConnTuple = ConnTuple(srcIp: Ipv4, srcPort: u16, destIp: Ipv4, destPort: u16)

  datatype State =
    | LISTEN | SYN_SENT | SYN_RECVED | ESTABLISHED | FIN_WAIT_1 | FIN_WAIT_2
    | CLOSING_WAIT | CLOSING | LAST_ACK | TIME_WAIT | CLOSED

  type Queue = q: seq<byte> | |q| <= 65535

  datatype Conn = Conn(tuple: ConnTuple, state: State, sndUna: u32, sndNxt: u32, rcvNxt: u32, rcvbuf: Queue)

  /** A segment handed to `on_recv`, with its addresses; `random` is what `rand()` returns if called. */
  datatype Delivery = Delivery(srcIp: Ipv4, destIp: Ipv4, segment: seq<byte>, random: u32)

  type Arrival = a: Delivery | WellFormed(a.segment)
    witness Delivery(0, 0,
                     [0, 0, 0, 0, 0, 0, 0, 0, 0, 0, 0, 0, 0, 0, 0, 0, 0, 0, 0, 0], 0)

  /** A segment given to `L4_send`. */
  datatype Sent = Sent(srcIp: Ipv4, destIp: Ipv4, segment: seq<byte>)

  datatype Reaction = Reaction(conn: Option<Conn>, out: seq<Sent>, thrown: bool)

  type Table = map<ConnTuple, Conn>

  function TupleOf(a: Arrival): ConnTuple {
    ConnTuple(a.srcIp, SrcPort(a.segment), a.destIp, DestPort(a.segment))
  }

  /** The reply to the peer of `k`: ports and addresses exchanged. */
  function ReplyTo(k: ConnTuple, seqNo: u32, ackNo: u32, flags: byte): Sent {
    Sent(k.destIp, k.srcIp, Reply(k.destIp, k.srcIp, Leading(k.destPort, k.srcPort, seqNo, ackNo, flags)))
  }

  function SynAck(k: ConnTuple, seqNo: u32, ackNo: u32): Sent {
    ReplyTo(k, seqNo, ackNo, FLAG_SYN + FLAG_ACK)
  }

  function Ack(k: ConnTuple, seqNo: u32, ackNo: u32): Sent {
    ReplyTo(k, seqNo, ackNo, FLAG_ACK)
  }

  /** The tuple of the other direction. */
  function Reversed(k: ConnTuple): ConnTuple {
    ConnTuple(k.destIp, k.destPort, k.srcIp, k.srcPort)
  }

  /** What the peer of `k` makes of a reply: it is well formed, travels the other direction of the
      connection, and carries the numbers and exactly the flags it was given, and no data. */
  lemma PeerReads(k: ConnTuple, seqNo: u32, ackNo: u32, random: u32)
    ensures forall s :: s in {SynAck(k, seqNo, ackNo), Ack(k, seqNo, ackNo)} ==>
              && WellFormed(s.segment)
              && TupleOf(Delivery(s.srcIp, s.destIp, s.segment, random)) == Reversed(k)
              && SeqNo(s.segment) == seqNo && AckNo(s.segment) == ackNo && HasAck(s.segment)
              && (HasSyn(s.segment) <==> s == SynAck(k, seqNo, ackNo)) && Payload(s.segment) == []
  {
    hide WellFormed, SeqNo, AckNo, Payload, Reply;
    ReplyFields(k.destIp, k.srcIp, k.destPort, k.srcPort, seqNo, ackNo, FLAG_SYN + FLAG_ACK);
    ReplyFields(k.destIp, k.srcIp, k.destPort, k.srcPort, seqNo, ackNo, FLAG_ACK);
  }

  /** The same by RFC 793: from the tuple's destination to its source, five words of header, ACK set, SYN
      set in a SYN-ACK alone, and no other flag. */
  lemma ReplyMeans(k: ConnTuple, seqNo: u32, ackNo: u32)
    ensures Replies(SynAck(k, seqNo, ackNo), k, seqNo, ackNo, true)
    ensures Replies(Ack(k, seqNo, ackNo), k, seqNo, ackNo, false)
  {
    hide Reply, Leading, Carries, Covered, Rfc.SumsUp, Rfc.TransportSum, Rfc.Two, Rfc.Four;
    ReplyReads(k.destIp, k.srcIp, k.destPort, k.srcPort, seqNo, ackNo, FLAG_SYN + FLAG_ACK);
    ReplyReads(k.destIp, k.srcIp, k.destPort, k.srcPort, seqNo, ackNo, FLAG_ACK);
  }

  predicate Replies(s: Sent, k: ConnTuple, seqNo: u32, ackNo: u32, syn: bool) {
    && s.srcIp == k.destIp && s.destIp == k.srcIp && |s.segment| == 20
    && Rfc.Tcp(s.segment) == Rfc.TcpHeader(k.destPort, k.srcPort, seqNo, ackNo, 5,
         false, true, false, false, syn, false, 4096, Rfc.Tcp(s.segment).checksum, 0)
  }

  /** The segment passes verification under its pseudo header (section 3.1 of RFC 793). */
  predicate Verifies(s: Sent) {
    Sum16(PseudoHeader.Of(s.srcIp, s.destIp, TCP, |s.segment| % 0x1_0000) + s.segment) == 0
  }

  /** Verification is the test of RFC 793 on the addresses, protocol 6, the length and the segment. */
  lemma VerifiesMeans(s: Sent)
    requires |s.segment| < 0x1_0000
    ensures Verifies(s) <==> Rfc.SumsUp(Rfc.TransportSum(s.srcIp, s.destIp, 6, s.segment))
  {
    hide Sum16, Rfc.TransportSum, Rfc.SumsUp;
    Verifying(s.srcIp, s.destIp, s.segment);
  }

  /** Every tuple can be unlucky: whatever is acknowledged, there is a number `rand()` can draw with
      which the SYN-ACK is refused by a peer that verifies it. */
  lemma SynAckCanFail(k: ConnTuple, ackNo: u32) returns (random: u32)
    ensures random < 0x8000_0000 && !Verifies(SynAck(k, random, ackNo))
  {
    hide Sum16, Carries, Leading, PseudoHeader.Of, Covered;
    random := CarryingSeqNo(k.destIp, k.srcIp, k.destPort, k.srcPort, ackNo, FLAG_SYN + FLAG_ACK);
    ReplyVerifies(k.destIp, k.srcIp, Leading(k.destPort, k.srcPort, random, ackNo, FLAG_SYN + FLAG_ACK));
  }

  predicate InSequence(c: Conn, a: Arrival) {
    c.state == ESTABLISHED && SeqNo(a.segment) == c.rcvNxt
  }

  /** The segment is the next in order and `writeAll` returns 1 for its payload. */
  predicate Accepts(c: Conn, a: Arrival) {
    && InSequence(c, a)
    && ByteQueue.Apply(c.rcvbuf, ByteQueue.WriteAll(Payload(a.segment))).1.ok
  }

  /** The `switch` on the state of the connection. */
  function Switch(c: Conn, a: Arrival): Reaction {
    var s := a.segment;
    match c.state
    case LISTEN =>
      var rcvNxt := Wrap32(SeqNo(s) + 1);
      var c' := c.(state := SYN_RECVED, rcvNxt := rcvNxt, sndUna := a.random, sndNxt := Wrap32(a.random + 1));
      Reaction(Some(c'), [SynAck(c.tuple, a.random, rcvNxt)], false)
    case SYN_RECVED =>
      var c' := if HasAck(s) && AckNo(s) == c.sndNxt
                then c.(state := ESTABLISHED, sndUna := AckNo(s)) else c;
      Reaction(Some(c'), [], false)
    case ESTABLISHED =>
      if !Accepts(c, a) then Reaction(Some(c), [], false)
      else
        var rcvNxt := Wrap32(SeqNo(s) + |Payload(s)|);
        var c' := c.(rcvbuf := ByteQueue.Apply(c.rcvbuf, ByteQueue.WriteAll(Payload(s))).0, rcvNxt := rcvNxt);
        Reaction(Some(c'), [Ack(c.tuple, c.sndNxt, rcvNxt)], false)
    case _ =>
      Reaction(Some(c), [], true)
  }

  /** A connection just created for the tuple `k`, its sequence numbers not yet set. */
  predicate Listening(k: ConnTuple, c: Conn) {
    c.tuple == k && c.state == LISTEN && c.rcvbuf == []
  }

  /** One call, seen by one tuple; a SYN for an unknown tuple first creates a LISTEN connection. */
  function React(k: ConnTuple, c: Option<Conn>, a: Arrival): Reaction {
    match c
    case None => if HasSyn(a.segment) then Switch(Conn(k, LISTEN, 0, 0, 0, []), a) else Reaction(None, [], false)
    case Some(conn) => Switch(conn, a)
  }

  function Lookup(t: Table, k: ConnTuple): Option<Conn> {
    if k in t then Some(t[k]) else None
  }

  function Store(t: Table, k: ConnTuple, c: Option<Conn>): Table {
    match c
    case None => t
    case Some(conn) => t[k := conn]
  }

  /** The whole of `on_recv`. */
  function OnRecv(t: Table, a: Arrival): Reaction {
    React(TupleOf(a), Lookup(t, TupleOf(a)), a)
  }

  function Next(t: Table, a: Arrival): Table {
    Store(t, TupleOf(a), OnRecv(t, a).conn)
  }

  /** The one segment the source reads beyond its end: next in order on an established connection,
      with a data offset that points outside. */
  predicate ReadsInside(t: Table, a: Arrival) {
    var k := TupleOf(a);
    k in t && InSequence(t[k], a) ==> OffsetInside(a.segment)
  }

  /** The table after the segments of `es` arrived, in that order, at an empty stack.  The network
      decides `es`: it may lose, repeat, reorder and interleave at will. */
  function Run(es: seq<Arrival>): Table {
    if es == [] then map[] else Next(Run(es[..|es| - 1]), es[|es| - 1])
  }

  lemma Ignored(t: Table, a: Arrival)
    ensures TupleOf(a) !in t && !HasSyn(a.segment) ==>
              OnRecv(t, a) == Reaction(None, [], false) && Next(t, a) == t
  {
  }

  /** The step is the `switch` of the connection found, or of one created for a SYN, whatever its
      sequence numbers hold before they are set. */
  lemma StepOf(t: Table, c: Conn, a: Arrival)
    requires var k := TupleOf(a); if k in t then c == t[k] else HasSyn(a.segment) && Listening(k, c)
    ensures OnRecv(t, a) == Switch(c, a) && OnRecv(t, a).conn.Some?
    ensures Next(t, a) == t[TupleOf(a) := Switch(c, a).conn.value]
  {
  }

  /** What is sent while the `n`th segment of `es` is handled. */
  function SentAt(es: seq<Arrival>, n: nat): seq<Sent>
    requires n < |es|
  {
    OnRecv(Run(es[..n]), es[n]).out
  }

  /** The segments of `sent` that go to the peer of `k`. */
  function Toward(sent: seq<Sent>, k: ConnTuple): seq<Sent> {
    if sent == [] then []
    else
      var before, s := Toward(sent[..|sent| - 1], k), sent[|sent| - 1];
      if WellFormed(s.segment) && TupleOf(Delivery(s.srcIp, s.destIp, s.segment, 0)) == Reversed(k)
      then before + [s] else before
  }

  /** Between calls every connection is stored under its own tuple and has answered its SYN. */
  predicate Answered(t: Table) {
    forall k :: k in t ==> t[k].tuple == k && t[k].state in {SYN_RECVED, ESTABLISHED}
  }

  /** Each call keeps this, and then the throwing branch of the `switch` is out of reach. */
  lemma AnsweredKept(t: Table, a: Arrival)
    requires Answered(t)
    ensures Answered(Next(t, a)) && !OnRecv(t, a).thrown
    ensures TupleOf(a) in t ==> t[TupleOf(a)].state in {SYN_RECVED, ESTABLISHED}
  {
  }

  function AllSent(es: seq<Arrival>): seq<Sent> {
    if es == [] then [] else AllSent(es[..|es| - 1]) + OnRecv(Run(es[..|es| - 1]), es[|es| - 1]).out
  }

  lemma RunFromEmpty()
    ensures Run([]) == map[] && AllSent([]) == []
  {
  }

  lemma OneMore(es: seq<Arrival>, a: Arrival)
    ensures Run(es + [a]) == Next(Run(es), a)
  {
    hide Next;
    assert (es + [a])[..|es|] == es;
  }

  lemma RunFurther(es: seq<Arrival>, i: nat)
    requires i < |es|
    ensures Run(es[..i + 1]) == Next(Run(es[..i]), es[i])
    ensures AllSent(es[..i + 1]) == AllSent(es[..i]) + OnRecv(Run(es[..i]), es[i]).out
  {
    hide OnRecv, Next;
    assert es[..i + 1][..i] == es[..i];
  }

  predicate Established(es: seq<Arrival>, k: ConnTuple) {
    k in Run(es) && Run(es)[k].state == ESTABLISHED
  }

  /** The accepted stream of `k`: every payload for which `writeAll` returned 1, in order. */
  function Accepted(es: seq<Arrival>, k: ConnTuple): seq<byte> {
    if es == [] then []
    else
      var before, a := es[..|es| - 1], es[|es| - 1];
      if TupleOf(a) == k && k in Run(before) && Accepts(Run(before)[k], a)
      then Accepted(before, k) + Payload(a.segment)
      else Accepted(before, k)
  }
}
