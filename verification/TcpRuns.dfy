/** What every run of the receive path guarantees, whatever the network loses, repeats, reorders or
    interleaves.  A connection is first shown to be a function of the short history its own tuple
    has seen; the theorems about runs follow from that. */
module TcpRuns {
  import opened Bytes
  import opened Options
  import opened TcpFormat
  import opened TcpMachine
  import ByteQueue

  /** What matters of the segments a tuple has seen: nothing yet; a SYN with sequence number `irs`,
      answered with `iss`; or in addition the acknowledgment of `iss`, and then `stream` accepted. */
  datatype History =
    | Silent
    | Opening(irs: u32, iss: u32)
    | Open(irs: u32, iss: u32, stream: seq<byte>)

  /** The next sequence number expected once `n` bytes have been accepted (section 3.3 of RFC 793). */
  function Expected(irs: u32, n: nat): u32 {
    Wrap32(irs + 1 + n)
  }

  predicate InOrder(h: History, a: Arrival)
    requires h.Open?
  {
    && SeqNo(a.segment) == Expected(h.irs, |h.stream|)
    && |Payload(a.segment)| <= ByteQueue.USABLE + 1 - ByteQueue.Min(|h.stream|, ByteQueue.USABLE)
  }

  function Extend(h: History, a: Arrival): History {
    match h
    case Silent => if HasSyn(a.segment) then Opening(SeqNo(a.segment), a.random) else h
    case Opening(irs, iss) =>
      if HasAck(a.segment) && AckNo(a.segment) == Wrap32(iss + 1) then Open(irs, iss, []) else h
    case Open(irs, iss, stream) =>
      if InOrder(h, a) then Open(irs, iss, stream + Payload(a.segment)) else h
  }

  /** The one segment the protocol asks for, if any. */
  function Answer(k: ConnTuple, h: History, a: Arrival): seq<Sent> {
    match h
    case Silent => if HasSyn(a.segment) then [SynAck(k, a.random, Expected(SeqNo(a.segment), 0))] else []
    case Opening(_, _) => []
    case Open(irs, iss, stream) =>
      if InOrder(h, a) then [Ack(k, Wrap32(iss + 1), Expected(irs, |stream| + |Payload(a.segment)|))] else []
  }

  function HistoryOf(es: seq<Arrival>, k: ConnTuple): History {
    if es == [] then Silent
    else
      var before, a := es[..|es| - 1], es[|es| - 1];
      if TupleOf(a) == k then Extend(HistoryOf(before, k), a) else HistoryOf(before, k)
  }

  /** The connection object a history calls for: the buffer holds the first 65535 bytes accepted. */
  function Meaning(k: ConnTuple, h: History): Option<Conn> {
    match h
    case Silent => None
    case Opening(irs, iss) =>
      Some(Conn(k, SYN_RECVED, iss, Wrap32(iss + 1), Expected(irs, 0), []))
    case Open(irs, iss, stream) =>
      Some(Conn(k, ESTABLISHED, Wrap32(iss + 1), Wrap32(iss + 1), Expected(irs, |stream|),
                stream[..ByteQueue.Min(|stream|, ByteQueue.USABLE)]))
  }

  // ----- the simulation

  lemma ReactSimulates(k: ConnTuple, h: History, a: Arrival)
    ensures React(k, Meaning(k, h), a) == Reaction(Meaning(k, Extend(h, a)), Answer(k, h, a), false)
  {
    hide SynAck, Ack, HasSyn, HasAck, SeqNo, AckNo, Payload;
    if h.Open? {
      var p := Payload(a.segment);
      if InOrder(h, a) {
        hide Wrap32;
        ByteQueue.StoredPrefix(h.stream, p);
        WrapEarly(h.irs + 1 + |h.stream|, |p|);
      }
    }
  }

  /** The table and the segments sent are determined, tuple by tuple, by what each tuple saw: no
      segment affects a connection but its own, and nothing ever throws. */
  lemma {:induction false} RunIsHistory(es: seq<Arrival>, k: ConnTuple)
    ensures Lookup(Run(es), k) == Meaning(k, HistoryOf(es, k))
  {
    if es != [] {
      var before, a := es[..|es| - 1], es[|es| - 1];
      RunIsHistory(before, k);
      ReactSimulates(k, HistoryOf(before, k), a);
    }
  }

  lemma {:induction false} StepIsHistory(es: seq<Arrival>, a: Arrival)
    ensures var h := HistoryOf(es, TupleOf(a));
            OnRecv(Run(es), a) == Reaction(Meaning(TupleOf(a), Extend(h, a)), Answer(TupleOf(a), h, a), false)
  {
    RunIsHistory(es, TupleOf(a));
    ReactSimulates(TupleOf(a), HistoryOf(es, TupleOf(a)), a);
  }

  // ----- invariants over runs

  /** Between calls every connection is stored under its own tuple and is SYN_RECVED with one
      unacknowledged number, or ESTABLISHED with none; and the next call, whatever arrives, does not
      reach the throwing branch. */
  lemma {:induction false} TcpInvariant(es: seq<Arrival>, k: ConnTuple, a: Arrival)
    ensures k in Run(es) ==>
              var c := Run(es)[k];
              && c.tuple == k && |c.rcvbuf| <= 65535
              && ((c.state == SYN_RECVED && c.sndNxt == Wrap32(c.sndUna + 1) && c.rcvbuf == [])
                  || (c.state == ESTABLISHED && c.sndNxt == c.sndUna))
    ensures !OnRecv(Run(es), a).thrown
  {
    RunIsHistory(es, k);
    StepIsHistory(es, a);
  }

  /** A later history only goes further. */
  predicate Continues(h: History, h': History) {
    || h.Silent?
    || (h.Opening? && !h'.Silent? && h'.irs == h.irs && h'.iss == h.iss)
    || (h.Open? && h'.Open? && h'.irs == h.irs && h'.iss == h.iss && h.stream <= h'.stream)
  }

  lemma {:induction false} HistoryContinues(es: seq<Arrival>, more: seq<Arrival>, k: ConnTuple)
    ensures Continues(HistoryOf(es, k), HistoryOf(es + more, k))
    decreases |more|
  {
    if more == [] {
      assert es + more == es;
    } else {
      var before := more[..|more| - 1];
      HistoryContinues(es, before, k);
      assert (es + more)[..|es + more| - 1] == es + before;
    }
  }

  /** Connections are never removed, states never go back, and the initial numbers never change. */
  lemma {:induction false} StatesNeverGoBack(es: seq<Arrival>, more: seq<Arrival>, k: ConnTuple)
    ensures k in Run(es) ==> k in Run(es + more)
    ensures Established(es, k) ==> Established(es + more, k) && Run(es + more)[k].sndNxt == Run(es)[k].sndNxt
    ensures Accepted(es, k) <= Accepted(es + more, k)
  {
    hide Run, HistoryOf, Accepted, Wrap32;
    RunIsHistory(es, k);
    RunIsHistory(es + more, k);
    HistoryContinues(es, more, k);
    AcceptedIsStream(es, k);
    AcceptedIsStream(es + more, k);
  }

  /** Arrivals for other tuples make no difference to a connection: dropping them all changes nothing. */
  function Mine(es: seq<Arrival>, k: ConnTuple): seq<Arrival> {
    if es == [] then []
    else
      var mine := Mine(es[..|es| - 1], k);
      if TupleOf(es[|es| - 1]) == k then mine + [es[|es| - 1]] else mine
  }

  lemma {:induction false} MineKeepsHistory(es: seq<Arrival>, k: ConnTuple)
    ensures HistoryOf(Mine(es, k), k) == HistoryOf(es, k)
  {
    if es != [] {
      var before, a := es[..|es| - 1], es[|es| - 1];
      MineKeepsHistory(before, k);
      assert (Mine(before, k) + [a])[..|Mine(before, k)|] == Mine(before, k);
    }
  }

  /** Interleaving is invisible: a connection is the same when only its own segments arrive. */
  lemma {:induction false} NonInterference(es: seq<Arrival>, k: ConnTuple)
    ensures Lookup(Run(es), k) == Lookup(Run(Mine(es, k)), k)
  {
    MineKeepsHistory(es, k);
    RunIsHistory(es, k);
    RunIsHistory(Mine(es, k), k);
  }

  // ----- the handshake (section 3.4 of RFC 793)

  predicate FirstSynAt(es: seq<Arrival>, k: ConnTuple, i: nat) {
    && i < |es| && TupleOf(es[i]) == k && HasSyn(es[i].segment)
    && forall n :: 0 <= n < i && TupleOf(es[n]) == k ==> !HasSyn(es[n].segment)
  }

  /** The `j`th arrival acknowledges the SYN that answered the `i`th, with the number drawn then. */
  predicate AckedAt(es: seq<Arrival>, k: ConnTuple, i: nat, j: nat) {
    && i < j < |es| && TupleOf(es[j]) == k && HasAck(es[j].segment)
    && AckNo(es[j].segment) == Wrap32(es[i].random + 1)
  }

  lemma {:induction false} SilentWithoutSyn(es: seq<Arrival>, k: ConnTuple)
    ensures HistoryOf(es, k).Silent? <==> forall n :: 0 <= n < |es| && TupleOf(es[n]) == k ==> !HasSyn(es[n].segment)
  {
    hide TupleOf, HasSyn, HasAck, SeqNo, AckNo, InOrder, Payload;
    if es != [] {
      var before := es[..|es| - 1];
      SilentWithoutSyn(before, k);
      assert forall n :: 0 <= n < |before| ==> before[n] == es[n];
    }
  }

  lemma {:induction false} HistoryAfterSyn(es: seq<Arrival>, k: ConnTuple, i: nat)
    requires FirstSynAt(es, k, i)
    ensures var h := HistoryOf(es, k);
            && !h.Silent? && h.irs == SeqNo(es[i].segment) && h.iss == es[i].random
            && (h.Open? <==> exists j :: AckedAt(es, k, i, j))
    decreases |es|
  {
    hide TupleOf, HasSyn, HasAck, SeqNo, AckNo, InOrder, Payload;
    var before, last: nat := es[..|es| - 1], |es| - 1;
    if i == last {
      SilentWithoutSyn(before, k);
    } else {
      HistoryAfterSyn(before, k, i);
      assert forall j :: AckedAt(before, k, i, j) ==> AckedAt(es, k, i, j);
      assert AckedAt(es, k, i, last) || !AckedAt(es, k, i, last);
      assert forall j :: AckedAt(es, k, i, j) ==> j == last || AckedAt(before, k, i, j);
    }
  }

  /** A connection exists exactly when a SYN of its tuple arrived, and is ESTABLISHED exactly when an
      acknowledgment of the number its first SYN was answered with arrived later. */
  lemma {:induction false} HandshakeHistory(es: seq<Arrival>, k: ConnTuple)
    ensures k in Run(es) <==> exists i :: FirstSynAt(es, k, i)
    ensures Established(es, k) <==> exists i, j :: FirstSynAt(es, k, i) && AckedAt(es, k, i, j)
  {
    RunIsHistory(es, k);
    SilentWithoutSyn(es, k);
    if !HistoryOf(es, k).Silent? {
      var i := FirstSyn(es, k);
      HistoryAfterSyn(es, k, i);
    }
    forall i | FirstSynAt(es, k, i)
      ensures HistoryOf(es, k).Open? <==> exists j :: AckedAt(es, k, i, j)
    {
      HistoryAfterSyn(es, k, i);
    }
  }

  lemma FirstSyn(es: seq<Arrival>, k: ConnTuple) returns (i: nat)
    requires exists n :: 0 <= n < |es| && TupleOf(es[n]) == k && HasSyn(es[n].segment)
    ensures FirstSynAt(es, k, i)
  {
    i := 0;
    while !(TupleOf(es[i]) == k && HasSyn(es[i].segment))
      invariant i < |es| && forall n :: 0 <= n < i && TupleOf(es[n]) == k ==> !HasSyn(es[n].segment)
      decreases |es| - i
    {
      i := i + 1;
    }
  }

  /** No acknowledgment of the `i`th arrival's answer has arrived before the `n`th. */
  predicate UnackedBefore(es: seq<Arrival>, k: ConnTuple, i: nat, n: nat) {
    forall m :: i < m < n ==> !AckedAt(es, k, i, m)
  }

  lemma HistoryDuringHandshake(es: seq<Arrival>, k: ConnTuple, i: nat, n: nat)
    requires FirstSynAt(es, k, i) && n <= |es| && UnackedBefore(es, k, i, n)
    ensures HistoryOf(es[..n], k) == if n <= i then Silent else Opening(SeqNo(es[i].segment), es[i].random)
  {
    hide TupleOf, HasSyn, HasAck, SeqNo, AckNo, Payload, Wrap32, Extend;
    var before := es[..n];
    if n <= i {
      SilentWithoutSyn(before, k);
    } else {
      assert FirstSynAt(before, k, i);
      HistoryAfterSyn(before, k, i);
      assert forall m :: AckedAt(before, k, i, m) ==> AckedAt(es, k, i, m);
    }
  }

  /** As long as the answer to its first SYN is not acknowledged, whether it ever is or not, each arrival
      of a tuple finds nothing accepted or buffered and makes the stack send nothing, but for that SYN,
      which makes it send the SYN-ACK. */
  lemma {:induction false} HandshakeEmissions(es: seq<Arrival>, k: ConnTuple, i: nat, n: nat)
    requires FirstSynAt(es, k, i) && n < |es| && UnackedBefore(es, k, i, n) && TupleOf(es[n]) == k
    ensures SentAt(es, n) ==
            if n == i then [SynAck(k, es[i].random, Wrap32(SeqNo(es[i].segment) + 1))] else []
    ensures !Established(es[..n], k) && Accepted(es[..n], k) == []
    ensures k in Run(es[..n]) ==> Run(es[..n])[k].rcvbuf == []
  {
    HistoryDuringHandshake(es, k, i, n);
    hide TupleOf, HasSyn, HasAck, SeqNo, AckNo, Payload, Wrap32, Extend;
    StepIsHistory(es[..n], es[n]);
    RunIsHistory(es[..n], k);
    AcceptedIsStream(es[..n], k);
  }

  // ----- everything sent to a peer

  /** The acknowledgments sent to the peer of `k` over a run, one for each segment accepted. */
  function AcksOf(es: seq<Arrival>, k: ConnTuple): seq<Sent> {
    if es == [] then []
    else
      var before, a := es[..|es| - 1], es[|es| - 1];
      var h := HistoryOf(before, k);
      if TupleOf(a) == k && h.Open? then AcksOf(before, k) + Answer(k, h, a) else AcksOf(before, k)
  }

  /** What a history has had sent: at most one SYN-ACK, first, and then the acknowledgments. */
  function TraceOf(es: seq<Arrival>, k: ConnTuple): seq<Sent> {
    match HistoryOf(es, k)
    case Silent => []
    case Opening(irs, iss) => [SynAck(k, iss, Expected(irs, 0))]
    case Open(irs, iss, _) => [SynAck(k, iss, Expected(irs, 0))] + AcksOf(es, k)
  }

  lemma {:induction false} TowardConcat(s: seq<Sent>, r: seq<Sent>, k: ConnTuple)
    ensures Toward(s + r, k) == Toward(s, k) + Toward(r, k)
    decreases |r|
  {
    hide TupleOf, Reversed;
    if r == [] {
      assert s + r == s;
    } else {
      TowardConcat(s, r[..|r| - 1], k);
      assert (s + r)[..|s + r| - 1] == s + r[..|r| - 1];
    }
  }

  /** A reply for the tuple `k'` goes to the peer of `k'` and to no other. */
  lemma ReplyGoesBack(k: ConnTuple, k': ConnTuple, seqNo: u32, ackNo: u32)
    ensures forall s :: s in {SynAck(k', seqNo, ackNo), Ack(k', seqNo, ackNo)} ==>
              Toward([s], k) == if k == k' then [s] else []
  {
    PeerReads(k', seqNo, ackNo, 0);
    hide TupleOf, SynAck, Ack, WellFormed;
    forall s | s in {SynAck(k', seqNo, ackNo), Ack(k', seqNo, ackNo)}
      ensures Toward([s], k) == if k == k' then [s] else []
    {
      assert [s][..0] == [];
    }
  }

  lemma AnswerGoesBack(k: ConnTuple, k': ConnTuple, h: History, a: Arrival)
    ensures Toward(Answer(k', h, a), k) == if k == k' then Answer(k', h, a) else []
  {
    hide SynAck, Ack, HasSyn, SeqNo, Payload, InOrder, Expected, Wrap32, TupleOf, WellFormed;
    if h.Open? {
      ReplyGoesBack(k, k', Wrap32(h.iss + 1), Expected(h.irs, |h.stream| + |Payload(a.segment)|));
    } else {
      ReplyGoesBack(k, k', a.random, Expected(SeqNo(a.segment), 0));
    }
  }

  lemma {:induction false} NoAcksYet(es: seq<Arrival>, k: ConnTuple)
    ensures !HistoryOf(es, k).Open? ==> AcksOf(es, k) == []
  {
    hide TupleOf, HasSyn, HasAck, SeqNo, AckNo, InOrder, Payload, Answer;
    if es != [] {
      NoAcksYet(es[..|es| - 1], k);
    }
  }

  lemma TraceGrows(es: seq<Arrival>, k: ConnTuple)
    requires es != []
    ensures var before, a := es[..|es| - 1], es[|es| - 1];
            TraceOf(es, k) == TraceOf(before, k) + if TupleOf(a) == k then Answer(k, HistoryOf(before, k), a) else []
  {
    NoAcksYet(es[..|es| - 1], k);
    hide TupleOf, HasSyn, HasAck, SeqNo, AckNo, InOrder, Payload, SynAck, Ack, Wrap32;
  }

  lemma NothingSent(k: ConnTuple)
    ensures AllSent([]) == Toward([], k) == TraceOf([], k) == []
  {
  }

  /** Over a whole run the peer of a tuple is sent exactly this: nothing before a SYN; then one SYN-ACK,
      and nothing more until it is acknowledged; then one ACK for each segment accepted. */
  lemma {:induction false} SentToPeer(es: seq<Arrival>, k: ConnTuple)
    ensures Toward(AllSent(es), k) == TraceOf(es, k)
  {
    hide TraceOf, Toward, OnRecv, TupleOf, HistoryOf, Answer, Run, Extend, Meaning;
    if es == [] {
      NothingSent(k);
    } else {
      var before, a := es[..|es| - 1], es[|es| - 1];
      SentToPeer(before, k);
      StepIsHistory(before, a);
      AnswerGoesBack(k, TupleOf(a), HistoryOf(before, TupleOf(a)), a);
      TraceGrows(es, k);
      TowardConcat(AllSent(before), OnRecv(Run(before), a).out, k);
    }
  }

  /** So a half-open connection has had exactly one segment sent, and no connection ever more than one
      that carries SYN. */
  lemma {:induction false} OneSynAck(es: seq<Arrival>, k: ConnTuple, i: nat)
    requires FirstSynAt(es, k, i)
    ensures var sent := Toward(AllSent(es), k);
            && sent != [] && sent[0] == SynAck(k, es[i].random, Wrap32(SeqNo(es[i].segment) + 1))
            && (!Established(es, k) ==> |sent| == 1)
            && forall j :: 0 < j < |sent| ==> WellFormed(sent[j].segment) && !HasSyn(sent[j].segment)
  {
    SentToPeer(es, k);
    HistoryAfterSyn(es, k, i);
    RunIsHistory(es, k);
    AcksCarryNoSyn(es, k);
  }

  lemma {:induction false} AcksCarryNoSyn(es: seq<Arrival>, k: ConnTuple)
    ensures forall j :: 0 <= j < |AcksOf(es, k)| ==>
              WellFormed(AcksOf(es, k)[j].segment) && !HasSyn(AcksOf(es, k)[j].segment)
  {
    if es != [] {
      var before, a := es[..|es| - 1], es[|es| - 1];
      AcksCarryNoSyn(before, k);
      var h := HistoryOf(before, k);
      if h.Open? {
        AckHasNoSyn(k, Wrap32(h.iss + 1), Expected(h.irs, |h.stream| + |Payload(a.segment)|));
      }
      hide TupleOf, HasSyn, HasAck, SeqNo, AckNo, InOrder, Payload, Ack, Expected, Wrap32, WellFormed;
    }
  }

  lemma AckHasNoSyn(k: ConnTuple, seqNo: u32, ackNo: u32)
    ensures WellFormed(Ack(k, seqNo, ackNo).segment) && !HasSyn(Ack(k, seqNo, ackNo).segment)
  {
    hide Put16, Put32, TcpChecksum;
    ReplyFields(k.destIp, k.srcIp, k.destPort, k.srcPort, seqNo, ackNo, FLAG_ACK);
  }

  // ----- accepted, stored and acknowledged

  lemma {:induction false} AcceptedIsStream(es: seq<Arrival>, k: ConnTuple)
    ensures var h := HistoryOf(es, k); Accepted(es, k) == if h.Open? then h.stream else []
  {
    hide TupleOf, HasSyn, HasAck, SeqNo, AckNo, Payload;
    if es != [] {
      var before := es[..|es| - 1];
      AcceptedIsStream(before, k);
      RunIsHistory(before, k);
    }
  }

  /** With A the accepted stream: the buffer holds exactly the first 65535 bytes of A, so all of it
      exactly when A is no longer than that, and the next number expected counts all of A. */
  lemma {:induction false} StoredStream(es: seq<Arrival>, k: ConnTuple, i: nat)
    ensures Established(es, k) && FirstSynAt(es, k, i) ==>
            var c, accepted := Run(es)[k], Accepted(es, k);
            && c.rcvbuf == accepted[..ByteQueue.Min(|accepted|, 65535)]
            && (c.rcvbuf == accepted <==> |accepted| <= 65535)
            && c.rcvNxt == Expected(SeqNo(es[i].segment), |accepted|)
            && c.sndUna == c.sndNxt == Wrap32(es[i].random + 1)
  {
    hide TupleOf, HasSyn, HasAck, SeqNo, AckNo, Payload, Wrap32, Run, HistoryOf, Accepted;
    RunIsHistory(es, k);
    AcceptedIsStream(es, k);
    if FirstSynAt(es, k, i) {
      HistoryAfterSyn(es, k, i);
    }
  }

  /** In ESTABLISHED a segment is answered exactly when its payload is accepted, by one ACK that
      counts everything accepted up to and including it. */
  lemma {:induction false} AckCountsAccepted(es: seq<Arrival>, a: Arrival, i: nat)
    ensures var k, out := TupleOf(a), OnRecv(Run(es), a).out;
            Established(es, k) && FirstSynAt(es, k, i) ==>
            var accepted := Accepted(es + [a], k);
            && out == (if Accepts(Run(es)[k], a)
                       then [Ack(k, Wrap32(es[i].random + 1), Expected(SeqNo(es[i].segment), |accepted|))]
                       else [])
            && accepted == Accepted(es, k) + (if Accepts(Run(es)[k], a) then Payload(a.segment) else [])
  {
    var k := TupleOf(a);
    var h := HistoryOf(es, k);
    hide TupleOf, HasSyn, HasAck, SeqNo, AckNo, Payload, Wrap32, Accepts, InOrder, OnRecv;
    RunIsHistory(es, k);
    AcceptedIsStream(es, k);
    if Established(es, k) && FirstSynAt(es, k, i) {
      HistoryAfterSyn(es, k, i);
      AcceptsIsInOrder(k, h, a);
    }
    StepIsHistory(es, a);
    assert (es + [a])[..|es + [a]| - 1] == es;
  }

  lemma AcceptsIsInOrder(k: ConnTuple, h: History, a: Arrival)
    requires h.Open?
    ensures Accepts(Meaning(k, h).value, a) <==> InOrder(h, a)
  {
  }

  // ----- exactly-once, in-order delivery (section 3.3 of RFC 793)

  /** The payload is the piece of `data` from `off` on, under the matching sequence number. */
  predicate CutFrom(a: Arrival, irs: u32, data: seq<byte>, off: nat) {
    var p := Payload(a.segment);
    off + |p| <= |data| && SeqNo(a.segment) == Expected(irs, off) && p == data[off..off + |p|]
  }

  /** A segment of a peer that sends the stream `data` after a SYN numbered `irs`; if `early`, the SYN may
      carry the first bytes of it (section 3.4 of RFC 793). */
  ghost predicate FromPeer(a: Arrival, irs: u32, data: seq<byte>, early: bool) {
    if HasSyn(a.segment) then
      SeqNo(a.segment) == irs && Payload(a.segment) <= data && (early || Payload(a.segment) == [])
    else exists off :: CutFrom(a, irs, data, off)
  }

  ghost predicate AllFromPeer(es: seq<Arrival>, k: ConnTuple, irs: u32, data: seq<byte>, early: bool) {
    forall n :: 0 <= n < |es| && TupleOf(es[n]) == k ==> FromPeer(es[n], irs, data, early)
  }

  lemma ExpectedTellsApart(irs: u32, m: nat, n: nat)
    requires m < 0x1_0000_0000 && n < 0x1_0000_0000 && Expected(irs, m) == Expected(irs, n)
    ensures m == n
  {
  }

  lemma SynNotNext(irs: u32, n: nat)
    requires n < 0xffff_ffff
    ensures Expected(irs, n) != irs
  {
  }

  /** What a stream has to be shorter than: with data on a SYN, one byte less than the sequence numbers. */
  function Reach(early: bool): nat {
    if early then 0xffff_ffff else 0x1_0000_0000
  }

  lemma {:induction false} HistoryFromPeer(es: seq<Arrival>, k: ConnTuple, irs: u32, data: seq<byte>, early: bool)
    requires |data| < Reach(early) && AllFromPeer(es, k, irs, data, early)
    ensures var h := HistoryOf(es, k); (!h.Silent? ==> h.irs == irs) && (h.Open? ==> h.stream <= data)
  {
    hide TupleOf, HasSyn, HasAck, SeqNo, AckNo, Payload, Wrap32, Expected;
    if es != [] {
      var before, a := es[..|es| - 1], es[|es| - 1];
      assert AllFromPeer(before, k, irs, data, early);
      HistoryFromPeer(before, k, irs, data, early);
      var h := HistoryOf(before, k);
      if TupleOf(a) == k && h.Open? && InOrder(h, a) {
        if !HasSyn(a.segment) {
          var off :| CutFrom(a, irs, data, off);
          ExpectedTellsApart(irs, off, |h.stream|);
        } else if early {
          SynNotNext(irs, |h.stream|);
        }
      }
    }
  }

  /** However the network loses, repeats, reorders and interleaves the segments of a stream shorter
      than 2^32 bytes (2^32 - 1 if the SYN may carry data), what has been accepted is a prefix of the
      stream and the next number expected is that of the byte after it. */
  lemma {:induction false} InOrderDelivery(es: seq<Arrival>, k: ConnTuple, irs: u32, data: seq<byte>, early: bool)
    requires |data| < Reach(early) && AllFromPeer(es, k, irs, data, early)
    ensures Accepted(es, k) <= data
    ensures Established(es, k) ==> Run(es)[k].rcvNxt == Expected(irs, |Accepted(es, k)|)
    ensures k in Run(es) ==> Run(es)[k].rcvbuf <= data
  {
    HistoryFromPeer(es, k, irs, data, early);
    AcceptedIsStream(es, k);
    RunIsHistory(es, k);
  }

  // ----- how far the guarantees reach

  /** A segment of `k` without options, with at most one byte of payload. */
  function Segment(k: ConnTuple, seqNo: u32, ackNo: u32, flags: byte, payload: seq<byte>, random: u32): (a: Arrival)
    requires |payload| <= 1
  {
    SegmentFields(k.srcPort, k.destPort, seqNo, ackNo, flags, [0, 0, 0, 0] + payload);
    Delivery(k.srcIp, k.destIp,
             Leading(k.srcPort, k.destPort, seqNo, ackNo, flags) + ([0, 0, 0, 0] + payload), random)
  }

  lemma SegmentReads(k: ConnTuple, seqNo: u32, ackNo: u32, flags: byte, payload: seq<byte>, random: u32)
    requires |payload| <= 1
    ensures var a := Segment(k, seqNo, ackNo, flags, payload, random);
            && TupleOf(a) == k && a.random == random && SeqNo(a.segment) == seqNo && AckNo(a.segment) == ackNo
            && (HasSyn(a.segment) <==> flags / 2 % 2 == 1) && (HasAck(a.segment) <==> flags / 16 % 2 == 1)
            && Payload(a.segment) == payload
  {
    SegmentFields(k.srcPort, k.destPort, seqNo, ackNo, flags, [0, 0, 0, 0] + payload);
  }

  function Byte(k: ConnTuple, irs: u32, data: seq<byte>, off: nat): Arrival
    requires off < |data|
  {
    Segment(k, Expected(irs, off), 1, FLAG_ACK, data[off..off + 1], 0)
  }

  /** The handshake, and then the first `n` bytes of `data` one at a time. */
  function BytewiseRun(k: ConnTuple, irs: u32, data: seq<byte>, n: nat): seq<Arrival>
    requires n <= |data|
  {
    if n == 0 then [Segment(k, irs, 0, FLAG_SYN, [], 0), Segment(k, Expected(irs, 0), 1, FLAG_ACK, [], 0)]
    else BytewiseRun(k, irs, data, n - 1) + [Byte(k, irs, data, n - 1)]
  }

  lemma ByteReads(k: ConnTuple, irs: u32, data: seq<byte>, early: bool, off: nat)
    requires off < |data|
    ensures var a := Byte(k, irs, data, off);
            && TupleOf(a) == k && FromPeer(a, irs, data, early)
            && SeqNo(a.segment) == Expected(irs, off) && Payload(a.segment) == data[off..off + 1]
  {
    var a := Byte(k, irs, data, off);
    SegmentReads(k, Expected(irs, off), 1, FLAG_ACK, data[off..off + 1], 0);
    assert CutFrom(a, irs, data, off);
  }

  lemma {:induction false} BytewiseDelivers(k: ConnTuple, irs: u32, data: seq<byte>, early: bool, n: nat)
    requires n <= |data|
    ensures var es := BytewiseRun(k, irs, data, n);
            HistoryOf(es, k) == Open(irs, 0, data[..n]) && AllFromPeer(es, k, irs, data, early)
    decreases n
  {
    hide TupleOf, SeqNo, Payload, Byte, FromPeer, AllFromPeer, Expected, HistoryOf, Segment;
    if n == 0 {
      BytewiseOpens(k, irs, data, early);
    } else {
      BytewiseDelivers(k, irs, data, early, n - 1);
      ByteReads(k, irs, data, early, n - 1);
      NextAccepted(BytewiseRun(k, irs, data, n - 1), k, irs, data, early, data[..n - 1], Byte(k, irs, data, n - 1));
      assert data[..n - 1] + data[n - 1..n] == data[..n];
    }
  }

  /** A segment of one byte under the number after `stream` is accepted, whatever byte it carries. */
  lemma NextAccepted(es: seq<Arrival>, k: ConnTuple, irs: u32, data: seq<byte>, early: bool,
                     stream: seq<byte>, a: Arrival)
    requires HistoryOf(es, k) == Open(irs, 0, stream) && AllFromPeer(es, k, irs, data, early)
    requires TupleOf(a) == k && FromPeer(a, irs, data, early)
    requires SeqNo(a.segment) == Expected(irs, |stream|) && |Payload(a.segment)| == 1
    ensures HistoryOf(es + [a], k) == Open(irs, 0, stream + Payload(a.segment))
    ensures AllFromPeer(es + [a], k, irs, data, early)
  {
    hide TupleOf, HasSyn, HasAck, SeqNo, AckNo, Payload, Wrap32, FromPeer, Expected;
    assert (es + [a])[..|es + [a]| - 1] == es;
  }

  lemma BytewiseOpens(k: ConnTuple, irs: u32, data: seq<byte>, early: bool)
    ensures var es := BytewiseRun(k, irs, data, 0);
            HistoryOf(es, k) == Open(irs, 0, data[..0]) && AllFromPeer(es, k, irs, data, early)
  {
    var syn, ack := Segment(k, irs, 0, FLAG_SYN, [], 0), Segment(k, Expected(irs, 0), 1, FLAG_ACK, [], 0);
    assert BytewiseRun(k, irs, data, 0) == [syn, ack];
    hide *;
    HandshakeReads(k, irs);
    WithoutData(syn, irs, data, early);
    WithoutData(ack, irs, data, early);
    HandshakeOpens(k, irs, data, early, syn, ack);
  }

  lemma HandshakeReads(k: ConnTuple, irs: u32)
    ensures var syn := Segment(k, irs, 0, FLAG_SYN, [], 0);
            && TupleOf(syn) == k && syn.random == 0 && HasSyn(syn.segment)
            && SeqNo(syn.segment) == irs && Payload(syn.segment) == []
    ensures var ack := Segment(k, Expected(irs, 0), 1, FLAG_ACK, [], 0);
            && TupleOf(ack) == k && !HasSyn(ack.segment) && HasAck(ack.segment) && AckNo(ack.segment) == 1
            && SeqNo(ack.segment) == Expected(irs, 0) && Payload(ack.segment) == []
  {
    hide Segment, TupleOf, HasSyn, HasAck, SeqNo, AckNo, Payload, Expected;
    SegmentReads(k, irs, 0, FLAG_SYN, [], 0);
    SegmentReads(k, Expected(irs, 0), 1, FLAG_ACK, [], 0);
  }

  /** A segment without payload that starts the stream is the peer's. */
  lemma WithoutData(a: Arrival, irs: u32, data: seq<byte>, early: bool)
    requires Payload(a.segment) == [] && SeqNo(a.segment) == if HasSyn(a.segment) then irs else Expected(irs, 0)
    ensures FromPeer(a, irs, data, early)
  {
    hide HasSyn, SeqNo, Payload, Expected;
    assert HasSyn(a.segment) || CutFrom(a, irs, data, 0);
  }

  lemma HandshakeOpens(k: ConnTuple, irs: u32, data: seq<byte>, early: bool, syn: Arrival, ack: Arrival)
    requires TupleOf(syn) == TupleOf(ack) == k && HasSyn(syn.segment) && HasAck(ack.segment)
    requires SeqNo(syn.segment) == irs && AckNo(ack.segment) == 1 && syn.random == 0
    requires FromPeer(syn, irs, data, early) && FromPeer(ack, irs, data, early)
    ensures HistoryOf([syn, ack], k) == Open(irs, 0, []) && AllFromPeer([syn, ack], k, irs, data, early)
  {
    assert Wrap32(0 + 1) == 1;
    hide HasSyn, HasAck, SeqNo, AckNo, TupleOf, Wrap32, InOrder, FromPeer;
    assert [syn, ack][..1] == [syn] && [syn][..0] == [];
    assert HistoryOf([syn], k) == Extend(Silent, syn);
    assert HistoryOf([syn, ack], k) == Extend(HistoryOf([syn], k), ack);
  }

  /** The sequence numbers come round: after 2^32 bytes of `data` a late copy of its first byte, or
      after more of them a late copy of the byte 2^32 back, is taken for the next one. */
  lemma LateCopyAccepted(k: ConnTuple, irs: u32, data: seq<byte>, early: bool)
    requires |data| >= 0x1_0000_0000
    ensures exists es :: AllFromPeer(es, k, irs, data, early) && !(Accepted(es, k) <= data)
  {
    hide TupleOf, SeqNo, Payload, Byte, FromPeer, AllFromPeer, BytewiseRun, Expected, HistoryOf, Accepted;
    var off := |data| - 0x1_0000_0000;
    var before, a := BytewiseRun(k, irs, data, |data|), Byte(k, irs, data, off);
    BytewiseDelivers(k, irs, data, early, |data|);
    ByteReads(k, irs, data, early, off);
    ComesRound(irs, |data|);
    assert data[..|data|] == data;
    NextAccepted(before, k, irs, data, early, data, a);
    AcceptedIsStream(before + [a], k);
  }

  lemma ComesRound(irs: u32, n: nat)
    requires n >= 0x1_0000_0000
    ensures Expected(irs, n) == Expected(irs, n - 0x1_0000_0000)
  {
  }

  /** If it may carry data, a late copy of the SYN is taken for the next segment after 2^32 - 1 bytes. */
  lemma LateSynAccepted(k: ConnTuple, irs: u32, data: seq<byte>)
    requires |data| == 0xffff_ffff
    ensures exists es :: AllFromPeer(es, k, irs, data, true) && !(Accepted(es, k) <= data)
  {
    hide TupleOf, SeqNo, Payload, Segment, AllFromPeer, BytewiseRun, Expected, HistoryOf, Accepted, HasSyn;
    var before, a := BytewiseRun(k, irs, data, |data|), Segment(k, irs, 0, FLAG_SYN, data[..1], 0);
    BytewiseDelivers(k, irs, data, true, |data|);
    SegmentReads(k, irs, 0, FLAG_SYN, data[..1], 0);
    SynComesRound(irs);
    assert data[..|data|] == data;
    NextAccepted(before, k, irs, data, true, data, a);
    AcceptedIsStream(before + [a], k);
  }

  lemma SynComesRound(irs: u32)
    ensures Expected(irs, 0xffff_ffff) == irs
  {
  }

  /** Delivery is in order and exactly once in every run, for exactly the streams shorter than 2^32, or
      than 2^32 - 1 if the SYN may carry data. */
  lemma {:induction false} DeliveryExact(k: ConnTuple, irs: u32, data: seq<byte>, early: bool)
    ensures (forall es :: AllFromPeer(es, k, irs, data, early) ==> Accepted(es, k) <= data)
            <==> |data| < Reach(early)
  {
    if |data| < Reach(early) {
      forall es | AllFromPeer(es, k, irs, data, early)
        ensures Accepted(es, k) <= data
      {
        InOrderDelivery(es, k, irs, data, early);
      }
    } else if |data| >= 0x1_0000_0000 {
      LateCopyAccepted(k, irs, data, early);
    } else {
      LateSynAccepted(k, irs, data);
    }
  }

  /** An ACK can run ahead of the buffer: in a run that delivers 65536 bytes of a stream, all of them are
      acknowledged and the last is lost. */
  lemma AcknowledgedNotStored(k: ConnTuple, irs: u32, data: seq<byte>, early: bool)
    requires |data| >= 65536
    ensures exists es :: AllFromPeer(es, k, irs, data, early) && Established(es, k)
              && Accepted(es, k) == data[..65536] && Run(es)[k].rcvbuf == data[..65535]
              && Run(es)[k].rcvNxt == Expected(irs, 65536)
  {
    var es := BytewiseRun(k, irs, data, 65536);
    BytewiseDelivers(k, irs, data, early, 65536);
    hide TupleOf, HasSyn, HasAck, SeqNo, AckNo, Payload, BytewiseRun, AllFromPeer, Expected;
    AcceptedIsStream(es, k);
    RunIsHistory(es, k);
    assert data[..65536][..65535] == data[..65535];
    assert AllFromPeer(es, k, irs, data, early);
  }

  /** Every byte acknowledged is stored, in every run, for exactly the streams of up to 65535 bytes. */
  lemma {:induction false} StorageExact(k: ConnTuple, irs: u32, data: seq<byte>, early: bool)
    ensures (forall es :: AllFromPeer(es, k, irs, data, early) && Established(es, k) ==>
                            Run(es)[k].rcvbuf == Accepted(es, k))
            <==> |data| <= 65535
  {
    if |data| <= 65535 {
      forall es | AllFromPeer(es, k, irs, data, early) && Established(es, k)
        ensures Run(es)[k].rcvbuf == Accepted(es, k)
      {
        InOrderDelivery(es, k, irs, data, early);
        RunIsHistory(es, k);
        AcceptedIsStream(es, k);
      }
    } else {
      AcknowledgedNotStored(k, irs, data, early);
    }
  }
}
