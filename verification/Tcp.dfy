/** The connection objects and the connection table of layers/L4/tcp/TCP.h:166-193, updated in place
    as `TCP::on_recv` does, and proved to take exactly the steps of `TcpMachine`. */
module Tcp {
  import opened Bytes
  import opened Checksum
  import opened Options
  import opened Protocol
  import opened TcpFormat
  import opened TcpMachine
  import RingBuffer
  import PseudoHeader

  class TcpConn {
    var tuple: ConnTuple
    var state: State
    var sndUna: u32
    var sndNxt: u32
    var rcvNxt: u32
    const rcvbuf: RingBuffer.RingBuffer

    ghost predicate Valid()
      reads this, rcvbuf
    {
      rcvbuf.Valid()
    }

    ghost function Repr(): set<object> {
      {this, rcvbuf, rcvbuf.buf}
    }

    /** No object is shared with `other`. */
    ghost predicate Apart(other: TcpConn) {
      this != other && rcvbuf != other.rcvbuf && rcvbuf.buf != other.rcvbuf.buf
    }

    ghost function Snapshot(): Conn
      requires Valid()
      reads this, rcvbuf, rcvbuf.buf
    {
      Conn(tuple, state, sndUna, sndNxt, rcvNxt, rcvbuf.Contents())
    }

    ghost predicate Within(objects: set<object>) {
      this in objects && rcvbuf in objects && rcvbuf.buf in objects
    }

    ghost predicate Is(value: Conn)
      reads this, rcvbuf, rcvbuf.buf
    {
      Valid() && Snapshot() == value
    }

    constructor (tuple: ConnTuple)
      ensures Valid() && fresh(Repr()) && Is(Snapshot()) && Listening(tuple, Snapshot())
    {
      this.tuple := tuple;
      state := LISTEN;
      rcvbuf := new RingBuffer.RingBuffer();
    }

    /** Fills the first 20 bytes of the reply buffer field by field, the checksum still zero. */
    method FillHeader(rbuf: array<byte>, seqNo: u32, ackNo: u32, flags: byte)
      requires rbuf.Length == 20 + 1500
      modifies rbuf
      ensures rbuf[..20] ==
              SegmentWith(Leading(tuple.destPort, tuple.srcPort, seqNo, ackNo, flags), 0)
    {
      assert Put16(0) == [0, 0];
      hide Put16, Put32;
      forall i | 0 <= i < 20 {
        rbuf[i] := 0;
      }
      CopyInto(rbuf, 0, Put16(tuple.destPort));
      CopyInto(rbuf, 2, Put16(tuple.srcPort));
      CopyInto(rbuf, 4, Put32(seqNo));
      CopyInto(rbuf, 8, Put32(ackNo));
      CopyInto(rbuf, 12, [HEADER / 4 * 16]);
      CopyInto(rbuf, 13, [flags]);
      CopyInto(rbuf, 14, Put16(WINDOW_SIZE));
      ghost var leading := Leading(tuple.destPort, tuple.srcPort, seqNo, ackNo, flags);
      assert rbuf[..16] == leading;
      assert rbuf[..20] == leading + [0, 0] + [0, 0];
    }

    /** Fills the reply buffer, computes the checksum over it and stores it. */
    method FillReply(seqNo: u32, ackNo: u32, flags: byte) returns (s: Sent)
      ensures s == ReplyTo(tuple, seqNo, ackNo, flags)
    {
      hide Put16, Put32, Sum16, Leading;
      var rbuf := new byte[20 + 1500];
      FillHeader(rbuf, seqNo, ackNo, flags);
      ghost var leading := Leading(tuple.destPort, tuple.srcPort, seqNo, ackNo, flags);
      assert rbuf[..16] == rbuf[..20][..16] == leading;
      assert rbuf[18..20] == rbuf[..20][18..] == [0, 0];
      var checksum := Checksum16Be(PseudoHeader.Of(tuple.destIp, tuple.srcIp, TCP, HEADER) + rbuf[..20]);
      CopyInto(rbuf, 16, Put16(checksum));
      assert rbuf[..20] == rbuf[..18] + rbuf[18..20] == SegmentWith(leading, checksum);
      s := Sent(tuple.destIp, tuple.srcIp, rbuf[..20]);
    }

    /** The `switch` of `on_recv`. */
    method Handle(ghost value: Conn, a: Arrival) returns (out: seq<Sent>)
      requires Is(value) && value.state in {LISTEN, SYN_RECVED, ESTABLISHED}
      requires InSequence(value, a) ==> OffsetInside(a.segment)
      modifies this, rcvbuf, rcvbuf.buf
      ensures Valid()
      ensures Reaction(Some(Snapshot()), out, false) == Switch(value, a)
    {
      var segment := a.segment;
      out := [];
      match state
      case LISTEN =>
        state := SYN_RECVED;
        rcvNxt := Wrap32(SeqNo(segment) + 1);
        sndUna := a.random;
        sndNxt := Wrap32(sndUna + 1);
        var reply := FillReply(sndUna, rcvNxt, FLAG_SYN + FLAG_ACK);
        out := [reply];
      case SYN_RECVED =>
        if HasAck(segment) && AckNo(segment) == sndNxt {
          state := ESTABLISHED;
          sndUna := AckNo(segment);
        }
      case ESTABLISHED =>
        if SeqNo(segment) == rcvNxt {
          var ok := rcvbuf.WriteAll(Payload(segment));
          if ok {
            rcvNxt := Wrap32(SeqNo(segment) + |Payload(segment)|);
            var reply := FillReply(sndNxt, rcvNxt, FLAG_ACK);
            out := [reply];
          }
        }
      case _ =>
        assert false;
    }
  }

  /** Distinct tuples are served by distinct objects. */
  ghost predicate AllApart(conns: map<ConnTuple, TcpConn>) {
    forall k, k' :: k in conns && k' in conns && k != k' ==> conns[k].Apart(conns[k'])
  }

  ghost predicate Shape(conns: map<ConnTuple, TcpConn>, table: Table, objects: set<object>) {
    table.Keys == conns.Keys && AllApart(conns) && forall k :: k in conns ==> conns[k].Within(objects)
  }

  /** The connections, all of whose objects are among `objects`, hold what `table` says. */
  ghost predicate Stored(conns: map<ConnTuple, TcpConn>, table: Table, objects: set<object>)
    reads objects
  {
    Shape(conns, table, objects) && forall k :: k in conns ==> conns[k].Is(table[k])
  }

  lemma StoredWithNew(conns: map<ConnTuple, TcpConn>, table: Table, objects: set<object>,
                      k: ConnTuple, conn: TcpConn, value: Conn)
    requires Stored(conns, table, objects) && k !in conns
    requires conn.Is(value) && conn.Repr() !! objects
    ensures Stored(conns[k := conn], table[k := value], objects + conn.Repr())
  {
    hide TcpConn.Is;
    assert forall k' :: k' in conns ==> conns[k'].Within(objects) && conn.Apart(conns[k']);
  }

  lemma StoredParts(conns: map<ConnTuple, TcpConn>, table: Table, objects: set<object>)
    requires Stored(conns, table, objects)
    ensures Shape(conns, table, objects)
    ensures forall k :: k in conns ==> conns[k].Is(table[k])
  {
  }

  lemma StoredWithChanged(conns: map<ConnTuple, TcpConn>, table: Table, objects: set<object>,
                          k: ConnTuple, value: Conn)
    requires Shape(conns, table, objects) && k in conns && conns[k].Is(value)
    requires forall k' :: k' in conns && k' != k ==> conns[k'].Is(table[k'])
    ensures Stored(conns, table[k := value], objects)
  {
  }

  class TcpLayer {
    var connections: map<ConnTuple, TcpConn>
    var sent: seq<Sent>  // everything given to L4_send so far
    ghost var table: Table  // the connections as values
    ghost var objects: set<object>  // the connection objects and their buffers

    /** Between calls every connection is stored under its own tuple and has answered its SYN. */
    ghost predicate Valid()
      reads this, objects
    {
      this !in objects && Stored(connections, table, objects) && Answered(table)
    }

    constructor ()
      ensures Valid() && fresh(objects) && table == map[] && sent == []
    {
      connections, sent := map[], [];
      table, objects := map[], {};
    }

    /** The connection of `k`, created if there is none yet. */
    method FindOrOpen(k: ConnTuple) returns (conn: TcpConn)
      requires this !in objects && Stored(connections, table, objects)
      modifies this`connections, this`table, this`objects
      ensures this !in objects && Stored(connections, table, objects)
      ensures k in connections && conn == connections[k]
      ensures k in old(connections) ==> table == old(table) && conn == old(connections)[k]
      ensures k !in old(connections) ==>
                fresh(conn.Repr()) && Listening(k, table[k]) && table == old(table)[k := table[k]]
      ensures fresh(objects - old(objects))
    {
      hide *;
      if k in connections {
        return connections[k];
      }
      conn := new TcpConn(k);
      ghost var value := conn.Snapshot();
      StoredWithNew(connections, table, objects, k, conn, value);
      connections := connections[k := conn];
      table := table[k := value];
      objects := objects + conn.Repr();
    }

    /** Lets the stored connection of `k` handle the segment; no other connection changes. */
    method Dispatch(k: ConnTuple, conn: TcpConn, a: Arrival) returns (out: seq<Sent>)
      requires this !in objects && Stored(connections, table, objects)
      requires k in connections && conn == connections[k]
      requires table[k].state in {LISTEN, SYN_RECVED, ESTABLISHED}
      requires InSequence(table[k], a) ==> OffsetInside(a.segment)
      modifies this`table, conn, conn.rcvbuf, conn.rcvbuf.buf
      ensures Stored(connections, table, objects)
      ensures table == old(table)[k := table[k]]
      ensures Reaction(Some(table[k]), out, false) == Switch(old(table[k]), a)
    {
      hide Switch, Stored;
      StoredParts(connections, table, objects);
      ghost var before := table;
      out := conn.Handle(before[k], a);
      assert forall k' :: k' in connections && k' != k ==> conn.Apart(connections[k']);
      ghost var after := conn.Snapshot();
      StoredWithChanged(connections, before, objects, k, after);
      table := before[k := after];
    }

    /** Takes the step of the value machine and touches no connection but the one of the segment's
        tuple. */
    method OnRecv(a: Arrival)
      requires Valid() && ReadsInside(table, a)
      modifies this
      modifies if TupleOf(a) in connections then connections[TupleOf(a)].Repr() else {}
      ensures Valid() && fresh(objects - old(objects))
      ensures table == Next(old(table), a)
      ensures sent == old(sent) + TcpMachine.OnRecv(old(table), a).out
    {
      hide TcpMachine.OnRecv, Next, Switch, TupleOf, Stored, Answered;
      AnsweredKept(table, a);
      Ignored(table, a);
      StoredParts(connections, table, objects);
      var k := TupleOf(a);
      if k !in connections && !HasSyn(a.segment) {
        return;
      }
      ghost var before := table;
      var conn := FindOrOpen(k);
      StepOf(before, table[k], a);
      var out := Dispatch(k, conn, a);
      sent := sent + out;
      assert table == Next(before, a);
    }

    /** Over any run of arrivals the table and everything sent are those of the value machine. */
    method OnRecvAll(es: seq<Arrival>)
      requires Valid() && table == map[] && sent == []
      requires forall n :: 0 <= n < |es| ==> ReadsInside(Run(es[..n]), es[n])
      modifies this, objects
      ensures Valid() && table == Run(es)
      ensures sent == AllSent(es)
    {
      hide *;
      RunFromEmpty();
      assert es[..0] == [];
      for i := 0 to |es|
        invariant Valid() && fresh(objects - old(objects))
        invariant table == Run(es[..i])
        invariant sent == AllSent(es[..i])
      {
        RunFurther(es, i);
        LayerParts(this);
        OnRecv(es[i]);
      }
      assert es[..|es|] == es;
    }
  }

  lemma LayerParts(layer: TcpLayer)
    requires layer.Valid()
    ensures layer !in layer.objects
    ensures forall k :: k in layer.connections ==> layer.connections[k].Repr() <= layer.objects
  {
  }
}
