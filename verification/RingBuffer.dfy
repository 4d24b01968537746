/** The byte queue a connection receives into (layers/L4/tcp/TCP.h:110-163), first as a queue of
    values, then as the circular array that refines it. */
module ByteQueue {
  import opened Bytes

  /** One slot of the 65536 always stays free. */
  const USABLE := 65535

  datatype Op =
    | Put(octet: byte)
    | Get
    | WriteAll(src: seq<byte>)
    | ReadFull(len: nat)

  /** `ok` is the 0/1 result of the call, `data` the bytes it handed out. */
  datatype Reply = Reply(ok: bool, data: seq<byte>)

  function Min(a: nat, b: nat): nat {
    if a < b then a else b
  }

  /** What of `src` fits behind the queue `q`. */
  function Fitting(q: seq<byte>, src: seq<byte>): (r: seq<byte>)
    requires |q| <= USABLE
    ensures |q| + |r| <= USABLE && r <= src
  {
    src[..Min(|src|, USABLE - |q|)]
  }

  lemma FittingGrows(q: seq<byte>, src: seq<byte>, i: nat)
    requires |q| <= USABLE && i < |src|
    ensures q + Fitting(q, src[..i + 1]) == Apply(q + Fitting(q, src[..i]), Put(src[i])).0
  {
  }

  /** The meaning of each operation on a queue of capacity 65535; note that `WriteAll` admits one
      byte more than it can store. */
  function Apply(q: seq<byte>, op: Op): (r: (seq<byte>, Reply))
    requires |q| <= USABLE
    ensures |r.0| <= USABLE
  {
    match op
    case Put(octet) =>
      if |q| == USABLE then (q, Reply(false, [])) else (q + [octet], Reply(true, []))
    case Get =>
      if q == [] then (q, Reply(false, [])) else (q[1..], Reply(true, [q[0]]))
    case WriteAll(src) =>
      if |src| > USABLE + 1 - |q| then (q, Reply(false, [])) else (q + Fitting(q, src), Reply(true, []))
    case ReadFull(len) =>
      if len > |q| then (q, Reply(false, [])) else (q[len..], Reply(true, q[..len]))
  }

  function Run(q: seq<byte>, ops: seq<Op>): (r: (seq<byte>, seq<Reply>))
    requires |q| <= USABLE
    ensures |r.0| <= USABLE && |r.1| == |ops|
    decreases |ops|
  {
    if ops == [] then (q, [])
    else
      var (q', reply) := Apply(q, ops[0]);
      var (last, replies) := Run(q', ops[1..]);
      (last, [reply] + replies)
  }

  /** The bytes an operation offered and saw acknowledged with 1. */
  function Admitted(op: Op, reply: Reply): seq<byte> {
    if !reply.ok then [] else
    match op
    case Put(octet) => [octet]
    case WriteAll(src) => src
    case _ => []
  }

  function AllAdmitted(ops: seq<Op>, replies: seq<Reply>): seq<byte>
    requires |ops| == |replies|
  {
    if ops == [] then [] else Admitted(ops[0], replies[0]) + AllAdmitted(ops[1..], replies[1..])
  }

  function AllRead(replies: seq<Reply>): seq<byte> {
    if replies == [] then [] else replies[0].data + AllRead(replies[1..])
  }

  /** The operation is a `WriteAll` of exactly one byte more than the free space. */
  predicate Overfills(q: seq<byte>, op: Op)
    requires |q| <= USABLE
  {
    op.WriteAll? && |op.src| == USABLE + 1 - |q|
  }

  function Overfillings(q: seq<byte>, ops: seq<Op>): nat
    requires |q| <= USABLE
    decreases |ops|
  {
    if ops == [] then 0
    else (if Overfills(q, ops[0]) then 1 else 0) + Overfillings(Apply(q, ops[0]).0, ops[1..])
  }

  /** An acknowledged operation loses a byte, its last one, exactly when it overfills. */
  lemma AdmittedAgainstStored(q: seq<byte>, op: Op)
    requires |q| <= USABLE
    ensures var (q', reply) := Apply(q, op);
            if Overfills(q, op)
            then reply == Reply(true, []) && q' == q + op.src[..|op.src| - 1] && |q'| == USABLE
            else q + Admitted(op, reply) == reply.data + q'
  {
    var (q', reply) := Apply(q, op);
    assert reply.data == [] ==> reply.data + q' == q';
    assert Admitted(op, reply) == [] ==> q + Admitted(op, reply) == q;
  }

  /** First in, first out, over every interleaving: the queue loses one byte per overfilling write,
      and what was read followed by what is still queued is what was there followed by what was
      admitted exactly when no write overfilled. */
  lemma {:induction false} FifoConservation(q: seq<byte>, ops: seq<Op>)
    requires |q| <= USABLE
    ensures var (last, replies) := Run(q, ops);
            var admitted, read := AllAdmitted(ops, replies), AllRead(replies);
            && |q| + |admitted| == |read| + |last| + Overfillings(q, ops)
            && (q + admitted == read + last <==> Overfillings(q, ops) == 0)
    decreases |ops|
  {
    if ops == [] {
      assert q + [] == [] + q;
    } else {
      var (q', reply) := Apply(q, ops[0]);
      var (last, replies) := Run(q', ops[1..]);
      var admitted, rest := Admitted(ops[0], reply), AllAdmitted(ops[1..], replies);
      AdmittedAgainstStored(q, ops[0]);
      FifoConservation(q', ops[1..]);
      assert ([reply] + replies)[1..] == replies;
      if Overfillings(q, ops) == 0 {
        Regroup(q, admitted, rest, reply.data, q', AllRead(replies), last);
      } else {
        Lengths(q, admitted, rest, reply.data, q', AllRead(replies), last);
      }
    }
  }

  /** What the next call answers follows from what was admitted, read and lost before, whatever the calls
      were: reads succeed for as many bytes as are left, writes while 65535 are not yet stored, and
      `writeAll` for one byte more than would fit. */
  lemma {:induction false} NextCall(ops: seq<Op>, op: Op)
    ensures var (q, replies) := Run([], ops);
            var stored := |AllAdmitted(ops, replies)| - |AllRead(replies)| - Overfillings([], ops);
            var reply := Apply(q, op).1;
            && 0 <= stored <= 65535
            && match op
               case Put(_) => (reply.ok <==> stored < 65535) && reply.data == []
               case Get => (reply.ok <==> stored > 0) && |reply.data| == if stored > 0 then 1 else 0
               case WriteAll(src) => (reply.ok <==> stored + |src| <= 65536) && reply.data == []
               case ReadFull(len) => (reply.ok <==> len <= stored) && |reply.data| == if len <= stored then len else 0
  {
    FifoConservation([], ops);
    hide Run, AllAdmitted, AllRead, Overfillings;
  }

  lemma Lengths(q: seq<byte>, a: seq<byte>, rest: seq<byte>,
                d: seq<byte>, q': seq<byte>, read: seq<byte>, last: seq<byte>)
    ensures |q + (a + rest)| == |q| + |a| + |rest| && |(d + read) + last| == |d| + |read| + |last|
  {
  }

  lemma Regroup(q: seq<byte>, a: seq<byte>, rest: seq<byte>,
                d: seq<byte>, q': seq<byte>, read: seq<byte>, last: seq<byte>)
    requires q + a == d + q' && q' + rest == read + last
    ensures q + (a + rest) == (d + read) + last
  {
    assert q + (a + rest) == (q + a) + rest == d + (q' + rest) == (d + read) + last;
  }

  /** Reading one byte more: the next `Get` hands out the byte after the first `i`. */
  lemma TakenGrows(q: seq<byte>, i: nat)
    requires i < |q| <= USABLE
    ensures Apply(q[i..], Get) == (q[i + 1..], Reply(true, [q[i]])) && q[..i] + [q[i]] == q[..i + 1]
  {
  }

  /** Without reads, a run of writes leaves the first 65535 of the bytes it admitted. */
  lemma StoredPrefix(admitted: seq<byte>, src: seq<byte>)
    requires |src| <= USABLE + 1 - Min(|admitted|, USABLE)
    ensures var q := admitted[..Min(|admitted|, USABLE)];
            Apply(q, WriteAll(src)) ==
            ((admitted + src)[..Min(|admitted + src|, USABLE)], Reply(true, []))
  {
    var q := admitted[..Min(|admitted|, USABLE)];
    assert q + Fitting(q, src) == (admitted + src)[..Min(|admitted + src|, USABLE)];
  }
}

module RingBuffer {
  import opened Bytes
  import opened ByteQueue

  function Wrap64(n: int): nat {
    n % 0x1_0000_0000_0000_0000
  }

  function Slot(b: nat, i: nat): nat {
    if b + i < 65536 then b + i else b + i - 65536
  }

  /** The bytes from index `b` up to `e`, going round. */
  function Span(s: seq<byte>, b: nat, e: nat): (q: seq<byte>)
    requires |s| == 65536 && b < 65536 && e < 65536
    ensures |q| == if b <= e then e - b else 65536 - b + e
    ensures forall i :: 0 <= i < |q| ==> q[i] == s[Slot(b, i)]
  {
    if b <= e then s[b..e] else s[b..] + s[..e]
  }

  lemma SpanExtended(s: seq<byte>, b: nat, e: nat, octet: byte)
    requires |s| == 65536 && b < 65536 && e < 65536 && Slot(e, 1) != b
    ensures Span(s[e := octet], b, Slot(e, 1)) == Span(s, b, e) + [octet]
  {
    hide Span;
  }

  lemma SpanShortened(s: seq<byte>, b: nat, e: nat)
    requires |s| == 65536 && b < 65536 && e < 65536 && b != e
    ensures Span(s, b, e) == [s[b]] + Span(s, Slot(b, 1), e)
  {
    hide Span;
  }

  lemma WrappedDistance(b: nat, e: nat)
    requires b < 65536 && e < 65536
    ensures Wrap64(Wrap64(e - b) + 65536) % 65536 == if b <= e then e - b else 65536 - b + e
  {
    assert Wrap64(e - b) == if b <= e then e - b else 0x1_0000_0000_0000_0000 + e - b;
  }

  lemma NextSlot(b: nat)
    requires b < 65536
    ensures (b + 1) % 65536 == Slot(b, 1)
  {
  }

  /** BUFFER_SIZE is 65536. */
  class RingBuffer {
    const buf: array<byte>
    var start: nat
    var end: nat

    ghost predicate Valid()
      reads this
    {
      buf.Length == 65536 && start < 65536 && end < 65536
    }

    /** The queued bytes, oldest first. */
    ghost function Contents(): (q: seq<byte>)
      requires Valid()
      reads this, buf
      ensures |q| <= USABLE
    {
      Span(buf[..], start, end)
    }

    constructor ()
      ensures Valid() && fresh(buf) && Contents() == []
    {
      buf := new byte[65536];
      start, end := 0, 0;
    }

    method Put(octet: byte) returns (ok: bool)
      requires Valid()
      modifies this, buf
      ensures Valid()
      ensures (Contents(), Reply(ok, [])) == Apply(old(Contents()), ByteQueue.Put(octet))
    {
      hide Span;
      NextSlot(end);
      if (end + 1) % 65536 == start {
        return false;
      }
      buf[end] := octet;
      end := (end + 1) % 65536;
      SpanExtended(old(buf[..]), start, old(end), octet);
      assert buf[..] == old(buf[..])[old(end) := octet];
      return true;
    }

    method Get() returns (ok: bool, octet: byte)
      requires Valid()
      modifies this
      ensures Valid()
      ensures (Contents(), Reply(ok, if ok then [octet] else [])) == Apply(old(Contents()), ByteQueue.Get)
    {
      hide Span;
      NextSlot(start);
      if start == end {
        return false, 0;
      }
      octet := buf[start];
      start := (start + 1) % 65536;
      SpanShortened(buf[..], old(start), end);
      return true, octet;
    }

    /** `end - start` is taken modulo 2^64 before the buffer size is added. */
    function Size(): (n: nat)
      requires Valid()
      reads this, buf
      ensures n == |Contents()|
    {
      WrappedDistance(start, end);
      Wrap64(Wrap64(end - start) + 65536) % 65536
    }

    function Capacity(): (n: nat)
      requires Valid()
      reads this, buf
      ensures n == 65536 - |Contents()|
    {
      65536 - Size()
    }

    method WriteAll(src: seq<byte>) returns (ok: bool)
      requires Valid()
      modifies this, buf
      ensures Valid()
      ensures (Contents(), Reply(ok, [])) == Apply(old(Contents()), ByteQueue.WriteAll(src))
    {
      hide Span, Contents;
      if |src| > Capacity() {
        return false;
      }
      ghost var q := Contents();
      for i := 0 to |src|
        invariant Valid()
        invariant Contents() == q + Fitting(q, src[..i])
      {
        hide Apply, Fitting;
        var _ := Put(src[i]);
        FittingGrows(q, src, i);
      }
      assert src[..|src|] == src;
      return true;
    }

    method ReadFull(len: nat) returns (ok: bool, dst: seq<byte>)
      requires Valid()
      modifies this
      ensures Valid()
      ensures (Contents(), Reply(ok, dst)) == Apply(old(Contents()), ByteQueue.ReadFull(len))
    {
      hide Span, Contents;
      if len > Size() {
        return false, [];
      }
      dst := [];
      ghost var q := Contents();
      for i := 0 to len
        invariant Valid()
        invariant dst == q[..i] && Contents() == q[i..]
      {
        hide Apply;
        TakenGrows(q, i);
        var _, octet := Get();
        dst := dst + [octet];
      }
      return true, dst;
    }

    method Perform(op: Op) returns (reply: Reply)
      requires Valid()
      modifies this, buf
      ensures Valid()
      ensures (Contents(), reply) == Apply(old(Contents()), op)
    {
      match op
      case Put(octet) =>
        var ok := Put(octet);
        return Reply(ok, []);
      case Get =>
        var ok, octet := Get();
        return Reply(ok, if ok then [octet] else []);
      case WriteAll(src) =>
        var ok := WriteAll(src);
        return Reply(ok, []);
      case ReadFull(len) =>
        var ok, dst := ReadFull(len);
        return Reply(ok, dst);
    }

    /** Refinement over whole runs: every interleaving of calls, across every wrap of the indices,
        answers as the queue of values does. */
    method PerformAll(ops: seq<Op>) returns (replies: seq<Reply>)
      requires Valid()
      modifies this, buf
      ensures Valid()
      ensures (Contents(), replies) == Run(old(Contents()), ops)
    {
      if ops == [] {
        return [];
      }
      var reply := Perform(ops[0]);
      var rest := PerformAll(ops[1..]);
      return [reply] + rest;
    }
  }
}
