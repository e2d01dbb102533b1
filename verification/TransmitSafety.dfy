/** Handling a completion keeps the invariant, so every reachable state has it. */
module TransmitSafety {
  import opened ByteStreams
  import opened Outcomes
  import opened Completions
  import opened CompletionQueues
  import opened BufferGroups
  import opened KernelMemory
  import opened FrameHeaders
  import opened FrameCodec
  import opened TransmitterSpec
  import opened TransmitSystem
  import opened TransmitRuns

  /** What handling the oldest completion reports, told from what the kernel did. */
  function Expected(cqe: Cqe): Option<ErrorCode> {
    if cqe.op == SEND then
      if cqe.result < 0 then Some(SendFailed) else if cqe.result == 0 then Some(SendReturnedZero) else None
    else if cqe.result < 0 && cqe != NO_BUFFERS_CQE then Some(TunReadFailed)
    else None
  }

  // --- Starting a send --------------------------------------------------------------------------

  /** No send is under way, and what is kept of the front frame is right. */
  ghost predicate Ready(p: Pool, mem: seq<byte>, tx: TxState) {
    && |mem| == p.Bytes() && p.size < U32_LIMIT && AllFit(p, tx.queue)
    && !tx.sendInProgress
    && (tx.queue == [] ==> tx.current.None?)
    && (tx.queue != [] && tx.current.Some? ==>
          var current, packet := tx.current.value, PacketOf(p, mem, tx.queue[0]);
          && current.frame == tx.queue[0]
          && current.header == Encode(|packet|, CrcField(packet))
          && current.bytesSent < WIRE_SIZE + |packet|)
  }

  /** `tx'` is `tx` sending what is left of the front frame. */
  ghost predicate Kicked(p: Pool, mem: seq<byte>, tx: TxState, tx': TxState) {
    && |mem| == p.Bytes() && AllFit(p, tx.queue)
    && if tx.queue == [] then tx' == tx else
       && tx'.current.Some?
       && tx' == tx.(current := tx'.current, sendInProgress := true, sendOps := tx.sendOps + 1)
       && CurrentOk(p, tx'.current.value, PacketOf(p, mem, tx.queue[0]))
       && tx'.current.value.frame == tx.queue[0]
       && tx'.current.value.bytesSent == if tx.current.Some? then tx.current.value.bytesSent else 0
  }

  lemma RestSends(p: Pool, mem: seq<byte>, tx: TxState)
    requires Ready(p, mem, tx) && tx.queue != [] && tx.current.Some?
    ensures SendRest(p, tx).1 == Done && Kicked(p, mem, tx, SendRest(p, tx).0)
  {
    hide Encode, CrcField, Pool.Base, Remaining;
  }

  lemma KickSends(p: Pool, mem: seq<byte>, tx: TxState)
    requires Ready(p, mem, tx)
    ensures KickSend(p, mem, tx).1 == Done && Kicked(p, mem, tx, KickSend(p, mem, tx).0)
  {
    hide Encode, CrcField, SendRest;
    if tx.queue != [] {
      if tx.current.Some? {
        RestSends(p, mem, tx);
      } else {
        var packet := PacketOf(p, mem, tx.queue[0]);
        assert Fits(p, tx.queue[0]);
        RestSends(p, mem, tx.(current := Some(CurrentFrame(tx.queue[0], Encode(|packet|, CrcField(packet)), 0, []))));
      }
    }
  }

  // --- Handling a packet ------------------------------------------------------------------------

  /** The transmitter with one more packet queued, reading again if the operation ended. */
  function Pushed(tx: TxState, f: OutFrame, more: bool): TxState {
    var tx1 := tx.(queue := tx.queue + [f]);
    if !more && !tx1.coolingDown then ArmRead(tx1) else tx1
  }

  lemma ReadNext(p: Pool, s: TxSystem, t: TxSystem)
    requires s.cq != [] && HandledTo(p, s, t) && CarriesPacket(p, s.cq[0])
    ensures |s.mem| == p.Bytes() && p.size < U32_LIMIT
    ensures var r := KickSend(p, s.mem, Pushed(s.tx, OutFrame(s.cq[0].bid.value, s.cq[0].result), s.cq[0].more));
      r.1 == Done ==> t == s.(tx := r.0, cq := s.cq[1..], taken := s.taken + PacketsOf(p, s.mem, s.cq[0]))
  {
    hide KickSend, PacketsOf;
  }

  lemma PushedPartition(p: Pool, tx: TxState, cq: seq<Cqe>, f: OutFrame, tx': TxState)
    requires Partition(p, tx, cq) && cq != [] && CarriesPacket(p, cq[0]) && f.bid == cq[0].bid.value
    requires tx'.queue == tx.queue + [f] && tx'.avail == tx.avail
    ensures Partition(p, tx', cq[1..])
  {
    assert QueueBids(tx'.queue) == QueueBids(tx.queue) + [f.bid];
    assert CarriedBids(p, cq) == [f.bid] + CarriedBids(p, cq[1..]);
    hide CarriesPacket, Everything, QueueBids;
  }

  /** After a packet is queued, the front frame is being sent. */
  ghost predicate PushedTo(p: Pool, mem: seq<byte>, tx: TxState, f: OutFrame, more: bool, tx': TxState) {
    if tx.queue != [] then tx' == Pushed(tx, f, more) else Kicked(p, mem, Pushed(tx, f, more), tx')
  }

  lemma PushedOperations(p: Pool, mem: seq<byte>, tx: TxState, cq: seq<Cqe>, f: OutFrame, tx': TxState)
    requires Operations(tx, cq) && cq != [] && cq[0].op == READ && cq[0].result >= 0
    requires PushedTo(p, mem, tx, f, cq[0].more, tx')
    ensures Operations(tx', cq[1..]) && tx'.queue == tx.queue + [f] && tx'.avail == tx.avail
  {
    hide CurrentOk, PacketOf, AllFit;
  }

  lemma PushedTaken(p: Pool, s: TxSystem, tx: TxState, f: OutFrame)
    requires Taken(p, s) && s.cq != [] && CarriesPacket(p, s.cq[0]) && p.size < U32_LIMIT
    requires f == OutFrame(s.cq[0].bid.value, s.cq[0].result) && tx.queue == s.tx.queue + [f]
    ensures Taken(p, s.(tx := tx, cq := s.cq[1..], taken := s.taken + PacketsOf(p, s.mem, s.cq[0])))
    ensures PacketsOf(p, s.mem, s.cq[0]) == [PacketOf(p, s.mem, f)] && Fits(p, f)
    ensures AllFit(p, tx.queue)
  {
    assert PacketsOf(p, s.mem, s.cq[0]) == [PacketOf(p, s.mem, f)];
    assert |PacketOf(p, s.mem, f)| < U32_LIMIT;
    assert Fits(p, f);
    hide PacketOf, CarriesPacket, Fits, PacketsOf;
    var packet := PacketOf(p, s.mem, f);
    assert QueuePackets(p, s.mem, tx.queue) == QueuePackets(p, s.mem, s.tx.queue) + [packet];
    assert (s.taken + [packet])[s.done..] == s.taken[s.done..] + [packet];
    Associative(s.taken, [packet], CarriedPackets(p, s.mem, s.cq[1..]));
  }

  lemma PushedSent(p: Pool, s: TxSystem, tx': TxState, f: OutFrame)
    requires Taken(p, s) && Fits(p, f) && s.cq != [] && s.cq[0].op == READ && Operations(s.tx, s.cq)
    requires Sent(p, s.tx, s.cq, s.taken, s.done, s.sent) && |PacketOf(p, s.mem, f)| < U32_LIMIT
    requires PushedTo(p, s.mem, s.tx, f, s.cq[0].more, tx') && tx'.queue == s.tx.queue + [f]
    ensures Sent(p, tx', s.cq[1..], s.taken + [PacketOf(p, s.mem, f)], s.done, s.sent)
  {
    hide PacketOf, CurrentOk, EncodeAll, EncodeFrame, Flow, CarriedPackets;
    var packet := PacketOf(p, s.mem, f);
    assert (s.taken + [packet])[..s.done] == s.taken[..s.done];
    if s.tx.queue == [] {
      assert QueuePackets(p, s.mem, s.tx.queue) == [];
      assert s.done == |s.taken|;
      assert Pushed(s.tx, f, s.cq[0].more).queue[0] == f;
      NothingInFlight(s.cq[1..]);
      assert EncodeFrame(packet)[..0] == [];
    }
  }

  lemma ReadyPushed(p: Pool, s: TxSystem, f: OutFrame, more: bool)
    requires |s.mem| == p.Bytes() && p.size < U32_LIMIT && Operations(s.tx, s.cq)
    requires AllFit(p, s.tx.queue + [f])
    ensures s.tx.queue == [] ==> Ready(p, s.mem, Pushed(s.tx, f, more))
  {
    hide Flow, PacketOf;
  }

  lemma ReadPushes(p: Pool, s: TxSystem, t: TxSystem, f: OutFrame)
    requires s.cq != [] && |s.mem| == p.Bytes() && p.size < U32_LIMIT
    requires Operations(s.tx, s.cq) && AllFit(p, s.tx.queue + [f])
    requires HandledTo(p, s, t) && CarriesPacket(p, s.cq[0]) && f == OutFrame(s.cq[0].bid.value, s.cq[0].result)
    ensures PushedTo(p, s.mem, s.tx, f, s.cq[0].more, t.tx)
    ensures t == s.(tx := t.tx, cq := s.cq[1..], taken := s.taken + PacketsOf(p, s.mem, s.cq[0]))
  {
    hide HandledTo, CarriesPacket, PacketsOf, Fits, Flow, Kicked, Ready;
    var tx1 := Pushed(s.tx, f, s.cq[0].more);
    ReadNext(p, s, t);
    ReadyPushed(p, s, f, s.cq[0].more);
    if s.tx.queue == [] {
      KickSends(p, s.mem, tx1);
      hide KickSend;
    } else {
      assert KickSend(p, s.mem, tx1) == (tx1, Done);
      hide KickSend;
    }
  }

  lemma ReadHandled(p: Pool, s: TxSystem, t: TxSystem)
    requires s.cq != [] && |s.mem| == p.Bytes()
    requires Inv(p, s) && HandledTo(p, s, t) && CarriesPacket(p, s.cq[0])
    ensures Inv(p, t)
  {
    hide HandledTo, Taken, Sent, Operations, Partition, PushedTo, PacketOf, PacketsOf;
    CarriesRead(p, s.cq[0]);
    hide CarriesPacket;
    var f := OutFrame(s.cq[0].bid.value, s.cq[0].result);
    PushedTaken(p, s, s.tx.(queue := s.tx.queue + [f]), f);
    hide AllFit;
    ReadPushes(p, s, t, f);
    PushedOperations(p, s.mem, s.tx, s.cq, f, t.tx);
    PushedTaken(p, s, t.tx, f);
    PushedSent(p, s, t.tx, f);
    PushedPartition(p, s.tx, s.cq, f, t.tx);
  }

  lemma CarriesRead(p: Pool, cqe: Cqe)
    requires CarriesPacket(p, cqe)
    ensures cqe.op == READ && cqe.result >= 0 && cqe.bid.Some? && cqe.bid.value < p.count && cqe.result <= p.size
  {
  }

  // --- Handling the end of a read ---------------------------------------------------------------

  lemma ReadEndNext(p: Pool, s: TxSystem, t: TxSystem)
    requires s.cq != [] && HandledTo(p, s, t) && CqeOk(p, s.cq[0]) && s.cq[0].op == READ && !CarriesPacket(p, s.cq[0])
    requires s.tx.sendInProgress <==> s.tx.queue != []
    ensures t.failure == Expected(s.cq[0])
    ensures t.failure.None? ==>
              s.cq[0] == NO_BUFFERS_CQE && t == s.(tx := s.tx.(coolingDown := true), cq := s.cq[1..])
  {
    assert s.taken + [] == s.taken;
  }

  lemma NoPacket(p: Pool, mem: seq<byte>, cq: seq<Cqe>)
    requires |mem| == p.Bytes() && cq != [] && !CarriesPacket(p, cq[0])
    ensures PacketsOf(p, mem, cq[0]) == []
    ensures CarriedPackets(p, mem, cq) == CarriedPackets(p, mem, cq[1..])
    ensures CarriedBids(p, cq) == CarriedBids(p, cq[1..])
  {
    hide CarriesPacket;
  }

  lemma CoolingBooks(p: Pool, mem: seq<byte>, tx: TxState, cq: seq<Cqe>)
    requires |mem| == p.Bytes()
    requires Books(p, tx, cq) && cq != [] && cq[0] == NO_BUFFERS_CQE
    ensures Books(p, tx.(coolingDown := true), cq[1..])
  {
    hide Fits, CqeOk, Everything;
    NoPacket(p, mem, cq);
  }

  lemma CoolingTaken(p: Pool, s: TxSystem)
    requires Taken(p, s) && s.cq != [] && s.cq[0] == NO_BUFFERS_CQE
    ensures Taken(p, s.(tx := s.tx.(coolingDown := true), cq := s.cq[1..]))
  {
    NoPacket(p, s.mem, s.cq);
    hide CarriedPackets, PacketOf, Fits;
  }

  lemma CoolingSent(p: Pool, tx: TxState, cq: seq<Cqe>, taken: seq<Packet>, done: nat, sent: seq<byte>)
    requires Sent(p, tx, cq, taken, done, sent) && cq != [] && cq[0] == NO_BUFFERS_CQE
    ensures Sent(p, tx.(coolingDown := true), cq[1..], taken, done, sent)
  {
    hide CurrentOk, EncodeAll, EncodeFrame;
  }

  lemma ReadEndHandled(p: Pool, s: TxSystem, t: TxSystem)
    requires s.cq != [] && |s.mem| == p.Bytes()
    requires Inv(p, s) && HandledTo(p, s, t) && s.cq[0].op == READ && !CarriesPacket(p, s.cq[0])
    ensures t.failure == Expected(s.cq[0])
    ensures t.failure.None? ==> Inv(p, t)
  {
    hide HandledTo, AllFit, CarriesPacket, CqeOk, Expected, Taken, Sent, Partition, Flow;
    assert CqeOk(p, s.cq[0]);
    ReadEndNext(p, s, t);
    if t.failure.None? {
      CoolingBooks(p, s.mem, s.tx, s.cq);
      CoolingTaken(p, s);
      CoolingSent(p, s.tx, s.cq, s.taken, s.done, s.sent);
    }
  }

  // --- Handling a send --------------------------------------------------------------------------

  /** The transmitter told that `n` more bytes of the current frame were taken. */
  function Acked(tx: TxState, n: nat): TxState
    requires tx.current.Some?
  {
    tx.(sendInProgress := false, current := Some(tx.current.value.(bytesSent := tx.current.value.bytesSent + n)))
  }

  function Total(tx: TxState): nat
    requires tx.current.Some?
  {
    WIRE_SIZE + tx.current.value.frame.size
  }

  /** The next state of the transmitter before it starts the next send. */
  function AfterAck(p: Pool, tx: TxState, n: nat): TxState
    requires tx.current.Some?
  {
    CoolDown(p, if tx.current.value.bytesSent + n == Total(tx) then FrameSent(p, Acked(tx, n)).0 else Acked(tx, n))
  }

  lemma SendNext(p: Pool, s: TxSystem, t: TxSystem)
    requires s.cq != [] && HandledTo(p, s, t) && s.cq[0].op == SEND && s.tx.current.Some?
    requires s.tx.queue != [] && s.tx.current.value.frame.bid < p.count
    requires s.cq[0].result > 0 ==> s.tx.current.value.bytesSent + s.cq[0].result <= Total(s.tx)
    ensures |s.mem| == p.Bytes() && p.size < U32_LIMIT
    ensures s.cq[0].result <= 0 ==> t.failure == Expected(s.cq[0]) && t.failure.Some?
    ensures s.cq[0].result > 0 ==>
              var tx1 := AfterAck(p, s.tx, s.cq[0].result);
              var r := KickSend(p, s.mem, tx1);
              r.1 == Done ==>
                t == s.(tx := r.0, cq := s.cq[1..], sends := s.sends + 1,
                        done := if |r.0.queue| < |s.tx.queue| then s.done + 1 else s.done)
  {
    hide KickSend;
    assert s.taken + [] == s.taken;
  }

  /** The front frame is done: it leaves the queue and its buffer returns. */
  predicate Popped(tx: TxState, tx1: TxState) {
    && tx.queue != [] && tx1.current == None && tx1.queue == tx.queue[1..]
    && tx1.avail == tx.avail + multiset{tx.queue[0].bid}
  }

  /** Exactly what acknowledging `n` bytes changes. */
  predicate AckTo(p: Pool, tx: TxState, n: nat, tx1: TxState) {
    && tx.current.Some? && tx.queue != []
    && !tx1.sendInProgress && tx1.sendOps == tx.sendOps
    && (if tx.current.value.bytesSent + n == Total(tx) then Popped(tx, tx1)
        else tx1.current == Acked(tx, n).current && tx1.queue == tx.queue && tx1.avail == tx.avail)
    && (if tx.coolingDown && |tx1.queue| <= p.count / 2
        then !tx1.coolingDown && tx1.readOps == tx.readOps + 1
        else tx1.coolingDown == tx.coolingDown && tx1.readOps == tx.readOps)
  }

  lemma AckedIs(p: Pool, tx: TxState, n: nat)
    requires tx.current.Some? && tx.queue != [] && tx.current.value.frame == tx.queue[0] && tx.queue[0].bid < p.count
    requires n > 0 && tx.current.value.bytesSent + n <= Total(tx)
    ensures AckTo(p, tx, n, AfterAck(p, tx, n))
  {
  }

  /** A completed send is the only one, and the transmitter knows which frame it belongs to. */
  lemma SendFront(p: Pool, s: TxSystem)
    requires s.cq != [] && |s.mem| == p.Bytes()
    requires Inv(p, s) && s.cq[0].op == SEND
    ensures s.tx.sendOps == 0 && CountOf(SEND, s.cq[1..]) == 0 && InFlight(s.cq[1..]) == 0
    ensures s.tx.queue != [] && s.done < |s.taken| && s.tx.current.Some? && Fits(p, s.tx.queue[0])
    ensures s.tx.current.value.frame == s.tx.queue[0] && PacketOf(p, s.mem, s.tx.queue[0]) == s.taken[s.done]
    ensures CurrentOk(p, s.tx.current.value, s.taken[s.done])
    ensures s.cq[0].result > 0 ==> InFlight(s.cq) == s.cq[0].result
                                   && s.tx.current.value.bytesSent + s.cq[0].result <= Total(s.tx)
  {
    hide Taken, CurrentOk, Flow, EncodeAll, EncodeFrame, Partition, QueueOk, AllFit, PacketOf, Fits;
    NothingInFlight(s.cq[1..]);
    FrontPacket(p, s);
    FrameLength(p, s.tx.current.value, s.taken[s.done]);
  }

  lemma AckedReady(p: Pool, mem: seq<byte>, tx: TxState, n: nat, tx1: TxState)
    requires |mem| == p.Bytes() && p.size < U32_LIMIT && AllFit(p, tx.queue)
    requires AckTo(p, tx, n, tx1) && tx.current.value.frame == tx.queue[0]
    requires tx.current.value.bytesSent + n <= Total(tx)
    requires CurrentOk(p, tx.current.value, PacketOf(p, mem, tx.queue[0]))
    ensures Ready(p, mem, tx1)
  {
    hide Encode, CrcField, Remaining, Pool.Base, PacketOf;
  }

  lemma AckedOperations(p: Pool, mem: seq<byte>, tx: TxState, cq: seq<Cqe>, n: nat, tx1: TxState, tx': TxState)
    requires Operations(tx, cq) && cq != [] && cq[0].op == SEND && AckTo(p, tx, n, tx1) && Kicked(p, mem, tx1, tx')
    requires tx.sendOps == 0 && CountOf(SEND, cq[1..]) == 0
    ensures Operations(tx', cq[1..])
    ensures tx'.queue == tx1.queue && tx'.avail == tx1.avail
    ensures tx1.queue == [] ==> tx1.current == None
  {
    hide CurrentOk, PacketOf, AllFit;
    if tx.coolingDown {
      FlowRearm(READ, cq[1..], tx.readOps);
    }
  }

  lemma PoppedBids(queue: seq<OutFrame>)
    requires queue != []
    ensures multiset(QueueBids(queue)) == multiset{queue[0].bid} + multiset(QueueBids(queue[1..]))
  {
    assert QueueBids(queue) == [queue[0].bid] + QueueBids(queue[1..]);
  }

  lemma AckedPartition(p: Pool, mem: seq<byte>, tx: TxState, cq: seq<Cqe>, n: nat, tx1: TxState, tx': TxState)
    requires |mem| == p.Bytes()
    requires Partition(p, tx, cq) && cq != [] && cq[0].op == SEND && AckTo(p, tx, n, tx1)
    requires tx'.queue == tx1.queue && tx'.avail == tx1.avail
    ensures Partition(p, tx', cq[1..])
  {
    hide QueueBids, CarriedBids, Everything;
    NoPacket(p, mem, cq);
    PoppedBids(tx.queue);
  }

  lemma AckedTaken(p: Pool, s: TxSystem, n: nat, tx1: TxState, t: TxSystem)
    requires Taken(p, s) && s.cq != [] && s.cq[0].op == SEND && AckTo(p, s.tx, n, tx1)
    requires s.done < |s.taken|
    requires t == s.(tx := t.tx, cq := s.cq[1..], sends := t.sends,
                     done := if |t.tx.queue| < |s.tx.queue| then s.done + 1 else s.done)
    requires t.tx.queue == tx1.queue
    ensures Taken(p, t)
  {
    NoPacket(p, s.mem, s.cq);
    hide CarriedPackets, PacketOf, Fits;
    var ps := QueuePackets(p, s.mem, s.tx.queue);
    if |t.tx.queue| < |s.tx.queue| {
      assert QueuePackets(p, s.mem, t.tx.queue) == ps[1..];
      assert s.taken[s.done + 1..] == s.taken[s.done..][1..];
    }
  }

  /** Sending a frame to its end appends it to the encoded packets. */
  lemma FrameDone(taken: seq<Packet>, done: nat)
    requires done < |taken| && AllEncodable(taken)
    ensures EncodeAll(taken[..done + 1]) == EncodeAll(taken[..done]) + EncodeFrame(taken[done])
  {
    assert taken[..done + 1] == taken[..done] + [taken[done]];
    hide EncodeFrame;
    EncodeAllSnoc(taken[..done], taken[done]);
  }

  /** The send just started is of the packet `packet`, from its byte `from` on. */
  lemma KickedCurrent(p: Pool, mem: seq<byte>, tx1: TxState, tx': TxState)
    requires Kicked(p, mem, tx1, tx') && tx1.queue != [] && Fits(p, tx1.queue[0])
    ensures tx'.current.Some? && tx'.queue == tx1.queue
    ensures CurrentOk(p, tx'.current.value, PacketOf(p, mem, tx1.queue[0]))
    ensures tx'.current.value.bytesSent == if tx1.current.Some? then tx1.current.value.bytesSent else 0
  {
    hide CurrentOk, PacketOf;
  }

  lemma SentOn(p: Pool, tx: TxState, tx': TxState, cq: seq<Cqe>, taken: seq<Packet>, done: nat, sent: seq<byte>, n: nat)
    requires Sent(p, tx, cq, taken, done, sent) && cq != [] && InFlight(cq) == n && InFlight(cq[1..]) == 0
    requires tx.queue != [] && tx'.queue != [] && tx'.current.Some? && CurrentOk(p, tx'.current.value, taken[done])
    requires tx'.current.value.bytesSent == tx.current.value.bytesSent + n
    ensures Sent(p, tx', cq[1..], taken, done, sent)
  {
    hide CurrentOk, EncodeAll, EncodeFrame, InFlight;
  }

  lemma SentThrough(p: Pool, tx: TxState, tx': TxState, cq: seq<Cqe>, taken: seq<Packet>, done: nat,
                    sent: seq<byte>, n: nat)
    requires Sent(p, tx, cq, taken, done, sent) && cq != [] && InFlight(cq) == n && InFlight(cq[1..]) == 0
    requires tx.queue != [] && tx.current.value.bytesSent + n == WIRE_SIZE + |taken[done]|
    requires |EncodeFrame(taken[done])| == WIRE_SIZE + |taken[done]|
    requires tx'.queue != [] ==>
               tx'.current.Some? && done + 1 < |taken| && CurrentOk(p, tx'.current.value, taken[done + 1])
                                 && tx'.current.value.bytesSent == 0
    ensures Sent(p, tx', cq[1..], taken, done + 1, sent)
  {
    hide CurrentOk, EncodeAll, EncodeFrame, InFlight;
    FrameDone(taken, done);
    var frame := EncodeFrame(taken[done]);
    assert frame[..|frame|] == frame;
    if tx'.queue != [] {
      assert EncodeFrame(taken[done + 1])[..0] == [];
    }
  }

  lemma AckedSent(p: Pool, s: TxSystem, n: nat, tx1: TxState, t: TxSystem)
    requires |s.mem| == p.Bytes() && s.done < |s.taken| && AllEncodable(s.taken)
    requires Sent(p, s.tx, s.cq, s.taken, s.done, s.sent) && AckTo(p, s.tx, n, tx1)
    requires Kicked(p, s.mem, tx1, t.tx) && CurrentOk(p, s.tx.current.value, s.taken[s.done])
    requires s.cq != [] && InFlight(s.cq) == n && InFlight(s.cq[1..]) == 0
    requires t.tx.queue == tx1.queue
    requires t == s.(tx := t.tx, cq := s.cq[1..], sends := t.sends,
                     done := if |t.tx.queue| < |s.tx.queue| then s.done + 1 else s.done)
    requires t.tx.queue != [] ==> Fits(p, t.tx.queue[0]) && t.done < |t.taken|
                                  && PacketOf(p, s.mem, t.tx.queue[0]) == t.taken[t.done]
    ensures Sent(p, t.tx, t.cq, t.taken, t.done, t.sent)
  {
    hide EncodeAll, EncodeFrame, PacketOf, CurrentOk, Fits, Kicked, Sent, InFlight;
    FrameLength(p, s.tx.current.value, s.taken[s.done]);
    if tx1.queue != [] {
      KickedCurrent(p, s.mem, tx1, t.tx);
    }
    if s.tx.current.value.bytesSent + n == Total(s.tx) {
      SentThrough(p, s.tx, t.tx, s.cq, s.taken, s.done, s.sent, n);
    } else {
      SentOn(p, s.tx, t.tx, s.cq, s.taken, s.done, s.sent, n);
    }
  }

  lemma SendKicks(p: Pool, s: TxSystem, t: TxSystem, n: nat)
    requires s.cq != [] && |s.mem| == p.Bytes() && n == s.cq[0].result
    requires Inv(p, s) && HandledTo(p, s, t) && s.cq[0].op == SEND && n > 0
    ensures s.tx.current.Some? && AckTo(p, s.tx, n, AfterAck(p, s.tx, n))
    ensures Kicked(p, s.mem, AfterAck(p, s.tx, n), t.tx)
    ensures t == s.(tx := t.tx, cq := s.cq[1..], sends := s.sends + 1,
                    done := if |t.tx.queue| < |s.tx.queue| then s.done + 1 else s.done)
  {
    hide Taken, Sent, Partition, Operations, HandledTo, PacketOf, AfterAck, AckTo, Kicked, Ready, KickSend, CurrentOk,
         QueueOk;
    SendFront(p, s);
    hide AllFit;
    AckedIs(p, s.tx, n);
    SendNext(p, s, t);
    AckedReady(p, s.mem, s.tx, n, AfterAck(p, s.tx, n));
    KickSends(p, s.mem, AfterAck(p, s.tx, n));
  }

  lemma SendHandled(p: Pool, s: TxSystem, t: TxSystem)
    requires s.cq != [] && |s.mem| == p.Bytes()
    requires Inv(p, s) && HandledTo(p, s, t) && s.cq[0].op == SEND
    ensures t.failure == Expected(s.cq[0])
    ensures t.failure.None? ==> Inv(p, t)
  {
    hide Taken, Sent, Partition, Operations, HandledTo, PacketOf, AfterAck, AckTo, Kicked, KickSend, CurrentOk, CqeOk,
         InFlight, AllFit;
    SendFront(p, s);
    if s.cq[0].result <= 0 {
      SendNext(p, s, t);
    } else {
      var n := s.cq[0].result;
      var tx1 := AfterAck(p, s.tx, n);
      SendKicks(p, s, t, n);
      AckedOperations(p, s.mem, s.tx, s.cq, n, tx1, t.tx);
      AckedPartition(p, s.mem, s.tx, s.cq, n, tx1, t.tx);
      AckedTaken(p, s, n, tx1, t);
      TakenEncodable(p, s);
      TakenEncodable(p, t);
      if t.tx.queue != [] {
        FrontPacket(p, t);
      }
      AckedSent(p, s, n, tx1, t);
    }
  }

  lemma TakenEncodable(p: Pool, s: TxSystem)
    requires Taken(p, s)
    ensures AllEncodable(s.taken) && AllFit(p, s.tx.queue)
  {
    hide CarriedPackets, QueuePackets;
  }

  // --- Every reachable state --------------------------------------------------------------------

  /** Handling reports exactly the errors the kernel is to blame for, and otherwise keeps the invariant. */
  lemma HandleKeeps(p: Pool, s: TxSystem, t: TxSystem)
    requires s.cq != [] && |s.mem| == p.Bytes()
    requires Inv(p, s) && HandledTo(p, s, t)
    ensures t.failure == Expected(s.cq[0])
    ensures t.failure.None? ==> Inv(p, t)
  {
    assert CqeOk(p, s.cq[0]);
    assert s.cq[0].op == SEND || s.cq[0].op == READ;
    if CarriesPacket(p, s.cq[0]) {
      assert Expected(s.cq[0]) == None;
    }
    hide Inv, HandledTo, CarriesPacket, CqeOk, Expected;
    if s.cq[0].op == SEND {
      SendHandled(p, s, t);
    } else if CarriesPacket(p, s.cq[0]) {
      ReadHandled(p, s, t);
      assert t.failure == None by { InvMemory(p, t); }
    } else {
      ReadEndHandled(p, s, t);
    }
  }

  lemma InvMemory(p: Pool, s: TxSystem)
    requires Inv(p, s)
    ensures |s.mem| == p.Bytes() && s.failure == None
  {
    hide Books, Sent, CarriedPackets, QueuePackets;
  }

  lemma KernelReadKeeps(p: Pool, s: TxSystem, e: Event, t: TxSystem)
    requires |s.mem| == p.Bytes()
    requires Inv(p, s) && StepTo(p, s, e, t) && (e.NoBuffers? || e.ReadEnds?)
    ensures Inv(p, t)
  {
    hide Inv, HandleNext, Offered;
    if e.NoBuffers? {
      ReadEndKeeps(p, s, t, NO_BUFFERS_CQE);
    } else {
      ReadEndKeeps(p, s, t, Cqe(READ, e.result, None, false));
    }
  }

  lemma KernelSendKeeps(p: Pool, s: TxSystem, e: Event, t: TxSystem)
    requires |s.mem| == p.Bytes()
    requires Inv(p, s) && StepTo(p, s, e, t) && (e.Send? || e.SendEnds?)
    ensures Inv(p, t)
  {
    hide Inv, HandleNext, Offered, OnlyAvailChanges, Fill;
    InvCurrent(p, s);
    if e.Send? {
      PostSendKeeps(p, s, Cqe(SEND, e.n, None, false), e.n);
    } else {
      PostSendKeeps(p, s, Cqe(SEND, e.result, None, false), 0);
      assert s.sent + Offered(s.mem, s.tx.current.value.header, s.tx.current.value.segments)[..0] == s.sent;
    }
  }

  lemma InvCurrent(p: Pool, s: TxSystem)
    requires Inv(p, s)
    ensures s.tx.sendOps > 0 ==> s.tx.current.Some?
  {
    hide Taken, Sent, Partition, Flow, AllFit, QueueOk;
  }

  /** One step of the kernel or of the session. */
  lemma EventKeeps(p: Pool, s: TxSystem, e: Event, t: TxSystem)
    requires Inv(p, s) && StepTo(p, s, e, t)
    ensures t.failure.None? ==> Inv(p, t)
  {
    hide Inv, HandleNext, OnlyAvailChanges, Fill, Offered;
    InvMemory(p, s);
    match e {
      case Scribble(mem) => ScribbleKeeps(p, s, t, mem);
      case ReadPacket(bid, packet, more) => ReadKeeps(p, s, t, bid, packet, more);
      case NoBuffers => KernelReadKeeps(p, s, e, t);
      case ReadEnds(_) => KernelReadKeeps(p, s, e, t);
      case Send(_) => KernelSendKeeps(p, s, e, t);
      case SendEnds(_) => KernelSendKeeps(p, s, e, t);
      case Handle => HandleKeeps(p, s, t);
    }
  }
}
