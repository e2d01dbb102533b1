/** What holds in every state of every run of the transmitter and its kernel. */
module TransmitRuns {
  import opened ByteStreams
  import opened Outcomes
  import opened Completions
  import opened CompletionQueues
  import opened BufferGroups
  import opened KernelMemory
  import opened FrameHeaders
  import opened FrameCodec
  import opened TransmitterSpec
  import opened TransmitSystem

  // --- The invariant ----------------------------------------------------------------------------

  predicate CqeOk(p: Pool, cqe: Cqe) {
    || (cqe.op == SEND && !cqe.more && cqe.bid == None)
    || CarriesPacket(p, cqe)
    || (cqe.op == READ && cqe.result < 0 && !cqe.more && cqe.bid == None
        && (cqe.result == -ENOBUFS <==> cqe == NO_BUFFERS_CQE))
  }

  predicate QueueOk(p: Pool, cq: seq<Cqe>) {
    forall i | 0 <= i < |cq| :: CqeOk(p, cq[i])
  }

  function QueueBids(queue: seq<OutFrame>): seq<nat> {
    seq(|queue|, i requires 0 <= i < |queue| => queue[i].bid)
  }

  /** The buffers undelivered completions carry. */
  function CarriedBids(p: Pool, cq: seq<Cqe>): seq<nat> {
    if cq == [] then []
    else (if CarriesPacket(p, cq[0]) then [cq[0].bid.value] else []) + CarriedBids(p, cq[1..])
  }

  /** The packets on their way to the transmitter. */
  function CarriedPackets(p: Pool, mem: seq<byte>, cq: seq<Cqe>): seq<Packet>
    requires |mem| == p.Bytes()
  {
    if cq == [] then [] else PacketsOf(p, mem, cq[0]) + CarriedPackets(p, mem, cq[1..])
  }

  /** Bytes the socket took that the transmitter has not been told about. */
  function InFlight(cq: seq<Cqe>): nat {
    if cq == [] then 0 else (if cq[0].op == SEND && cq[0].result > 0 then cq[0].result else 0) + InFlight(cq[1..])
  }

  /** Each buffer belongs to the kernel, to one queued frame, or to one undelivered completion. */
  predicate Partition(p: Pool, tx: TxState, cq: seq<Cqe>) {
    tx.avail + multiset(QueueBids(tx.queue)) + multiset(CarriedBids(p, cq)) == Everything(p.count)
  }

  predicate AllFit(p: Pool, queue: seq<OutFrame>) {
    forall i | 0 <= i < |queue| :: Fits(p, queue[i])
  }

  /** One read armed unless cooling down; one send outstanding, of the front frame, exactly while frames wait. */
  predicate Operations(tx: TxState, cq: seq<Cqe>) {
    && Flow(READ, cq, tx.readOps, tx.coolingDown)
    && tx.sendOps + CountOf(SEND, cq) == (if tx.sendInProgress then 1 else 0)
    && (tx.sendInProgress <==> tx.queue != [])
    && (tx.current.Some? <==> tx.queue != [])
    && (tx.current.Some? && tx.queue != [] ==> tx.current.value.frame == tx.queue[0])
  }

  ghost predicate Books(p: Pool, tx: TxState, cq: seq<Cqe>) {
    p.size < U32_LIMIT && AllFit(p, tx.queue) && QueueOk(p, cq) && Partition(p, tx, cq) && Operations(tx, cq)
  }

  function QueuePackets(p: Pool, mem: seq<byte>, queue: seq<OutFrame>): (ps: seq<Packet>)
    requires |mem| == p.Bytes() && AllFit(p, queue)
    ensures |ps| == |queue|
  {
    seq(|queue|, i requires 0 <= i < |queue| => PacketOf(p, mem, queue[i]))
  }

  /** What was read is what was taken, then what the completions carry; the last packets taken wait in the queue. */
  predicate Taken(p: Pool, s: TxSystem) {
    && |s.mem| == p.Bytes() && AllFit(p, s.tx.queue)
    && s.read == s.taken + CarriedPackets(p, s.mem, s.cq)
    && s.done <= |s.taken| && s.taken[s.done..] == QueuePackets(p, s.mem, s.tx.queue)
    && AllEncodable(s.taken)
  }

  /** The send under way offers exactly the unsent rest of `packet`'s frame. */
  predicate CurrentOk(p: Pool, current: CurrentFrame, packet: Packet) {
    && Fits(p, current.frame) && |packet| == current.frame.size < U32_LIMIT
    && current.header == Encode(|packet|, CrcField(packet))
    && current.bytesSent < WIRE_SIZE + |packet|
    && current.segments == Remaining(IoVec(p.Base(current.frame.bid), |packet|), current.bytesSent)
  }

  /** The socket took every frame that is done, and of the front frame what was acknowledged or is in flight. */
  ghost predicate Sent(p: Pool, tx: TxState, cq: seq<Cqe>, taken: seq<Packet>, done: nat, sent: seq<byte>) {
    && done <= |taken| && AllEncodable(taken)
    && if tx.queue == [] then sent == EncodeAll(taken[..done]) else
       && tx.current.Some? && done < |taken|
       && CurrentOk(p, tx.current.value, taken[done])
       && var n := tx.current.value.bytesSent + InFlight(cq);
          && n <= WIRE_SIZE + |taken[done]|
          && sent == EncodeAll(taken[..done]) + EncodeFrame(taken[done])[..n]
  }

  ghost predicate Inv(p: Pool, s: TxSystem) {
    && s.failure.None?
    && Books(p, s.tx, s.cq)
    && Taken(p, s)
    && Sent(p, s.tx, s.cq, s.taken, s.done, s.sent)
  }

  // --- Queues -----------------------------------------------------------------------------------

  lemma {:induction false} CarriedSnoc(p: Pool, mem: seq<byte>, cq: seq<Cqe>, cqe: Cqe)
    requires |mem| == p.Bytes()
    ensures CarriedBids(p, cq + [cqe]) == CarriedBids(p, cq) + if CarriesPacket(p, cqe) then [cqe.bid.value] else []
    ensures CarriedPackets(p, mem, cq + [cqe]) == CarriedPackets(p, mem, cq) + PacketsOf(p, mem, cqe)
    ensures InFlight(cq + [cqe]) == InFlight(cq) + if cqe.op == SEND && cqe.result > 0 then cqe.result else 0
  {
    hide CarriesPacket, PacketsOf, Pool.Bytes;
    if cq == [] {
      assert cq + [cqe] == [cqe];
      assert [cqe][1..] == [];
    } else {
      assert (cq + [cqe])[1..] == cq[1..] + [cqe];
      CarriedSnoc(p, mem, cq[1..], cqe);
    }
  }

  lemma {:induction false} NothingInFlight(cq: seq<Cqe>)
    requires CountOf(SEND, cq) == 0
    ensures InFlight(cq) == 0
    decreases |cq|
  {
    if cq != [] {
      NothingInFlight(cq[1..]);
    }
  }

  // --- Memory -----------------------------------------------------------------------------------

  lemma {:induction false} CarriedPacketsFrame(p: Pool, avail: multiset<nat>, mem: seq<byte>, mem': seq<byte>,
                                               cq: seq<Cqe>)
    requires OnlyAvailChanges(p, avail, mem, mem')
    requires forall b | b in CarriedBids(p, cq) :: avail[b] == 0
    ensures CarriedPackets(p, mem', cq) == CarriedPackets(p, mem, cq)
    decreases |cq|
  {
    if cq != [] {
      var front := if CarriesPacket(p, cq[0]) then [cq[0].bid.value] else [];
      assert CarriedBids(p, cq) == front + CarriedBids(p, cq[1..]);
      if CarriesPacket(p, cq[0]) {
        assert front[0] in CarriedBids(p, cq);
        WindowFrame(p, avail, mem, mem', cq[0].bid.value, cq[0].result);
      }
      hide OnlyAvailChanges, CarriesPacket;
      CarriedPacketsFrame(p, avail, mem, mem', cq[1..]);
    }
  }

  lemma QueuePacketsFrame(p: Pool, avail: multiset<nat>, mem: seq<byte>, mem': seq<byte>, queue: seq<OutFrame>)
    requires OnlyAvailChanges(p, avail, mem, mem') && AllFit(p, queue)
    requires forall b | b in QueueBids(queue) :: avail[b] == 0
    ensures QueuePackets(p, mem', queue) == QueuePackets(p, mem, queue)
  {
    forall i | 0 <= i < |queue| ensures PacketOf(p, mem', queue[i]) == PacketOf(p, mem, queue[i]) {
      assert QueueBids(queue)[i] == queue[i].bid;
      WindowFrame(p, avail, mem, mem', queue[i].bid, queue[i].size);
    }
    hide OnlyAvailChanges, PacketOf;
  }

  /** No buffer has two owners. */
  lemma OneOwner(p: Pool, tx: TxState, cq: seq<Cqe>)
    requires Partition(p, tx, cq)
    ensures forall b | b in QueueBids(tx.queue) || b in CarriedBids(p, cq) :: tx.avail[b] == 0
    ensures forall b: nat :: tx.avail[b] <= 1
  {
    var all := Everything(p.count);
    forall b: nat
      ensures tx.avail[b] + multiset(QueueBids(tx.queue))[b] + multiset(CarriedBids(p, cq))[b] == all[b]
    {
    }
    forall b | b in QueueBids(tx.queue) || b in CarriedBids(p, cq) ensures tx.avail[b] == 0 {
      assert b in multiset(QueueBids(tx.queue)) || b in multiset(CarriedBids(p, cq));
    }
  }

  // --- What the kernel does ---------------------------------------------------------------------

  /** Whatever the kernel writes into its own buffers, no packet on its way changes. */
  lemma TakenFrame(p: Pool, s: TxSystem, mem: seq<byte>)
    requires Taken(p, s) && Partition(p, s.tx, s.cq) && OnlyAvailChanges(p, s.tx.avail, s.mem, mem)
    requires |mem| == p.Bytes()
    ensures Taken(p, s.(mem := mem))
  {
    hide OnlyAvailChanges, AllFit, QueuePackets, CarriedPackets;
    OneOwner(p, s.tx, s.cq);
    hide Partition;
    CarriedPacketsFrame(p, s.tx.avail, s.mem, mem, s.cq);
    QueuePacketsFrame(p, s.tx.avail, s.mem, mem, s.tx.queue);
  }

  lemma ScribbleKeeps(p: Pool, s: TxSystem, t: TxSystem, mem: seq<byte>)
    requires Inv(p, s) && StepTo(p, s, Scribble(mem), t)
    ensures Inv(p, t)
  {
    hide HandleNext, Taken, Sent, Partition;
    assert OnlyAvailChanges(p, s.tx.avail, s.mem, mem) && |mem| == p.Bytes();
    TakenFrame(p, s, mem);
  }

  lemma SameMemory(p: Pool, s: TxSystem)
    requires |s.mem| == p.Bytes()
    ensures OnlyAvailChanges(p, s.tx.avail, s.mem, s.mem)
  {
  }

  /** The read's next completion: `bid` is the buffer it takes, if any. */
  predicate ReadPosted(p: Pool, tx: TxState, tx': TxState, cqe: Cqe) {
    && CqeOk(p, cqe) && cqe.op == READ && tx.readOps > 0
    && tx' == tx.(readOps := if cqe.more then tx.readOps else tx.readOps - 1,
                  avail := if CarriesPacket(p, cqe) then tx.avail - multiset{cqe.bid.value} else tx.avail)
    && (CarriesPacket(p, cqe) ==> tx.avail[cqe.bid.value] > 0)
  }

  lemma PostReadPartition(p: Pool, mem: seq<byte>, tx: TxState, tx': TxState, cq: seq<Cqe>, cqe: Cqe)
    requires |mem| == p.Bytes() && Partition(p, tx, cq) && tx'.queue == tx.queue
    requires tx'.avail == if CarriesPacket(p, cqe) then tx.avail - multiset{cqe.bid.value} else tx.avail
    requires CarriesPacket(p, cqe) ==> tx.avail[cqe.bid.value] > 0
    ensures Partition(p, tx', cq + [cqe])
  {
    hide CarriesPacket, CarriedBids, QueueBids, Everything;
    CarriedSnoc(p, mem, cq, cqe);
  }

  lemma PostReadOperations(tx: TxState, tx': TxState, cq: seq<Cqe>, cqe: Cqe)
    requires Operations(tx, cq) && cqe.op == READ && tx.readOps > 0
    requires tx' == tx.(avail := tx'.avail, readOps := if cqe.more then tx.readOps else tx.readOps - 1)
    ensures Operations(tx', cq + [cqe])
  {
    hide Flow;
    FlowSnoc(READ, cq, tx.readOps, tx.coolingDown, cqe);
    CountSnoc(SEND, cq, cqe);
  }

  lemma PostReadBooks(p: Pool, mem: seq<byte>, tx: TxState, tx': TxState, cq: seq<Cqe>, cqe: Cqe)
    requires |mem| == p.Bytes()
    requires Books(p, tx, cq) && ReadPosted(p, tx, tx', cqe)
    ensures Books(p, tx', cq + [cqe])
  {
    hide CarriesPacket, CqeOk, Operations, Partition, Fits;
    PostReadPartition(p, mem, tx, tx', cq, cqe);
    PostReadOperations(tx, tx', cq, cqe);
  }

  lemma PostReadTaken(p: Pool, s: TxSystem, mem: seq<byte>, tx: TxState, cqe: Cqe)
    requires Taken(p, s) && Partition(p, s.tx, s.cq) && OnlyAvailChanges(p, s.tx.avail, s.mem, mem)
    requires |mem| == p.Bytes() && tx.queue == s.tx.queue
    ensures Taken(p, Post(s, tx, cqe).(mem := mem, read := s.read + PacketsOf(p, mem, cqe)))
  {
    hide OnlyAvailChanges, AllFit, QueuePackets, CarriedPackets, Partition, PacketsOf;
    TakenFrame(p, s, mem);
    CarriedSnoc(p, mem, s.cq, cqe);
    Associative(s.taken, CarriedPackets(p, mem, s.cq), PacketsOf(p, mem, cqe));
  }

  lemma PostReadSent(p: Pool, s: TxSystem, tx: TxState, cqe: Cqe)
    requires |s.mem| == p.Bytes()
    requires Sent(p, s.tx, s.cq, s.taken, s.done, s.sent) && tx.queue == s.tx.queue && tx.current == s.tx.current
    requires cqe.op == READ
    ensures Sent(p, tx, s.cq + [cqe], s.taken, s.done, s.sent)
  {
    hide CurrentOk, EncodeFrame, EncodeAll;
    CarriedSnoc(p, s.mem, s.cq, cqe);
  }

  lemma PostReadKeeps(p: Pool, s: TxSystem, mem: seq<byte>, tx: TxState, cqe: Cqe, packets: seq<Packet>)
    requires |s.mem| == p.Bytes() == |mem|
    requires Inv(p, s) && ReadPosted(p, s.tx, tx, cqe)
    requires OnlyAvailChanges(p, s.tx.avail, s.mem, mem) && PacketsOf(p, mem, cqe) == packets
    ensures Inv(p, Post(s, tx, cqe).(mem := mem, read := s.read + packets))
  {
    hide OnlyAvailChanges, Taken, Sent, Partition, Operations, PacketsOf, CqeOk, CarriesPacket;
    PostReadBooks(p, s.mem, s.tx, tx, s.cq, cqe);
    PostReadTaken(p, s, mem, tx, cqe);
    PostReadSent(p, s, tx, cqe);
  }

  lemma ReadKeeps(p: Pool, s: TxSystem, t: TxSystem, bid: nat, packet: Packet, more: bool)
    requires |s.mem| == p.Bytes()
    requires Inv(p, s) && StepTo(p, s, ReadPacket(bid, packet, more), t)
    ensures Inv(p, t)
  {
    hide Inv, HandleNext;
    FillFrame(p, s.tx.avail, s.mem, bid, packet);
    hide OnlyAvailChanges, Fill, Pool.Window;
    PostReadKeeps(p, s, t.mem, t.tx, Cqe(READ, |packet|, Some(bid), more), [packet]);
  }

  lemma ReadEndKeeps(p: Pool, s: TxSystem, t: TxSystem, cqe: Cqe)
    requires |s.mem| == p.Bytes()
    requires Inv(p, s) && t == Post(s, t.tx, cqe) && ReadPosted(p, s.tx, t.tx, cqe) && cqe.result < 0
    ensures Inv(p, t)
  {
    hide Inv;
    SameMemory(p, s);
    hide OnlyAvailChanges;
    PostReadKeeps(p, s, s.mem, t.tx, cqe, []);
    assert s.read + [] == s.read;
  }

  // --- What the socket takes --------------------------------------------------------------------

  lemma OfferedCons(mem: seq<byte>, header: seq<byte>, first: Segment, rest: seq<Segment>)
    ensures Offered(mem, header, [first] + rest) == SegmentBytes(mem, header, first) + Offered(mem, header, rest)
  {
    hide SegmentBytes;
    assert ([first] + rest)[1..] == rest;
  }

  lemma OfferedOne(mem: seq<byte>, header: seq<byte>, v: IoVec)
    requires v.base + v.len <= |mem|
    ensures Offered(mem, header, [PoolSegment(v)]) == mem[v.base..v.base + v.len]
  {
    OfferedCons(mem, header, PoolSegment(v), []);
    assert Offered(mem, header, []) == [];
    assert [PoolSegment(v)] + [] == [PoolSegment(v)];
  }

  lemma OfferedTwo(mem: seq<byte>, header: seq<byte>, n: nat, v: IoVec)
    requires |header| == WIRE_SIZE && n < WIRE_SIZE && v.base + v.len <= |mem|
    ensures Offered(mem, header, [HeaderSegment(n, WIRE_SIZE - n), PoolSegment(v)])
         == header[n..] + mem[v.base..v.base + v.len]
  {
    hide Offered;
    OfferedOne(mem, header, v);
    OfferedCons(mem, header, HeaderSegment(n, WIRE_SIZE - n), [PoolSegment(v)]);
    assert [HeaderSegment(n, WIRE_SIZE - n)] + [PoolSegment(v)] == [HeaderSegment(n, WIRE_SIZE - n), PoolSegment(v)];
    assert header[n..n + (WIRE_SIZE - n)] == header[n..];
  }

  lemma DropConcat<T>(a: seq<T>, b: seq<T>, n: nat)
    requires n <= |a| + |b|
    ensures (a + b)[n..] == if n <= |a| then a[n..] + b else b[n - |a|..]
  {
  }

  /** The segments that remain denote exactly the part of header and payload not sent yet. */
  lemma RemainingBytes(mem: seq<byte>, header: seq<byte>, v: IoVec, n: nat)
    requires |header| == WIRE_SIZE && v.base + v.len <= |mem| && n < WIRE_SIZE + v.len
    ensures Offered(mem, header, Remaining(v, n)) == (header + mem[v.base..v.base + v.len])[n..]
  {
    hide Offered;
    DropConcat(header, mem[v.base..v.base + v.len], n);
    if n < WIRE_SIZE {
      OfferedTwo(mem, header, n, v);
    } else {
      var done := n - WIRE_SIZE;
      var rest := IoVec(v.base + done, v.len - done);
      assert Remaining(v, n) == [PoolSegment(rest)];
      hide Remaining;
      OfferedOne(mem, header, rest);
      RestOfSlice(mem, v.base, v.len, done);
      assert rest.base + rest.len == v.base + v.len;
    }
  }

  lemma OfferedIsRest(p: Pool, mem: seq<byte>, current: CurrentFrame, packet: Packet)
    requires |mem| == p.Bytes() && CurrentOk(p, current, packet) && PacketOf(p, mem, current.frame) == packet
    ensures Offered(mem, current.header, current.segments) == EncodeFrame(packet)[current.bytesSent..]
  {
    hide CrcField, Encode, Pool.Base, Pool.Bytes, Offered, Remaining;
    BufferInside(p, current.frame.bid);
    RemainingBytes(mem, current.header, IoVec(p.Base(current.frame.bid), |packet|), current.bytesSent);
  }

  lemma RestOfSlice<T>(s: seq<T>, base: nat, len: nat, done: nat)
    requires base + len <= |s| && done <= len
    ensures s[base + done..base + len] == s[base..base + len][done..]
  {
  }

  lemma FrontPacket(p: Pool, s: TxSystem)
    requires Taken(p, s) && Operations(s.tx, s.cq) && s.tx.queue != []
    ensures s.done < |s.taken| && Fits(p, s.tx.queue[0]) && PacketOf(p, s.mem, s.tx.queue[0]) == s.taken[s.done]
    ensures s.tx.current.Some? && s.tx.current.value.frame == s.tx.queue[0]
  {
    hide PacketOf, Fits, CarriedPackets;
    assert QueuePackets(p, s.mem, s.tx.queue)[0] == s.taken[s.done..][0];
  }

  /** Nothing is in flight while the send is outstanding. */
  lemma SendOutstanding(p: Pool, s: TxSystem)
    requires Inv(p, s) && s.tx.sendOps > 0
    ensures s.tx.queue != [] && InFlight(s.cq) == 0 && CountOf(SEND, s.cq) == 0
  {
    hide Taken, Sent, Flow, Partition;
    NothingInFlight(s.cq);
  }

  lemma PostSendOperations(tx: TxState, cq: seq<Cqe>, cqe: Cqe)
    requires Operations(tx, cq) && cqe.op == SEND && tx.sendOps > 0
    ensures Operations(tx.(sendOps := tx.sendOps - 1), cq + [cqe])
  {
    hide Flow;
    FlowSnoc(READ, cq, tx.readOps, tx.coolingDown, cqe);
    CountSnoc(SEND, cq, cqe);
  }

  lemma PostSendBooks(p: Pool, mem: seq<byte>, tx: TxState, cq: seq<Cqe>, cqe: Cqe)
    requires |mem| == p.Bytes()
    requires Books(p, tx, cq) && cqe.op == SEND && !cqe.more && cqe.bid == None && tx.sendOps > 0
    ensures Books(p, tx.(sendOps := tx.sendOps - 1), cq + [cqe])
  {
    assert CqeOk(p, cqe) && !CarriesPacket(p, cqe);
    hide CarriesPacket, CqeOk, Operations, Partition, Fits;
    PostReadPartition(p, mem, tx, tx.(sendOps := tx.sendOps - 1), cq, cqe);
    PostSendOperations(tx, cq, cqe);
  }

  lemma PostSendTaken(p: Pool, s: TxSystem, tx: TxState, cqe: Cqe)
    requires Taken(p, s) && tx.queue == s.tx.queue && cqe.op == SEND
    ensures forall sent: seq<byte> :: Taken(p, Post(s, tx, cqe).(sent := sent))
  {
    hide AllFit, QueuePackets, CarriedPackets;
    CarriedSnoc(p, s.mem, s.cq, cqe);
  }

  /** Taking the next `n` bytes extends what was taken. */
  lemma TakeMore<T>(a: seq<T>, frame: seq<T>, k: nat, n: nat)
    requires k + n <= |frame|
    ensures a + frame[..k] + frame[k..][..n] == a + frame[..k + n]
  {
    assert frame[..k] + frame[k..][..n] == frame[..k + n];
  }

  lemma PostSendSent(p: Pool, s: TxSystem, tx: TxState, cqe: Cqe, n: nat)
    requires |s.mem| == p.Bytes() && s.tx.current.Some?
    requires Taken(p, s) && Operations(s.tx, s.cq)
    requires Sent(p, s.tx, s.cq, s.taken, s.done, s.sent)
    requires s.tx.queue != [] && InFlight(s.cq) == 0 && tx.queue == s.tx.queue && tx.current == s.tx.current
    requires cqe.op == SEND && n == (if cqe.result > 0 then cqe.result else 0)
    requires n <= |Offered(s.mem, s.tx.current.value.header, s.tx.current.value.segments)|
    ensures var offered := Offered(s.mem, s.tx.current.value.header, s.tx.current.value.segments);
      Sent(p, tx, s.cq + [cqe], s.taken, s.done, s.sent + offered[..n])
  {
    hide Taken, Operations, CurrentOk, EncodeAll, Offered, CarriedPackets, CarriedBids, PacketsOf, EncodeFrame,
         PacketOf;
    FrontPacket(p, s);
    CarriedSnoc(p, s.mem, s.cq, cqe);
    var packet, current := s.taken[s.done], s.tx.current.value;
    FrameLength(p, current, packet);
    OfferedIsRest(p, s.mem, current, packet);
    TakeMore(EncodeAll(s.taken[..s.done]), EncodeFrame(packet), current.bytesSent, n);
  }

  lemma FrameLength(p: Pool, current: CurrentFrame, packet: Packet)
    requires CurrentOk(p, current, packet)
    ensures |EncodeFrame(packet)| == WIRE_SIZE + |packet| && current.bytesSent < WIRE_SIZE + |packet|
    ensures |packet| == current.frame.size && Fits(p, current.frame)
  {
    hide Encode;
  }

  /** Whatever part of the offered bytes the socket takes, it takes the next bytes of the encoded packets. */
  lemma PostSendKeeps(p: Pool, s: TxSystem, cqe: Cqe, n: nat)
    requires |s.mem| == p.Bytes() && s.tx.current.Some?
    requires Inv(p, s) && s.tx.sendOps > 0 && cqe.op == SEND && !cqe.more && cqe.bid == None
    requires n == if cqe.result > 0 then cqe.result else 0
    requires n <= |Offered(s.mem, s.tx.current.value.header, s.tx.current.value.segments)|
    ensures var offered := Offered(s.mem, s.tx.current.value.header, s.tx.current.value.segments);
      Inv(p, Post(s, s.tx.(sendOps := s.tx.sendOps - 1), cqe).(sent := s.sent + offered[..n]))
  {
    hide Taken, Sent, Partition, Offered;
    SendOutstanding(p, s);
    PostSendBooks(p, s.mem, s.tx, s.cq, cqe);
    PostSendTaken(p, s, s.tx.(sendOps := s.tx.sendOps - 1), cqe);
    PostSendSent(p, s, s.tx.(sendOps := s.tx.sendOps - 1), cqe, n);
  }
}
