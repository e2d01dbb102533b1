/** The transmit direction never stalls with two buffers or more, and can with one. */
module TransmitProgress {
  import opened ByteStreams
  import opened Outcomes
  import opened Completions
  import opened CompletionQueues
  import opened BufferGroups
  import opened KernelMemory
  import opened FrameHeaders
  import opened FrameCodec
  import opened TransmitterSpec
  import opened TransmitSystem
  import opened TransmitRuns
  import opened TransmitSafety
  import opened TransmitTheorems

  // --- Nothing outstanding ----------------------------------------------------------------------

  /** No operation is outstanding and no completion is queued: nothing will ever wake the transmitter. */
  predicate Asleep(s: TxSystem) {
    s.tx.readOps == 0 && s.tx.sendOps == 0 && s.cq == []
  }

  /** The transmitter is asleep exactly when it is cooling down with nothing left to send. */
  lemma AsleepIff(p: Pool, s: TxSystem)
    requires Inv(p, s)
    ensures Asleep(s) <==> s.tx.coolingDown && s.tx.queue == []
  {
    InvParts(p, s);
    InvQueue(p, s);
    hide Inv, Sent, Taken, Partition;
    FlowCounts(READ, s.cq, s.tx.readOps, s.tx.coolingDown);
    if s.tx.coolingDown && s.tx.queue == [] {
      OnlyOf(SEND, s.cq);
    }
  }

  lemma InvQueue(p: Pool, s: TxSystem)
    requires Inv(p, s)
    ensures forall i | 0 <= i < |s.cq| :: s.cq[i].op == READ || s.cq[i].op == SEND
    ensures QueueOk(p, s.cq)
  {
    hide Sent, Taken, Partition, Operations;
  }

  // --- Frames behind a completion that found no buffers -----------------------------------------

  /**
   * With `queued` frames waiting now, all but one buffer hold waiting frames by the time a queued completion
   * reports that no buffer was left.
   */
  predicate Backlog(p: Pool, cq: seq<Cqe>, queued: int)
    decreases |cq|
  {
    if cq == [] then true
    else if CarriesPacket(p, cq[0]) then Backlog(p, cq[1..], queued + 1)
    else if cq[0].op == SEND then Backlog(p, cq[1..], queued - 1)
    else (cq[0] == NO_BUFFERS_CQE ==> queued >= p.count - 1) && Backlog(p, cq[1..], queued)
  }

  lemma {:induction false} BacklogMore(p: Pool, cq: seq<Cqe>, queued: int, more: int)
    requires Backlog(p, cq, queued) && queued <= more
    ensures Backlog(p, cq, more)
    decreases |cq|
  {
    if cq != [] {
      if CarriesPacket(p, cq[0]) {
        BacklogMore(p, cq[1..], queued + 1, more + 1);
      } else if cq[0].op == SEND {
        BacklogMore(p, cq[1..], queued - 1, more - 1);
      } else {
        BacklogMore(p, cq[1..], queued, more);
      }
    }
  }

  lemma {:induction false} BacklogSnoc(p: Pool, cq: seq<Cqe>, queued: int, cqe: Cqe)
    requires Backlog(p, cq, queued)
    requires cqe == NO_BUFFERS_CQE ==> queued + |CarriedBids(p, cq)| - CountOf(SEND, cq) >= p.count - 1
    ensures Backlog(p, cq + [cqe], queued)
    decreases |cq|
  {
    if cq == [] {
      assert cq + [cqe] == [cqe];
      assert [cqe][1..] == [];
    } else {
      assert (cq + [cqe])[1..] == cq[1..] + [cqe];
      if CarriesPacket(p, cq[0]) {
        BacklogSnoc(p, cq[1..], queued + 1, cqe);
      } else if cq[0].op == SEND {
        BacklogSnoc(p, cq[1..], queued - 1, cqe);
      } else {
        BacklogSnoc(p, cq[1..], queued, cqe);
      }
    }
  }

  /** With no buffer left to the kernel, each one holds a waiting frame or a packet on its way. */
  lemma AllTaken(p: Pool, tx: TxState, cq: seq<Cqe>)
    requires Partition(p, tx, cq) && tx.avail == multiset{}
    ensures |tx.queue| + |CarriedBids(p, cq)| == p.count
  {
    hide CarriedBids, Everything;
    EverythingSize(p.count);
    assert |multiset(QueueBids(tx.queue))| == |tx.queue|;
    assert |multiset(CarriedBids(p, cq))| == |CarriedBids(p, cq)|;
  }

  // --- Never asleep -----------------------------------------------------------------------------

  /** A transmitter cooling down has something to send, and every cooldown to come will. */
  predicate Busy(p: Pool, s: TxSystem) {
    (s.tx.coolingDown ==> s.tx.queue != []) && Backlog(p, s.cq, |s.tx.queue|)
  }

  /** A step of the kernel posts one completion, if any. */
  lemma KernelPosts(p: Pool, s: TxSystem, e: Event, t: TxSystem) returns (cqe: Cqe)
    requires StepTo(p, s, e, t) && !e.Handle?
    ensures t.tx.queue == s.tx.queue && t.tx.coolingDown == s.tx.coolingDown
    ensures t.cq == s.cq || t.cq == s.cq + [cqe]
    ensures cqe == NO_BUFFERS_CQE ==> s.tx.avail == multiset{} || t.cq == s.cq
  {
    hide Fill, OnlyAvailChanges, Offered, HandleNext;
    cqe := match e
      case ReadPacket(bid, packet, more) => Cqe(READ, |packet|, Some(bid), more)
      case ReadEnds(result) => Cqe(READ, result, None, false)
      case Send(n) => Cqe(SEND, n, None, false)
      case SendEnds(result) => Cqe(SEND, result, None, false)
      case _ => NO_BUFFERS_CQE;
  }

  lemma KernelBusy(p: Pool, s: TxSystem, e: Event, t: TxSystem)
    requires Inv(p, s) && Busy(p, s) && StepTo(p, s, e, t) && !e.Handle?
    ensures Busy(p, t)
  {
    hide Inv, StepTo, Partition, Flow, Backlog, Taken, Sent;
    InvParts(p, s);
    var cqe := KernelPosts(p, s, e, t);
    if t.cq != s.cq {
      if cqe == NO_BUFFERS_CQE {
        AllTaken(p, s.tx, s.cq);
      }
      BacklogSnoc(p, s.cq, |s.tx.queue|, cqe);
    }
  }

  /** What handling a completion does to the queue and the cooldown. */
  lemma HandleMoves(p: Pool, s: TxSystem, t: TxSystem)
    requires s.cq != [] && |s.mem| == p.Bytes()
    requires Inv(p, s) && HandledTo(p, s, t) && t.failure.None?
    ensures t.cq == s.cq[1..]
    ensures CarriesPacket(p, s.cq[0]) ==>
              |t.tx.queue| == |s.tx.queue| + 1 && t.sends == s.sends && s.cq[0].op == READ
    ensures !CarriesPacket(p, s.cq[0]) && s.cq[0].op != SEND ==>
              s.cq[0] == NO_BUFFERS_CQE && t == s.(tx := s.tx.(coolingDown := true), cq := s.cq[1..])
    ensures s.cq[0].op == SEND ==>
              && !CarriesPacket(p, s.cq[0])
              && (t.tx.coolingDown <==> |t.tx.queue| > p.count / 2 && s.tx.coolingDown)
              && |t.tx.queue| >= |s.tx.queue| - 1 && t.sends == s.sends + 1
              && Unsent(t.tx) < Unsent(s.tx)
  {
    hide Inv, HandledTo, CarriesPacket, Expected, CqeOk, Unsent;
    InvQueue(p, s);
    HandleKeeps(p, s, t);
    assert CqeOk(p, s.cq[0]);
    if s.cq[0].op == SEND {
      SendMoves(p, s, t);
      assert !CarriesPacket(p, s.cq[0]) by { if CarriesPacket(p, s.cq[0]) { CarriesRead(p, s.cq[0]); } }
    } else if CarriesPacket(p, s.cq[0]) {
      ReadMoves(p, s, t);
    } else {
      InvParts(p, s);
      hide Sent, Taken, Partition, Flow;
      ReadEndNext(p, s, t);
    }
  }

  lemma ReadMoves(p: Pool, s: TxSystem, t: TxSystem)
    requires s.cq != [] && |s.mem| == p.Bytes()
    requires Inv(p, s) && HandledTo(p, s, t) && CarriesPacket(p, s.cq[0])
    ensures t.cq == s.cq[1..] && |t.tx.queue| == |s.tx.queue| + 1 && t.sends == s.sends
  {
    InvParts(p, s);
    CarriesRead(p, s.cq[0]);
    assert p.size < U32_LIMIT;
    hide Inv, HandledTo, Taken, Sent, Operations, Partition, PushedTo, PacketOf, PacketsOf, CarriesPacket;
    var f := OutFrame(s.cq[0].bid.value, s.cq[0].result);
    PushedTaken(p, s, s.tx.(queue := s.tx.queue + [f]), f);
    hide AllFit;
    ReadPushes(p, s, t, f);
    PushedOperations(p, s.mem, s.tx, s.cq, f, t.tx);
  }

  /** Bytes of the waiting frames the transmitter has not been told were taken. */
  function QueueBytes(queue: seq<OutFrame>): nat {
    if queue == [] then 0 else WIRE_SIZE + queue[0].size + QueueBytes(queue[1..])
  }

  function Unsent(tx: TxState): int {
    QueueBytes(tx.queue) - if tx.current.Some? then tx.current.value.bytesSent else 0
  }

  lemma SendMoves(p: Pool, s: TxSystem, t: TxSystem)
    requires s.cq != [] && |s.mem| == p.Bytes()
    requires Inv(p, s) && HandledTo(p, s, t) && s.cq[0].op == SEND && t.failure.None?
    ensures t.cq == s.cq[1..] && t.sends == s.sends + 1
    ensures t.tx.coolingDown <==> |t.tx.queue| > p.count / 2 && s.tx.coolingDown
    ensures |t.tx.queue| >= |s.tx.queue| - 1
    ensures Unsent(t.tx) < Unsent(s.tx)
  {
    hide Inv, HandledTo, Kicked, AckTo, AfterAck, CurrentOk, PacketOf, Fits, Unsent;
    SendHandled(p, s, t);
    SendFront(p, s);
    var n := s.cq[0].result;
    SendKicks(p, s, t, n);
    AckedUnsent(p, s.mem, s.tx, n, AfterAck(p, s.tx, n), t.tx);
  }

  lemma AckedUnsent(p: Pool, mem: seq<byte>, tx: TxState, n: nat, tx1: TxState, tx': TxState)
    requires AckTo(p, tx, n, tx1) && Kicked(p, mem, tx1, tx') && n > 0
    requires tx.current.value.frame == tx.queue[0]
    ensures Unsent(tx') < Unsent(tx)
    ensures tx'.coolingDown <==> |tx'.queue| > p.count / 2 && tx.coolingDown
    ensures |tx'.queue| >= |tx.queue| - 1
  {
    hide CurrentOk, PacketOf, AllFit;
  }

  lemma HandleBusy(p: Pool, s: TxSystem, t: TxSystem)
    requires s.cq != [] && |s.mem| == p.Bytes() && p.count >= 2
    requires Inv(p, s) && Busy(p, s) && HandledTo(p, s, t) && t.failure.None?
    ensures Busy(p, t)
  {
    hide Inv, HandledTo, Unsent, CarriesPacket;
    HandleMoves(p, s, t);
    if s.cq[0].op == SEND {
      BacklogMore(p, t.cq, |s.tx.queue| - 1, |t.tx.queue|);
    }
  }

  lemma {:induction false} RunBusy(p: Pool, s: TxSystem, events: seq<Event>, t: TxSystem)
    requires Inv(p, s) && Busy(p, s) && p.count >= 2 && Run(p, s, events, t) && t.failure.None?
    ensures Inv(p, t) && Busy(p, t)
    decreases |events|
  {
    hide Inv, Busy, Enabled, After, HandledTo;
    if events != [] {
      var s1 := After(p, s, events[0]);
      assert StepTo(p, s, events[0], s1);
      EventKeeps(p, s, events[0], s1);
      if s1.failure.Some? {
        FailedStops(p, s1, events[1..], t);
      } else {
        if events[0].Handle? {
          HandleStep(p, s, s1);
          HandleBusy(p, s, s1);
        } else {
          KernelBusy(p, s, events[0], s1);
        }
        RunBusy(p, s1, events[1..], t);
      }
    }
  }

  lemma HandleStep(p: Pool, s: TxSystem, t: TxSystem)
    requires StepTo(p, s, Handle, t)
    ensures HandledTo(p, s, t) && s.cq != [] && |s.mem| == p.Bytes()
  {
    hide HandleNext;
  }

  /**
   * With at least two buffers the transmitter never stalls: in every reachable state a read is armed or about to
   * be handled, or a send is outstanding or about to be handled.
   */
  lemma NeverAsleep(p: Pool, mem: seq<byte>, events: seq<Event>, t: TxSystem)
    requires |mem| == p.Bytes() && p.size < U32_LIMIT && Run(p, Start(p, mem), events, t) && t.failure.None?
    requires p.count >= 2
    ensures !Asleep(t) && (t.tx.coolingDown ==> t.tx.queue != [])
    ensures t.tx.readOps + Ended(READ, t.cq) + t.tx.sendOps + CountOf(SEND, t.cq) >= 1
  {
    StartInv(p, mem);
    assert Busy(p, Start(p, mem));
    hide Inv, Run, Start;
    RunBusy(p, Start(p, mem), events, t);
    AsleepIff(p, t);
    OneOutstanding(p, mem, events, t);
  }

  // --- The cooldown ends ------------------------------------------------------------------------

  /** Every state of the run is cooling down. */
  predicate CoolingThroughout(p: Pool, s: TxSystem, events: seq<Event>)
    decreases |events|
  {
    && s.tx.coolingDown
    && (events != [] ==> Enabled(p, s, events[0]) && CoolingThroughout(p, After(p, s, events[0]), events[1..]))
  }

  lemma KernelUnsent(p: Pool, s: TxSystem, e: Event, t: TxSystem)
    requires StepTo(p, s, e, t) && !e.Handle?
    ensures Unsent(t.tx) == Unsent(s.tx) && t.sends == s.sends
  {
    hide HandleNext, Fill, OnlyAvailChanges, Offered;
  }

  /** While cooling down, every send handled takes bytes off what is unsent, and nothing adds to it. */
  lemma CoolingUnsent(p: Pool, s: TxSystem, e: Event, t: TxSystem)
    requires Inv(p, s) && StepTo(p, s, e, t) && s.tx.coolingDown && t.failure.None?
    ensures t.sends - s.sends <= Unsent(s.tx) - Unsent(t.tx) && s.sends <= t.sends
  {
    hide Inv, StepTo, HandledTo, CarriesPacket, Flow;
    if e.Handle? {
      HandleStep(p, s, t);
      HandleMoves(p, s, t);
      InvParts(p, s);
      hide Taken, Sent, Partition;
      FlowCounts(READ, s.cq, s.tx.readOps, s.tx.coolingDown);
      InvQueue(p, s);
      assert s.cq[0].op != READ;
    } else {
      KernelUnsent(p, s, e, t);
    }
  }

  lemma {:induction false} CoolingRun(p: Pool, s: TxSystem, events: seq<Event>, t: TxSystem)
    requires Inv(p, s) && Run(p, s, events, t) && t.failure.None? && CoolingThroughout(p, s, events)
    ensures t.sends - s.sends <= Unsent(s.tx) - Unsent(t.tx) && t.tx.coolingDown
    decreases |events|
  {
    hide Inv, Enabled, After, Unsent;
    if events != [] {
      var s1 := After(p, s, events[0]);
      assert StepTo(p, s, events[0], s1);
      if s1.failure.Some? {
        FailedStops(p, s1, events[1..], t);
      } else {
        EventKeeps(p, s, events[0], s1);
        CoolingUnsent(p, s, events[0], s1);
        CoolingRun(p, s1, events[1..], t);
      }
    }
  }

  lemma UnsentPositive(p: Pool, s: TxSystem)
    requires Inv(p, s) && s.tx.queue != []
    ensures Unsent(s.tx) > 0
  {
    InvParts(p, s);
    FrontPacket(p, s);
    hide Inv, Taken, Operations, Partition, EncodeAll, EncodeFrame, CurrentOk;
    FrameLength(p, s.tx.current.value, s.taken[s.done]);
  }

  /** A reachable transmitter cooling down reads again before it has handled as many sends as bytes are unsent. */
  lemma CooldownEnds(p: Pool, mem: seq<byte>, before: seq<Event>, s: TxSystem, events: seq<Event>, t: TxSystem)
    requires |mem| == p.Bytes() && p.size < U32_LIMIT && p.count >= 2 && Run(p, Start(p, mem), before, s)
    requires s.failure.None? && s.tx.coolingDown
    requires Run(p, s, events, t) && t.failure.None? && t.sends >= s.sends + Unsent(s.tx)
    ensures !CoolingThroughout(p, s, events)
  {
    StartInv(p, mem);
    assert Busy(p, Start(p, mem));
    hide Inv, Run, Start, CoolingThroughout, Unsent, Backlog;
    RunBusy(p, Start(p, mem), before, s);
    if CoolingThroughout(p, s, events) {
      RunBusy(p, s, events, t);
      CoolingRun(p, s, events, t);
      UnsentPositive(p, t);
    }
  }

  /**
   * In every reachable state, handling a send ends the cooldown exactly if at most half the buffers still wait, and
   * then a read is armed again.
   */
  lemma RearmsExactly(p: Pool, mem: seq<byte>, events: seq<Event>, s: TxSystem, t: TxSystem)
    requires |mem| == p.Bytes() && p.size < U32_LIMIT && Run(p, Start(p, mem), events, s)
    requires StepTo(p, s, Handle, t) && s.cq[0].op == SEND && t.failure.None?
    ensures t.tx.coolingDown <==> s.tx.coolingDown && |t.tx.queue| > p.count / 2
    ensures s.tx.coolingDown && !t.tx.coolingDown ==> s.tx.readOps == 0 && t.tx.readOps == 1
  {
    hide Inv, Run, Start, StepTo, HandledTo, Unsent, CarriesPacket;
    StartInv(p, mem);
    HandleStep(p, s, t);
    var u := RunKeeps(p, Start(p, mem), events, s);
    HandleLives(p, s, t);
    HandleMoves(p, s, t);
    HandleKeeps(p, s, t);
    ReadsArmed(p, s, t);
  }

  lemma HandleLives(p: Pool, s: TxSystem, t: TxSystem)
    requires HandledTo(p, s, t)
    ensures s.failure.None?
  {
    hide HandleNext;
  }

  lemma ReadsArmed(p: Pool, s: TxSystem, t: TxSystem)
    requires s.cq != [] && Inv(p, s) && Inv(p, t) && t.cq == s.cq[1..] && s.cq[0].op == SEND
    ensures s.tx.coolingDown ==> s.tx.readOps == 0
    ensures s.tx.coolingDown && !t.tx.coolingDown ==> t.tx.readOps == 1
  {
    InvParts(p, s);
    InvParts(p, t);
    hide Inv, Sent, Taken, Partition;
    FlowCounts(READ, s.cq, s.tx.readOps, s.tx.coolingDown);
    FlowCounts(READ, t.cq, t.tx.readOps, t.tx.coolingDown);
    if s.tx.coolingDown {
      NoneEnded(t.cq);
    }
  }

  lemma {:induction false} NoneEnded(cq: seq<Cqe>)
    requires forall i | 0 <= i < |cq| :: cq[i].op != READ
    ensures Ended(READ, cq) == 0
    decreases |cq|
  {
    if cq != [] {
      NoneEnded(cq[1..]);
    }
  }

  // --- Falling asleep with one buffer -----------------------------------------------------------

  /**
   * The only buffer is filled with a packet and sent; the read finds no buffer before the send's completion is
   * handled.
   */
  function SleepyEvents(packet: Packet): seq<Event> {
    [ReadPacket(0, packet, true), Handle, Send(WIRE_SIZE + |packet|), NoBuffers, Handle, Handle]
  }

  lemma ReadOnly(p: Pool, s: TxSystem, packet: Packet) returns (t: TxSystem)
    requires Inv(p, s) && s.tx == Start(p, s.mem).tx && s.cq == [] && s.done == 0 && s.taken == [] && s.sent == []
    requires p.count == 1 && |packet| <= p.size
    ensures StepTo(p, s, ReadPacket(0, packet, true), t) && Inv(p, t)
    ensures t.cq == [Cqe(READ, |packet|, Some(0), true)] && t.tx.avail == multiset{} && t.tx.readOps == 1
    ensures t.tx.queue == [] && t.done == 0 && t.taken == [] && t.sent == []
  {
    InvMemory(p, s);
    assert s.tx.avail == multiset{0} && p.size < U32_LIMIT;
    hide Inv, Fill;
    t := After(p, s, ReadPacket(0, packet, true));
    EventKeeps(p, s, ReadPacket(0, packet, true), t);
  }

  /** The transmitter sending its only frame, of `size` bytes, from the start. */
  predicate SendingFirst(tx: TxState, size: nat) {
    && tx.queue == [OutFrame(0, size)] && !tx.coolingDown && tx.avail == multiset{} && tx.readOps == 1
    && tx.current.Some? && tx.current.value.bytesSent == 0 && tx.current.value.frame.size == size
  }

  lemma FirstQueued(p: Pool, s: TxSystem, size: nat) returns (t: TxSystem)
    requires s.cq != [] && |s.mem| == p.Bytes() && p.count == 1 && size <= p.size
    requires Inv(p, s) && s.cq == [Cqe(READ, size, Some(0), true)] && s.tx.queue == [] && s.tx.readOps == 1
    requires s.tx.avail == multiset{}
    ensures StepTo(p, s, Handle, t) && Inv(p, t) && t.cq == [] && SendingFirst(t.tx, size) && t.tx.sendOps == 1
  {
    hide Inv, Taken, Sent, Partition, HandleNext, PacketOf, PacketsOf, CurrentOk, OnlyAvailChanges, Offered, Fill;
    InvParts(p, s);
    InvSize(p, s);
    assert !s.tx.coolingDown && s.tx.sendOps == 0;
    hide Operations;
    t := HandleNext(p, s);
    assert HandledTo(p, s, t) && StepTo(p, s, Handle, t);
    hide HandledTo, StepTo;
    ReadHandled(p, s, t);
    PushedTaken(p, s, s.tx.(queue := s.tx.queue + [OutFrame(0, size)]), OutFrame(0, size));
    ReadPushes(p, s, t, OutFrame(0, size));
    InvParts(p, t);
    AskOperations(t.tx, t.cq);
    assert s.cq[1..] == [];
  }

  lemma InvSize(p: Pool, s: TxSystem)
    requires Inv(p, s)
    ensures p.size < U32_LIMIT && s.failure.None?
  {
    hide Taken, Sent, Partition, Operations;
  }

  lemma AskOperations(tx: TxState, cq: seq<Cqe>)
    requires Operations(tx, cq) && tx.current.Some? && tx.queue != []
    ensures tx.current.value.frame == tx.queue[0]
  {
    hide Flow;
  }

  lemma FirstSent(p: Pool, s: TxSystem, size: nat) returns (t: TxSystem)
    requires |s.mem| == p.Bytes()
    requires Inv(p, s) && s.cq == [] && SendingFirst(s.tx, size) && s.tx.sendOps == 1
    ensures StepTo(p, s, Send(WIRE_SIZE + size), t) && Inv(p, t)
    ensures t.cq == [Cqe(SEND, WIRE_SIZE + size, None, false)] && SendingFirst(t.tx, size)
  {
    hide Inv, Taken, Operations, Partition, HandleNext, CurrentOk, Offered, EncodeFrame, EncodeAll, PacketOf, Fits,
         OnlyAvailChanges, Fill;
    InvParts(p, s);
    InvSize(p, s);
    FrontPacket(p, s);
    assert CurrentOk(p, s.tx.current.value, s.taken[s.done]);
    hide Sent;
    var packet := s.taken[s.done];
    FrameLength(p, s.tx.current.value, packet);
    OfferedIsRest(p, s.mem, s.tx.current.value, packet);
    t := After(p, s, Send(WIRE_SIZE + size));
    EventKeeps(p, s, Send(WIRE_SIZE + size), t);
  }

  lemma NoneLeft(p: Pool, s: TxSystem, size: nat) returns (t: TxSystem)
    requires |s.mem| == p.Bytes()
    requires Inv(p, s) && s.cq == [Cqe(SEND, WIRE_SIZE + size, None, false)] && SendingFirst(s.tx, size)
    ensures StepTo(p, s, NoBuffers, t) && Inv(p, t)
    ensures t.cq == [Cqe(SEND, WIRE_SIZE + size, None, false), NO_BUFFERS_CQE]
    ensures t.tx == s.tx.(readOps := 0)
  {
    hide Inv, HandleNext, Offered, OnlyAvailChanges, Fill;
    InvSize(p, s);
    t := After(p, s, NoBuffers);
    EventKeeps(p, s, NoBuffers, t);
  }

  lemma FirstDone(p: Pool, s: TxSystem, size: nat) returns (t: TxSystem)
    requires |s.mem| == p.Bytes() && s.cq != []
    requires Inv(p, s) && s.cq == [Cqe(SEND, WIRE_SIZE + size, None, false), NO_BUFFERS_CQE]
    requires SendingFirst(s.tx.(readOps := 1), size)
    ensures StepTo(p, s, Handle, t) && Inv(p, t) && t.cq == [NO_BUFFERS_CQE] && t.tx.queue == []
    ensures t.tx.avail == multiset{0}
  {
    hide Inv, HandleNext, Kicked, AfterAck, CurrentOk, PacketOf, Fits, OnlyAvailChanges, Fill, Offered;
    InvSize(p, s);
    t := HandleNext(p, s);
    assert HandledTo(p, s, t) && StepTo(p, s, Handle, t);
    hide HandledTo, StepTo;
    SendHandled(p, s, t);
    SendKicks(p, s, t, WIRE_SIZE + size);
    KickedQueue(p, s.mem, AfterAck(p, s.tx, WIRE_SIZE + size), t.tx);
  }

  lemma KickedQueue(p: Pool, mem: seq<byte>, tx: TxState, tx': TxState)
    requires Kicked(p, mem, tx, tx')
    ensures tx'.queue == tx.queue && tx'.avail == tx.avail
  {
    hide CurrentOk, PacketOf, AllFit;
  }

  lemma TooLate(p: Pool, s: TxSystem) returns (t: TxSystem)
    requires |s.mem| == p.Bytes() && s.cq != []
    requires Inv(p, s) && s.cq == [NO_BUFFERS_CQE] && s.tx.queue == []
    ensures StepTo(p, s, Handle, t) && Inv(p, t) && t.cq == [] && t.tx.queue == [] && t.tx.coolingDown
    ensures t.tx.avail == s.tx.avail
  {
    assert !CarriesPacket(p, NO_BUFFERS_CQE);
    hide Inv, HandleNext, CarriesPacket, OnlyAvailChanges, Fill, Offered;
    InvSize(p, s);
    t := HandleNext(p, s);
    assert HandledTo(p, s, t) && StepTo(p, s, Handle, t);
    hide HandledTo, StepTo;
    HandleMoves(p, s, t);
    HandleKeeps(p, s, t);
  }

  lemma {:induction false} ChainRun(p: Pool, ss: seq<TxSystem>, events: seq<Event>)
    requires |ss| == |events| + 1
    requires forall i | 0 <= i < |events| :: StepTo(p, ss[i], events[i], ss[i + 1])
    ensures Run(p, ss[0], events, ss[|events|])
    decreases |events|
  {
    hide Enabled, After;
    if events != [] {
      assert forall i | 0 <= i < |events| - 1 :: events[1..][i] == events[i + 1] && ss[1..][i] == ss[i + 1];
      assert forall i | 0 <= i < |events[1..]| :: StepTo(p, ss[1..][i], events[1..][i], ss[1..][i + 1]);
      ChainRun(p, ss[1..], events[1..]);
      assert StepTo(p, ss[0], events[0], ss[1]);
    }
  }

  /** With a single buffer the transmit direction can stall, although nothing went wrong and the buffer is free. */
  lemma TransmitterFallsAsleep(p: Pool, mem: seq<byte>, packet: Packet) returns (t: TxSystem)
    requires p.count == 1 && p.size < U32_LIMIT && |mem| == p.Bytes() && |packet| <= p.size
    ensures Run(p, Start(p, mem), SleepyEvents(packet), t)
    ensures t.failure.None? && Asleep(t) && t.tx.avail == multiset{0}
  {
    hide Inv, StepTo, SendingFirst, Run;
    var s0 := Start(p, mem);
    StartInv(p, mem);
    var s1 := ReadOnly(p, s0, packet);
    InvMemory(p, s1);
    var s2 := FirstQueued(p, s1, |packet|);
    InvMemory(p, s2);
    var s3 := FirstSent(p, s2, |packet|);
    InvMemory(p, s3);
    var s4 := NoneLeft(p, s3, |packet|);
    InvMemory(p, s4);
    Rearmed(s3.tx, |packet|);
    var s5 := FirstDone(p, s4, |packet|);
    InvMemory(p, s5);
    t := TooLate(p, s5);
    InvMemory(p, t);
    AsleepIff(p, t);
    ChainRun(p, [s0, s1, s2, s3, s4, s5, t], SleepyEvents(packet));
  }

  lemma Rearmed(tx: TxState, size: nat)
    requires SendingFirst(tx, size)
    ensures SendingFirst(tx.(readOps := 0).(readOps := 1), size)
  {
  }

  /** Some run of the transmitter ends with nothing outstanding, although nothing went wrong. */
  ghost predicate CanStall(p: Pool, mem: seq<byte>) {
    exists events: seq<Event>, t: TxSystem :: Run(p, Start(p, mem), events, t) && t.failure.None? && Asleep(t)
  }

  /** The transmit direction can stall exactly if it has only one buffer. */
  lemma TransmitterStallsIff(p: Pool, mem: seq<byte>)
    requires |mem| == p.Bytes() && p.size < U32_LIMIT && p.count >= 1
    ensures CanStall(p, mem) <==> p.count < 2
  {
    hide Run, Start, Asleep;
    if p.count < 2 {
      var t := TransmitterFallsAsleep(p, mem, []);
    } else if CanStall(p, mem) {
      var events: seq<Event>, t: TxSystem :| Run(p, Start(p, mem), events, t) && t.failure.None? && Asleep(t);
      NeverAsleep(p, mem, events, t);
    }
  }
}
