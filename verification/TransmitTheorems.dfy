/** What every run of the transmitter sends, reports and keeps outstanding. */
module TransmitTheorems {
  import opened ByteStreams
  import opened Outcomes
  import opened Completions
  import opened CompletionQueues
  import opened BufferGroups
  import opened KernelMemory
  import opened FrameHeaders
  import opened FrameCodec
  import opened TransmitterSpec
  import opened TransmitSystem
  import opened TransmitRuns
  import opened TransmitSafety

  // --- Every run --------------------------------------------------------------------------------

  lemma StartInv(p: Pool, mem: seq<byte>)
    requires |mem| == p.Bytes() && p.size < U32_LIMIT
    ensures Inv(p, Start(p, mem))
  {
    var s := Start(p, mem);
    assert QueueBids(s.tx.queue) == [];
    assert s.taken[s.done..] == QueuePackets(p, mem, s.tx.queue);
  }

  lemma FailedStops(p: Pool, s: TxSystem, events: seq<Event>, t: TxSystem)
    requires s.failure.Some? && Run(p, s, events, t)
    ensures t == s
  {
    hide HandleNext, Offered;
  }

  lemma FailedHandling(p: Pool, s: TxSystem, e: Event, t: TxSystem)
    requires StepTo(p, s, e, t) && t.failure.Some?
    ensures HandledTo(p, s, t) && s.cq != [] && |s.mem| == p.Bytes()
  {
    hide HandleNext, Offered, Fill, OnlyAvailChanges;
  }

  /** Every run stays within the invariant; one that fails does so in handling a completion, as expected. */
  lemma {:induction false} RunKeeps(p: Pool, s: TxSystem, events: seq<Event>, t: TxSystem) returns (u: TxSystem)
    requires Inv(p, s) && Run(p, s, events, t)
    ensures t.failure.None? ==> Inv(p, t)
    ensures t.failure.Some? ==>
              |u.mem| == p.Bytes() && u.cq != [] && Inv(p, u) && HandledTo(p, u, t) && t.failure == Expected(u.cq[0])
    decreases |events|
  {
    hide Inv, Enabled, After, Expected, HandledTo;
    u := s;
    if events == [] {
      InvMemory(p, s);
    } else {
      var s1 := After(p, s, events[0]);
      assert StepTo(p, s, events[0], s1);
      EventKeeps(p, s, events[0], s1);
      if s1.failure.None? {
        u := RunKeeps(p, s1, events[1..], t);
      } else {
        FailedStops(p, s1, events[1..], t);
        FailedHandling(p, s, events[0], s1);
        HandleKeeps(p, s, s1);
      }
    }
  }

  // --- What is sent -----------------------------------------------------------------------------

  lemma {:induction false} CarriedEncodable(p: Pool, mem: seq<byte>, cq: seq<Cqe>)
    requires |mem| == p.Bytes() && p.size < U32_LIMIT
    ensures AllEncodable(CarriedPackets(p, mem, cq))
    decreases |cq|
  {
    if cq != [] {
      CarriedEncodable(p, mem, cq[1..]);
    }
  }

  lemma ReadEncodable(p: Pool, s: TxSystem)
    requires Inv(p, s)
    ensures AllEncodable(s.read) && AllEncodable(s.taken) && s.taken <= s.read
  {
    CarriedEncodable(p, s.mem, s.cq);
    hide CarriedPackets, Sent, QueuePackets, Operations, Partition, QueueOk, AllFit;
  }

  lemma {:induction false} EncodePrefix(ps: seq<Packet>, qs: seq<Packet>)
    requires AllEncodable(qs) && ps <= qs
    ensures AllEncodable(ps) && EncodeAll(ps) <= EncodeAll(qs)
  {
    var rest := qs[|ps|..];
    assert qs == ps + rest;
    EncodeAllConcat(ps, rest);
  }

  lemma Between<T>(a: seq<T>, frame: seq<T>, n: nat)
    requires n <= |frame|
    ensures a <= a + frame[..n] <= a + frame
  {
    assert frame == frame[..n] + frame[n..];
    Associative(a, frame[..n], frame[n..]);
  }

  lemma SentBetween(p: Pool, tx: TxState, cq: seq<Cqe>, taken: seq<Packet>, done: nat, sent: seq<byte>)
    requires AllEncodable(taken) && done <= |taken|
    requires Sent(p, tx, cq, taken, done, sent) && (tx.queue == [] ==> done == |taken|)
    ensures EncodeAll(taken[..done]) <= sent <= EncodeAll(taken)
    ensures tx.queue == [] ==> sent == EncodeAll(taken)
  {
    hide EncodeFrame, EncodeAll, CurrentOk, InFlight;
    if tx.queue == [] {
      assert taken[..done] == taken;
    } else {
      FrameDone(taken, done);
      FrameLength(p, tx.current.value, taken[done]);
      Between(EncodeAll(taken[..done]), EncodeFrame(taken[done]), tx.current.value.bytesSent + InFlight(cq));
      EncodePrefix(taken[..done + 1], taken);
      PrefixTrans(sent, EncodeAll(taken[..done + 1]), EncodeAll(taken));
    }
  }

  /** The bytes sent: all frames that are done, and the front frame up to what the socket took. */
  lemma InvSent(p: Pool, s: TxSystem)
    requires Inv(p, s)
    ensures AllEncodable(s.read) && AllEncodable(s.taken) && s.done <= |s.taken|
    ensures EncodeAll(s.taken[..s.done]) <= s.sent <= EncodeAll(s.taken)
    ensures s.sent <= EncodeAll(s.read)
    ensures s.tx.queue == [] && s.cq == [] ==> s.sent == EncodeAll(s.read)
  {
    hide Inv, EncodeAll, Sent, Operations, Partition, Taken;
    ReadEncodable(p, s);
    InvParts(p, s);
    EncodePrefix(s.taken, s.read);
    SentBetween(p, s.tx, s.cq, s.taken, s.done, s.sent);
    PrefixTrans(s.sent, EncodeAll(s.taken), EncodeAll(s.read));
  }

  lemma InvParts(p: Pool, s: TxSystem)
    requires Inv(p, s)
    ensures Sent(p, s.tx, s.cq, s.taken, s.done, s.sent) && s.done <= |s.taken|
    ensures s.tx.queue == [] ==> s.done == |s.taken|
    ensures s.cq == [] ==> s.read == s.taken
    ensures Operations(s.tx, s.cq) && Partition(p, s.tx, s.cq) && Taken(p, s)
  {
    hide Sent, Operations, Partition, QueueOk, AllFit;
    if s.tx.queue == [] {
      assert |s.taken[s.done..]| == 0;
    }
    if s.cq == [] {
      assert CarriedPackets(p, s.mem, s.cq) == [];
    }
  }

  /** What handling the last completion of a failed run left alone. */
  lemma FailedRecord(p: Pool, u: TxSystem, t: TxSystem)
    requires HandledTo(p, u, t)
    ensures t.sent == u.sent && t.read == u.read
  {
    hide HandleCqe, PacketsOf;
  }

  /**
   * Whatever parts of each send the socket takes, the bytes sent are an initial part of the encoded packets read
   * from the TUN device, in order; with nothing queued and nothing waiting, all of them.
   */
  lemma SentIsEncoded(p: Pool, mem: seq<byte>, events: seq<Event>, t: TxSystem)
    requires |mem| == p.Bytes() && p.size < U32_LIMIT && Run(p, Start(p, mem), events, t)
    ensures AllEncodable(t.read) && t.sent <= EncodeAll(t.read)
    ensures t.failure.None? && t.tx.queue == [] && t.cq == [] ==> t.sent == EncodeAll(t.read)
  {
    hide Inv, Run, Start, HandledTo, EncodeAll, AllEncodable;
    StartInv(p, mem);
    var u := RunKeeps(p, Start(p, mem), events, t);
    if t.failure.None? {
      InvSent(p, t);
    } else {
      InvSent(p, u);
      FailedRecord(p, u, t);
    }
  }

  lemma InvOffers(p: Pool, s: TxSystem)
    requires Inv(p, s) && s.tx.sendOps > 0
    ensures s.tx.current.Some? && s.done < |s.taken| && AllEncodable(s.taken)
    ensures |EncodeFrame(s.taken[s.done])| > s.tx.current.value.bytesSent
    ensures |EncodeFrame(s.taken[s.done])| >= WIRE_SIZE
    ensures Offered(s.mem, s.tx.current.value.header, s.tx.current.value.segments)
         == EncodeFrame(s.taken[s.done])[s.tx.current.value.bytesSent..]
    ensures s.sent == EncodeAll(s.taken[..s.done]) + EncodeFrame(s.taken[s.done])[..s.tx.current.value.bytesSent]
  {
    hide Inv, Offered, EncodeFrame, EncodeAll, CurrentOk, Taken, Operations, Partition, PacketOf, Fits;
    SendOutstanding(p, s);
    InvParts(p, s);
    FrontPacket(p, s);
    InvMemory(p, s);
    FrameLength(p, s.tx.current.value, s.taken[s.done]);
    OfferedIsRest(p, s.mem, s.tx.current.value, s.taken[s.done]);
  }

  /** Whenever a send is outstanding, it offers exactly the unsent rest of the oldest packet's frame. */
  lemma OffersTheRest(p: Pool, mem: seq<byte>, events: seq<Event>, t: TxSystem)
    requires |mem| == p.Bytes() && p.size < U32_LIMIT && Run(p, Start(p, mem), events, t)
    requires t.failure.None? && t.tx.sendOps > 0
    ensures t.tx.current.Some? && t.done < |t.taken| && AllEncodable(t.taken)
    ensures |EncodeFrame(t.taken[t.done])| > t.tx.current.value.bytesSent
    ensures Offered(t.mem, t.tx.current.value.header, t.tx.current.value.segments)
         == EncodeFrame(t.taken[t.done])[t.tx.current.value.bytesSent..]
    ensures t.sent == EncodeAll(t.taken[..t.done]) + EncodeFrame(t.taken[t.done])[..t.tx.current.value.bytesSent]
  {
    hide Inv, Run, Start, Offered, EncodeFrame, EncodeAll;
    StartInv(p, mem);
    var u := RunKeeps(p, Start(p, mem), events, t);
    InvOffers(p, t);
  }

  /** With nothing queued, a send is outstanding exactly while frames wait. */
  lemma SendArmed(p: Pool, s: TxSystem)
    requires Inv(p, s) && s.cq == []
    ensures s.tx.sendOps > 0 <==> s.tx.queue != []
  {
    InvParts(p, s);
    hide Inv, Sent, Taken, Partition, Flow;
  }

  /** The only errors a run reports are the kernel's. */
  lemma FailureExplained(p: Pool, mem: seq<byte>, events: seq<Event>, t: TxSystem)
    requires |mem| == p.Bytes() && p.size < U32_LIMIT && Run(p, Start(p, mem), events, t)
    ensures t.failure.Some? ==> t.failure.value in {SendFailed, SendReturnedZero, TunReadFailed}
  {
    StartInv(p, mem);
    hide Inv, Run, Start, HandledTo;
    var u := RunKeeps(p, Start(p, mem), events, t);
  }

  /**
   * In every reachable state exactly one read is armed or about to be handled unless the transmitter is cooling
   * down, and exactly one send, of the queue's front, is outstanding or about to be handled while frames wait.
   */
  lemma OneOutstanding(p: Pool, mem: seq<byte>, events: seq<Event>, t: TxSystem)
    requires |mem| == p.Bytes() && p.size < U32_LIMIT && Run(p, Start(p, mem), events, t) && t.failure.None?
    ensures t.tx.readOps + Ended(READ, t.cq) == if t.tx.coolingDown then 0 else 1
    ensures t.tx.sendOps + CountOf(SEND, t.cq) == if t.tx.queue != [] then 1 else 0
    ensures t.tx.sendInProgress <==> t.tx.queue != []
    ensures t.tx.current.Some? <==> t.tx.queue != []
    ensures t.tx.queue != [] ==> t.tx.current.value.frame == t.tx.queue[0]
  {
    StartInv(p, mem);
    hide Inv, Run, Start;
    var u := RunKeeps(p, Start(p, mem), events, t);
    InvParts(p, t);
    FlowCounts(READ, t.cq, t.tx.readOps, t.tx.coolingDown);
  }

  /**
   * Each buffer always has exactly one owner, and it leaves the queue only when its frame was sent to the end: the
   * frames that are done are part of what was sent, and every other packet taken still lies in the pool unchanged.
   */
  lemma BuffersConserved(p: Pool, mem: seq<byte>, events: seq<Event>, t: TxSystem)
    requires |mem| == p.Bytes() && p.size < U32_LIMIT && Run(p, Start(p, mem), events, t) && t.failure.None?
    ensures t.tx.avail + multiset(QueueBids(t.tx.queue)) + multiset(CarriedBids(p, t.cq)) == Everything(p.count)
    ensures AllEncodable(t.taken) && t.done <= |t.taken| && EncodeAll(t.taken[..t.done]) <= t.sent
    ensures |t.mem| == p.Bytes() && AllFit(p, t.tx.queue)
    ensures t.taken[t.done..] == QueuePackets(p, t.mem, t.tx.queue)
  {
    StartInv(p, mem);
    hide Inv, Run, Start, EncodeAll, QueuePackets, CarriedPackets, Everything;
    var u := RunKeeps(p, Start(p, mem), events, t);
    InvParts(p, t);
    InvSent(p, t);
  }
}
