/** Which packets the tunnel refuses: exactly those its receiving side cannot accept. */
module Refusals {
  import opened ByteStreams
  import opened Outcomes
  import opened Completions
  import opened BufferGroups
  import opened KernelMemory
  import opened FrameHeaders
  import opened FrameCodec
  import R = ReceiveSystem
  import RR = ReceiveRuns
  import RS = ReceiveSafety
  import RT = ReceiveTheorems
  import RC = ReceiveCooldown
  import RP = ReceiveProgress
  import T = TransmitSystem
  import TR = TransmitRuns
  import TS = TransmitSafety
  import TT = TransmitTheorems
  import TP = TransmitProgress
  import ReceiverSpec
  import ReceiverInvariant
  import ReceiverDecoding
  import TransmitterSpec
  import ReceiveStall
  import opened SessionSystem
  import opened EndToEnd
  import opened TunnelRuns

  // --- What can be read -------------------------------------------------------------------------

  predicate AllWithin(size: nat, ps: seq<Packet>) {
    forall i | 0 <= i < |ps| :: |ps[i]| <= size
  }

  predicate NoneEmpty(ps: seq<Packet>) {
    forall i | 0 <= i < |ps| :: ps[i] != []
  }

  lemma StepReads(p: Pool, s: T.TxSystem, e: T.Event, t: T.TxSystem)
    requires T.StepTo(p, s, e, t) && AllWithin(p.size, s.read)
    ensures AllWithin(p.size, t.read)
  {
    hide TransmitterSpec.HandleCqe, T.PacketsOf, T.Offered, Fill, OnlyAvailChanges;
  }

  /** A packet read fits a buffer: the TUN device's MTU is the size of the transmit buffers. */
  lemma {:induction false} ReadFits(p: Pool, s: T.TxSystem, events: seq<T.Event>, t: T.TxSystem)
    requires T.Run(p, s, events, t) && AllWithin(p.size, s.read)
    ensures AllWithin(p.size, t.read)
    decreases |events|
  {
    hide T.Enabled, T.After, AllWithin;
    if events != [] {
      var s1 := T.After(p, s, events[0]);
      assert T.StepTo(p, s, events[0], s1);
      StepReads(p, s, events[0], s1);
      ReadFits(p, s1, events[1..], t);
    }
  }

  // --- A packet sent ----------------------------------------------------------------------------

  /** A packet is read and handled, and the socket takes the header of its frame. */
  lemma HeaderSent(p: Pool, mem: seq<byte>, packet: Packet) returns (events: seq<T.Event>, t: T.TxSystem)
    requires |mem| == p.Bytes() && 1 <= p.count && |packet| <= p.size < U32_LIMIT
    ensures T.Run(p, T.Start(p, mem), events, t) && t.failure.None?
    ensures t.read == [packet] && |t.sent| == WIRE_SIZE
  {
    hide T.StepTo, T.Run, TR.Inv;
    var s0 := T.Start(p, mem);
    TT.StartInv(p, mem);
    var s1 := PacketRead(p, s0, packet);
    var s2 := PacketQueued(p, s1, packet);
    t := HeaderTaken(p, s2, packet);
    events := [T.ReadPacket(0, packet, true), T.Handle, T.Send(WIRE_SIZE)];
    TP.ChainRun(p, [s0, s1, s2, t], events);
  }

  lemma PacketRead(p: Pool, s: T.TxSystem, packet: Packet) returns (t: T.TxSystem)
    requires |s.mem| == p.Bytes() && TR.Inv(p, s) && s == T.Start(p, s.mem)
    requires 1 <= p.count && |packet| <= p.size < U32_LIMIT
    ensures T.StepTo(p, s, T.ReadPacket(0, packet, true), t) && TR.Inv(p, t)
    ensures t.cq == [Cqe(READ, |packet|, Some(0), true)] && t.tx.queue == [] && t.sent == [] && t.read == [packet]
    ensures t.taken == [] && t.done == 0
  {
    assert s.tx.avail[0] == 1 && s.tx.readOps == 1;
    hide TR.Inv, Fill;
    t := T.After(p, s, T.ReadPacket(0, packet, true));
    TS.EventKeeps(p, s, T.ReadPacket(0, packet, true), t);
  }

  lemma PacketQueued(p: Pool, s: T.TxSystem, packet: Packet) returns (t: T.TxSystem)
    requires s.cq != [] && TR.Inv(p, s) && s.cq == [Cqe(READ, |packet|, Some(0), true)] && s.tx.queue == []
    requires 1 <= p.count && |packet| <= p.size
    ensures T.StepTo(p, s, T.Handle, t) && TR.Inv(p, t) && t.cq == [] && |t.tx.queue| == 1
    ensures t.sent == s.sent && t.read == s.read
  {
    TS.InvMemory(p, s);
    TP.InvSize(p, s);
    assert T.CarriesPacket(p, s.cq[0]);
    hide TR.Inv, TransmitterSpec.HandleCqe, T.PacketsOf, OnlyAvailChanges, T.Offered, Fill;
    t := T.HandleNext(p, s);
    assert t.sent == s.sent && t.read == s.read;
    assert T.HandledTo(p, s, t) && T.StepTo(p, s, T.Handle, t);
    hide T.HandledTo, T.StepTo;
    TS.HandleKeeps(p, s, t);
    TP.HandleMoves(p, s, t);
  }

  lemma HeaderTaken(p: Pool, s: T.TxSystem, packet: Packet) returns (t: T.TxSystem)
    requires TR.Inv(p, s) && s.cq == [] && s.sent == [] && |s.tx.queue| == 1
    ensures T.StepTo(p, s, T.Send(WIRE_SIZE), t) && |t.sent| == WIRE_SIZE && t.read == s.read && t.failure.None?
  {
    hide TR.Inv, EncodeFrame, EncodeAll, T.Offered, T.HandleNext, OnlyAvailChanges, Fill;
    TS.InvMemory(p, s);
    TP.InvSize(p, s);
    TT.SendArmed(p, s);
    TT.InvOffers(p, s);
    t := T.After(p, s, T.Send(WIRE_SIZE));
  }

  // --- A header received ------------------------------------------------------------------------

  /** While the first header is incomplete, nothing is held and every buffer is the kernel's. */
  lemma AllFree(c: ReceiverSpec.RxConfig, s: R.RxSystem)
    requires RR.Inv(c, s) && s.cq == [] && |s.arrived| < WIRE_SIZE
    ensures s.handled == s.arrived && |s.rx.avail| == c.pool.count
    ensures !s.rx.coolingDown ==> s.rx.recvOps == 1
  {
    hide RR.Inv, ReceiverInvariant.Log, RR.Carried, TotalLength, ReceiverSpec.Shape;
    NoFrame(c, s);
    RT.RecvArmed(c, s);
    RP.BuffersAddUp(c, s);
    RC.PartialFrame(c, s);
    assert RP.CarriedBids(c, s.cq) == [];
  }

  lemma NoFrame(c: ReceiverSpec.RxConfig, s: R.RxSystem)
    requires RR.Inv(c, s) && s.cq == [] && |s.arrived| < WIRE_SIZE
    ensures s.handled == s.arrived && s.rx.output == [] && s.rx.frame.bid == []
  {
    RP.InvAcked(c, s);
    RS.InvParts(c, s);
    RP.InvLog(c, s);
    RP.OutputLeft(c, s);
    RP.ArrivedLength(c, s);
    DecodeNothingYet(c.mtu, s.arrived);
    hide RR.Inv, Decode, RR.Accepted, ReceiverInvariant.ParseInv, ReceiverInvariant.Progress, ReceiverSpec.Shape,
         ReceiverInvariant.SpacedLog, ReceiverInvariant.FramesDistinct;
    NoPayload(c, s.mem, s.rx, s.handled, s.written[..s.acked]);
  }

  lemma NoPayload(c: ReceiverSpec.RxConfig, mem: seq<byte>, rx: ReceiverSpec.RxState, handled: seq<byte>,
                  done: seq<Packet>)
    requires RR.Accepted(c, mem, rx, handled, done) && ReceiverInvariant.Progress(c, rx)
    requires Decode(c.mtu, handled).ending == Waiting(handled) && |handled| < WIRE_SIZE
    ensures rx.frame.bid == []
  {
    hide Decode, ReceiverSpec.Content, ReceiverSpec.FrameShape, ReceiverDecoding.Packets, HeaderOk, SizeOf;
  }

  /** Bytes that do not complete a header arrive one by one, each handled before the next. */
  lemma {:induction false} BytesAhead(c: ReceiverSpec.RxConfig, s: R.RxSystem, bytes: seq<byte>)
    returns (events: seq<R.Event>, t: R.RxSystem)
    requires ReceiveStall.Smooth(c, s) && s.cq == [] && !s.rx.coolingDown && |s.arrived| + |bytes| < WIRE_SIZE
    requires c.pool.count >= 1 && c.pool.size >= 1
    ensures R.Run(c, s, events, t) && ReceiveStall.Smooth(c, t) && t.cq == [] && !t.rx.coolingDown
    ensures t.arrived == s.arrived + bytes
    decreases |bytes|
  {
    hide ReceiveStall.Smooth, R.Enabled, R.After;
    if bytes == [] {
      events, t := [], s;
    } else {
      var one, s1 := ByteHandled(c, s, bytes[0]);
      var more;
      more, t := BytesAhead(c, s1, bytes[1..]);
      R.RunConcat(c, s, one, s1, more, t);
      events := one + more;
      assert s.arrived + [bytes[0]] + bytes[1..] == s.arrived + bytes;
    }
  }

  lemma ByteArrives(c: ReceiverSpec.RxConfig, s: R.RxSystem, b: byte) returns (e: R.Event, t: R.RxSystem)
    requires ReceiveStall.Smooth(c, s) && s.cq == [] && !s.rx.coolingDown && |s.arrived| < WIRE_SIZE
    requires c.pool.count >= 1 && c.pool.size >= 1
    ensures RS.StepTo(c, s, e, t) && RR.Inv(c, t) && t.arrived == s.arrived + [b] && t.handled == s.arrived
    ensures |t.cq| == 1 && R.CarriesBytes(c, t.cq[0]) && !t.rx.coolingDown && R.NO_BUFFERS_CQE !in t.cq
    ensures ReceiveStall.AllPlain(c, t.cq) && ReceiveStall.WritesHandled(t) && ReceiveStall.Units(t.rx)
  {
    hide RR.Inv, Decode, ReceiveStall.Units, R.CarriesBytes, RS.StepTo;
    AllFree(c, s);
    ReceiveStall.NoneIsEmpty(s.rx.avail);
    e, t := ReceiveStall.ReceiveOne(c, s, b);
  }

  lemma ByteHandled(c: ReceiverSpec.RxConfig, s: R.RxSystem, b: byte) returns (events: seq<R.Event>, t: R.RxSystem)
    requires ReceiveStall.Smooth(c, s) && s.cq == [] && !s.rx.coolingDown && |s.arrived| + 1 < WIRE_SIZE
    requires c.pool.count >= 1 && c.pool.size >= 1
    ensures R.Run(c, s, events, t) && ReceiveStall.Smooth(c, t) && t.cq == [] && !t.rx.coolingDown
    ensures t.arrived == s.arrived + [b]
  {
    hide RR.Inv, Decode, ReceiveStall.Units, R.CarriesBytes, R.Enabled, R.After, ReceiveStall.AllPlain;
    var e, s1 := ByteArrives(c, s, b);
    DecodeNothingYet(c.mtu, s1.arrived);
    var handling;
    handling, t := ReceiveStall.HandleAll(c, s1);
    assert ([e] + handling)[1..] == handling;
    events := [e] + handling;
  }

  /** The last byte of a header that breaks the stream is handled, and refused. */
  lemma HeaderRefused(c: ReceiverSpec.RxConfig, s: R.RxSystem, b: byte) returns (events: seq<R.Event>, t: R.RxSystem)
    requires ReceiveStall.Smooth(c, s) && s.cq == [] && !s.rx.coolingDown && |s.arrived| < WIRE_SIZE
    requires c.pool.count >= 1 && c.pool.size >= 1 && Decode(c.mtu, s.arrived + [b]).ending.Broken?
    ensures R.Run(c, s, events, t) && t.arrived == s.arrived + [b]
    ensures t.failure == Some(Decode(c.mtu, s.arrived + [b]).ending.error)
  {
    hide RR.Inv, Decode, ReceiveStall.Smooth, R.CarriesBytes, R.HandleNext, RS.Expected, ReceiverSpec.Shape, Fill,
         OnlyAvailChanges, ReceiverSpec.Content;
    var e, s1 := ByteArrives(c, s, b);
    RS.InvMemory(c, s1);
    RT.InvArrived(c, s1);
    t := R.HandleNext(c, s1);
    assert RS.HandledTo(c, s1, t) && RS.StepTo(c, s1, R.Handle, t);
    OneCarried(c, s1.mem, s1.cq);
    RT.BrokenByBytes(c, s1);
    hide RS.HandledTo, RS.StepTo;
    RS.HandleKeeps(c, s1, t);
    RT.FailedRecord(c, s1, t);
    events := [e, R.Handle];
    TwoSteps(c, s, e, s1, R.Handle, t);
  }

  lemma OneCarried(c: ReceiverSpec.RxConfig, mem: seq<byte>, cq: seq<Cqe>)
    requires |mem| == c.pool.Bytes() && |cq| == 1
    ensures RR.CarriedBytes(c, mem, cq) == R.BytesOf(c, mem, cq[0])
  {
    assert cq[1..] == [];
    hide R.BytesOf;
  }

  lemma TwoSteps(c: ReceiverSpec.RxConfig, s: R.RxSystem, e: R.Event, s1: R.RxSystem, e': R.Event, t: R.RxSystem)
    requires RS.StepTo(c, s, e, s1) && RS.StepTo(c, s1, e', t)
    ensures R.Run(c, s, [e, e'], t)
  {
    hide R.Enabled, R.After;
    assert [e, e'][1..] == [e'] && [e'][1..] == [];
    assert R.Run(c, t, [], t) && R.Run(c, s1, [e'], t);
  }

  // --- Exactly which packets are refused --------------------------------------------------------

  /** The receiver failed because of what the stream held. */
  predicate StreamRefused(s: Session) {
    s.rx.failure.Some? && s.rx.failure.value !in WRITING_OR_RECEIVING_FAILED
  }

  /** The header of a packet that the receiver refuses, as far as it has been sent. */
  lemma RefusedHeader(mtu: nat, packet: Packet, s: seq<byte>)
    requires |packet| < U32_LIMIT && !Sendable(mtu, packet) && s <= EncodeAll([packet]) && |s| == WIRE_SIZE
    ensures Decode(mtu, s) == Decoded([], Broken(InvalidSize))
  {
    var frame := EncodeFrame(packet);
    assert [packet][1..] == [] && EncodeAll([packet]) == frame + EncodeAll([]) == frame;
    hide Decode, EncodeFrame, EncodeAll, Sendable;
    assert s == frame[..WIRE_SIZE] == s[..WIRE_SIZE];
    DecodeRefused(mtu, packet, s);
  }

  /** A receiver just created refuses such a header. */
  lemma HeaderArrives(c: ReceiverSpec.RxConfig, mem: seq<byte>, h: seq<byte>)
    returns (events: seq<R.Event>, t: R.RxSystem)
    requires |mem| == c.pool.Bytes() && c.pool.count >= 1 && c.pool.size >= 1
    requires |h| == WIRE_SIZE && Decode(c.mtu, h).ending == Broken(InvalidSize)
    ensures R.Run(c, R.Start(c, mem), events, t) && t.arrived == h && t.failure == Some(InvalidSize)
  {
    hide Decode, R.Run, RR.Inv, ReceiveStall.Units;
    var s := R.Start(c, mem);
    ReceiveStall.StartSmooth(c, mem);
    DecodeNothingYet(c.mtu, []);
    var before, s1 := BytesAhead(c, s, h[..15]);
    assert [] + h[..15] + [h[15]] == h;
    var last;
    last, t := HeaderRefused(c, s1, h[15]);
    R.RunConcat(c, s, before, s1, last, t);
    events := before + last;
  }

  /** A packet that is empty or exceeds the receiving side's MTU ends that side's session, in an actual run. */
  lemma UnsendableRefused(ca: Config, cb: Config, a: (seq<byte>, seq<byte>), b: (seq<byte>, seq<byte>), packet: Packet)
    returns (steps: seq<Step>, t: Tunnel)
    requires Fitting(ca, a) && Fitting(cb, b) && Creatable(ca) && Creatable(cb)
    requires |packet| <= ca.tx.size && !Sendable(cb.rx.mtu, packet)
    ensures TunnelRun(ca, cb, TunnelStart(ca, cb, a, b), steps, t)
    ensures t.a.tx.read == [packet] && t.b.rx.failure == t.b.failure == Some(InvalidSize)
  {
    hide Consistent, TunnelRun, Start, T.Run, T.Start, R.Run, R.Start, Decode, EncodeAll, Sendable;
    StartConsistent(ca, a.0, a.1);
    StartConsistent(cb, b.0, b.1);
    StartQueues(ca, a);
    StartQueues(cb, b);
    var w := TunnelStart(ca, cb, a, b);
    var sending, u := HeaderSent(ca.tx, a.1, packet);
    TT.SentIsEncoded(ca.tx, a.1, sending, u);
    RefusedHeader(cb.rx.mtu, packet, u.sent);
    var receiving, r := HeaderArrives(cb.rx, b.0, u.sent);
    var before, v := TunnelSends(ca, cb, w, sending, u);
    var more;
    more, t := TunnelReceives(ca, cb, v, receiving, r);
    TunnelConcat(ca, cb, w, before, v, more, t);
    steps := before + more;
  }

  lemma StartQueues(c: Config, mem: (seq<byte>, seq<byte>))
    ensures var s := Start(c, mem.0, mem.1);
      s.cq == [] && s.rx.cq == [] && s.tx.cq == [] && s.rx == R.Start(c.rx, mem.0) && s.tx == T.Start(c.tx, mem.1)
  {
  }

  /** In some run only this packet is read on side `a`, and side `b` refuses the stream. */
  ghost predicate CanRefuse(ca: Config, cb: Config, a: (seq<byte>, seq<byte>), b: (seq<byte>, seq<byte>),
                            packet: Packet)
  {
    exists steps: seq<Step>, t: Tunnel ::
      TunnelRun(ca, cb, TunnelStart(ca, cb, a, b), steps, t) && t.a.tx.read == [packet] && StreamRefused(t.b)
  }

  /** A packet can be refused exactly if it is empty or exceeds the receiving side's MTU. */
  lemma PacketRefusedIff(ca: Config, cb: Config, a: (seq<byte>, seq<byte>), b: (seq<byte>, seq<byte>), packet: Packet)
    requires Fitting(ca, a) && Fitting(cb, b) && Creatable(ca) && Creatable(cb) && |packet| <= ca.tx.size
    ensures CanRefuse(ca, cb, a, b, packet) <==> packet == [] || |packet| > cb.rx.mtu
  {
    assert Sendable(cb.rx.mtu, packet) <==> packet != [] && |packet| <= cb.rx.mtu;
    hide TunnelRun, Start, Sendable;
    if !Sendable(cb.rx.mtu, packet) {
      var steps, t := UnsendableRefused(ca, cb, a, b, packet);
    } else if CanRefuse(ca, cb, a, b, packet) {
      var steps: seq<Step>, t: Tunnel :|
        TunnelRun(ca, cb, TunnelStart(ca, cb, a, b), steps, t) && t.a.tx.read == [packet] && StreamRefused(t.b);
      assert AllSendable(cb.rx.mtu, t.a.tx.read);
      hide EncodeAll, Leading, Settled;
      PacketsGetThrough(ca, cb, a, b, steps, t);
    }
  }

  /** The packets side `a` reads fit the buffers of its transmitter. */
  lemma TunnelReads(ca: Config, cb: Config, a: (seq<byte>, seq<byte>), b: (seq<byte>, seq<byte>),
                    steps: seq<Step>, t: Tunnel)
    requires Fitting(ca, a) && Fitting(cb, b) && TunnelRun(ca, cb, TunnelStart(ca, cb, a, b), steps, t)
    ensures AllWithin(ca.tx.size, t.a.tx.read)
  {
    hide Live, TunnelRun, Start, T.Run, R.Run;
    var rxA, txA, rxB, txB := TunnelHalves(ca, cb, a, b, steps, t);
    ReadFits(ca.tx, T.Start(ca.tx, a.1), txA, t.a.tx);
  }

  /** With MTUs that match, whatever is read may be sent, and the stream is never refused. */
  lemma MatchingMtus(ca: Config, cb: Config, a: (seq<byte>, seq<byte>), b: (seq<byte>, seq<byte>),
                     steps: seq<Step>, t: Tunnel)
    requires Fitting(ca, a) && Fitting(cb, b) && TunnelRun(ca, cb, TunnelStart(ca, cb, a, b), steps, t)
    requires ca.tx.size <= cb.rx.mtu && NoneEmpty(t.a.tx.read)
    ensures AllSendable(cb.rx.mtu, t.a.tx.read) && !StreamRefused(t.b)
  {
    hide TunnelRun, Start;
    TunnelReads(ca, cb, a, b, steps, t);
    assert AllSendable(cb.rx.mtu, t.a.tx.read);
    hide EncodeAll, Leading, Settled;
    PacketsGetThrough(ca, cb, a, b, steps, t);
  }

  /** In some run side `a` reads no empty packet, and side `b` refuses the stream all the same. */
  ghost predicate CanRefuseSome(ca: Config, cb: Config, a: (seq<byte>, seq<byte>), b: (seq<byte>, seq<byte>)) {
    exists steps: seq<Step>, t: Tunnel ::
      TunnelRun(ca, cb, TunnelStart(ca, cb, a, b), steps, t) && NoneEmpty(t.a.tx.read) && StreamRefused(t.b)
  }

  /** Whoever starts the two sides can tell: non-empty packets can be refused exactly if the sender's MTU is greater. */
  lemma MismatchRefusesIff(ca: Config, cb: Config, a: (seq<byte>, seq<byte>), b: (seq<byte>, seq<byte>))
    requires Fitting(ca, a) && Fitting(cb, b) && Creatable(ca) && Creatable(cb)
    ensures CanRefuseSome(ca, cb, a, b) <==> ca.tx.size > cb.rx.mtu
  {
    hide TunnelRun, Start;
    if ca.tx.size > cb.rx.mtu {
      var packet := ReceiveStall.Zeros(cb.rx.mtu + 1);
      var steps, t := UnsendableRefused(ca, cb, a, b, packet);
    } else if CanRefuseSome(ca, cb, a, b) {
      var steps: seq<Step>, t: Tunnel :|
        TunnelRun(ca, cb, TunnelStart(ca, cb, a, b), steps, t) && NoneEmpty(t.a.tx.read) && StreamRefused(t.b);
      MatchingMtus(ca, cb, a, b, steps, t);
    }
  }
}
