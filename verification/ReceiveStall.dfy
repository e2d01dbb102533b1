/** A run that stalls the receive direction, for every pool of fewer than 2 * mtu + 16 buffers. */
module ReceiveStall {
  import opened ByteStreams
  import opened Outcomes
  import opened Completions
  import opened CompletionQueues
  import opened BufferGroups
  import opened KernelMemory
  import opened FrameHeaders
  import opened FrameCodec
  import opened ReceiverSpec
  import opened ReceiverInvariant
  import opened ReceiverDecoding
  import opened ReceiveSystem
  import opened ReceiveRuns
  import opened ReceiveSafety
  import opened ReceiveTheorems
  import opened ReceiveCooldown
  import opened ReceiveProgress

  // --- Frames made of single bytes --------------------------------------------------------------

  predicate UnitFrame(f: OutputFrame) {
    forall i | 0 <= i < |f.segments| :: f.segments[i].len == 1
  }

  /** Every part of a pending frame is one byte. */
  predicate Units(rx: RxState) {
    UnitFrame(rx.frame) && forall i | 0 <= i < |rx.output| :: UnitFrame(rx.output[i])
  }

  predicate UnitInput(input: seq<InputBuffer>) {
    forall i | 0 <= i < |input| :: input[i].size == 1
  }

  lemma {:induction false} UnitLength(iov: seq<IoVec>)
    requires forall i | 0 <= i < |iov| :: iov[i].len == 1
    ensures TotalLength(iov) == |iov|
    decreases |iov|
  {
    if iov != [] {
      UnitLength(iov[1..]);
    }
  }

  lemma HeaderUnits(c: RxConfig, mem: seq<byte>, s: RxState, s': RxState)
    requires ParseInv(c, s) && HeaderTo(c, mem, s, s') && Units(s) && UnitInput(s.input)
    ensures Units(s') && UnitInput(s'.input)
  {
    assert s.headerProgress < WIRE_SIZE;
    HeaderEffect(c, mem, s, s', Min(s.input[0].size - s.input[0].offset, WIRE_SIZE - s.headerProgress));
    hide ParseInv, HeaderTo, HeaderOk, Shape, UnitFrame;
  }

  lemma PayloadUnits(c: RxConfig, mem: seq<byte>, s: RxState, s': RxState)
    requires ParseInv(c, s) && PayloadTo(c, mem, s, s') && Units(s) && UnitInput(s.input)
    ensures Units(s') && UnitInput(s'.input)
  {
    hide ParseInv, PayloadTo, Shape, SizeOf, Appended;
    PayloadReady(c, mem, s, s');
    var r := NextRef(c, s);
    assert r.v.len == 1;
    PayloadEffect(c, mem, s, s');
    hide NextRef;
    AppendedUnits(s, s', r);
  }

  lemma PayloadReady(c: RxConfig, mem: seq<byte>, s: RxState, s': RxState)
    requires ParseInv(c, s) && PayloadTo(c, mem, s, s')
    ensures |s.header| == WIRE_SIZE && s.payloadProgress < SizeOf(s.header)
    ensures s.input != [] && s.input[0].offset < s.input[0].size
  {
    hide SizeOf, Owned, Spaced, FramesDistinct, FrameShape, MagicValid;
  }

  lemma AppendedUnits(s: RxState, s': RxState, r: Ref)
    requires Appended(s, s', r) && r.v.len == 1 && Units(s) && UnitInput(s.input)
    ensures Units(s') && UnitInput(s'.input)
  {
    hide SizeOf;
    assert UnitFrame(Extend(s.frame, r));
  }

  lemma RetireUnits(c: RxConfig, s: RxState, s': RxState)
    requires s.input != [] && s.input[0].bid < c.pool.count == |s.refs| && Retire(c, s) == (s', Done)
    requires Units(s) && UnitInput(s.input)
    ensures Units(s') && UnitInput(s'.input)
  {
    hide UnitFrame;
  }

  lemma {:induction false} ParseUnits(c: RxConfig, mem: seq<byte>, s: RxState, s': RxState)
    requires ParseInv(c, s) && |mem| == c.pool.Bytes() && Parse(c, mem, s) == (s', Done)
    requires Units(s) && UnitInput(s.input)
    ensures Units(s')
    decreases Unread(s.input)
  {
    hide ParseInv, ParseStep, Shape, Units, UnitInput, HeaderTo, PayloadTo, Retire;
    ParseShape(c, s);
    ParseUnfolds(c, mem, s);
    if s.input != [] {
      var next := ParseStep(c, mem, s).0;
      assert ReceiverSpec.StepTo(c, mem, s, next);
      var s1 := StepSplits(c, mem, s, next);
      hide ReceiverSpec.StepTo;
      if HeaderTo(c, mem, s, s1) {
        HeaderUnits(c, mem, s, s1);
      } else {
        PayloadUnits(c, mem, s, s1);
      }
      RetireUnits(c, s1, next);
      StepKeeps(c, mem, s, next);
      StepConsumes(c, mem, s, next);
      ParseUnits(c, mem, next, s');
    }
  }

  lemma ParseShape(c: RxConfig, s: RxState)
    requires ParseInv(c, s)
    ensures Shape(c, s)
  {
  }

  // --- Queues of full writes, single bytes, and at most a last report of no buffers --------------

  predicate Plain(c: RxConfig, cqe: Cqe) {
    cqe.op == WRITE || (CarriesBytes(c, cqe) && cqe.result == 1 && cqe.more) || cqe == NO_BUFFERS_CQE
  }

  predicate AllPlain(c: RxConfig, cq: seq<Cqe>) {
    forall i | 0 <= i < |cq| :: Plain(c, cq[i])
  }

  /** Everything that was written is handled or queued. */
  predicate WritesHandled(s: RxSystem) {
    |s.written| == s.acked + CountOf(WRITE, s.cq)
  }

  /** A state from which handling all completions goes well. */
  ghost predicate Smooth(c: RxConfig, s: RxSystem) {
    && Inv(c, s) && AllPlain(c, s.cq) && WritesHandled(s) && Units(s.rx)
    && Decode(c.mtu, s.arrived).ending.Waiting?
  }

  lemma {:induction false} FullWritesHead(cq: seq<Cqe>, len: nat)
    ensures FullWrites(cq, len) <= CountOf(WRITE, cq)
    ensures FullWrites(cq, len) == CountOf(WRITE, cq) && cq != [] && cq[0].op == WRITE ==> cq[0].result == len
  {
    if cq != [] {
      FullWritesHead(cq[1..], len);
    }
  }

  /** Completions that report no error: of a write, of stream bytes, or that no buffer was left. */
  predicate AllFine(c: RxConfig, cq: seq<Cqe>) {
    forall i | 0 <= i < |cq| :: cq[i].op == WRITE || CarriesBytes(c, cq[i]) || cq[i] == NO_BUFFERS_CQE
  }

  /** Handling the oldest of such completions reports no error, if every write queued was a full one. */
  lemma FineExpected(c: RxConfig, s: RxSystem)
    requires s.cq != [] && Inv(c, s) && AllFine(c, s.cq) && WritesHandled(s)
    requires Decode(c.mtu, s.arrived).ending.Waiting?
    ensures |s.mem| == c.pool.Bytes() && Expected(c, s) == None
  {
    hide Inv, Decode, Units, BytesOf;
    InvMemory(c, s);
    if s.cq[0].op == WRITE {
      InvDelivered(c, s);
      FullWritesHead(s.cq, FrontLength(s.rx));
    } else {
      InvArrived(c, s);
      hide FrontLength, WritesHandled, AllFine;
      var bytes := BytesOf(c, s.mem, s.cq[0]);
      assert s.arrived == s.handled + bytes + CarriedBytes(c, s.mem, s.cq[1..]) by {
        Associative(s.handled, bytes, CarriedBytes(c, s.mem, s.cq[1..]));
      }
      DecodePrefixes(c.mtu, s.handled + bytes, s.arrived);
    }
  }

  lemma InvDelivered(c: RxConfig, s: RxSystem)
    requires Inv(c, s)
    ensures |s.written| == s.acked + FullWrites(s.cq, FrontLength(s.rx))
    ensures s.rx.output != [] ==> FrontLength(s.rx) == TotalLength(s.rx.output[0].segments)
  {
    hide Books, Arrived, Accepted, Content, FullWrites;
  }

  lemma RecvUnits(c: RxConfig, s: RxSystem, t: RxSystem)
    requires s.cq != [] && |s.mem| == c.pool.Bytes() && t.failure.None?
    requires Inv(c, s) && HandledTo(c, s, t) && CarriesBytes(c, s.cq[0]) && s.cq[0].result == 1 && Units(s.rx)
    ensures Units(t.rx)
  {
    hide Inv, HandledTo, ParseInv, Parse, HandleNext, Shape, BytesOf, CarriesBytes, KernelTook, UnitFrame;
    CarriesPositive(c, s.cq[0]);
    InvParts(c, s);
    LoadedReady(c, s);
    var s1 := Loaded(s.rx, s.cq[0].bid.value, s.cq[0].result);
    var parsed := Parse(c, s.mem, s1);
    RecvNext(c, s, t, parsed.0, parsed.1);
    hide RecvDone;
    ParseUnits(c, s.mem, s1, parsed.0);
    RecvDoneTook(parsed.0, s.cq[0].more);
    TookFrames(parsed.0, t.rx);
  }

  lemma TookFrames(s: RxState, s': RxState)
    requires KernelTook(s, s')
    ensures s'.frame == s.frame && s'.output == s.output
  {
  }

  lemma SmoothUnits(c: RxConfig, s: RxSystem, t: RxSystem)
    requires s.cq != [] && |s.mem| == c.pool.Bytes() && t.failure.None?
    requires Smooth(c, s) && HandledTo(c, s, t)
    ensures Units(t.rx)
    ensures !s.rx.coolingDown && s.cq[0] != NO_BUFFERS_CQE ==> !t.rx.coolingDown
    ensures s.cq[0] == NO_BUFFERS_CQE ==> t.rx.coolingDown
  {
    assert Plain(c, s.cq[0]);
    hide Inv, HandledTo, UnitFrame, Decode, AllPlain, CarriesBytes, CqeOk;
    if s.cq[0].op == WRITE {
      WriteCools(c, s, t);
    } else if CarriesBytes(c, s.cq[0]) {
      RecvUnits(c, s, t);
      CarriesPositive(c, s.cq[0]);
      BytesEndNoCooldown(c, s, t);
    } else {
      InvOperations(c, s);
      FrontOk(c, s);
      hide Flow;
      RecvEndNext(c, s, t);
    }
  }

  lemma SmoothParts(c: RxConfig, s: RxSystem)
    requires Smooth(c, s)
    ensures Inv(c, s) && Units(s.rx) && Decode(c.mtu, s.arrived).ending.Waiting?
    ensures AllPlain(c, s.cq) && WritesHandled(s)
  {
    hide Inv, Decode, Units, AllPlain, WritesHandled;
  }

  lemma AllPlainFine(c: RxConfig, cq: seq<Cqe>)
    requires AllPlain(c, cq)
    ensures AllFine(c, cq)
  {
    hide CarriesBytes;
  }

  lemma SmoothQueue(c: RxConfig, s: RxSystem, t: RxSystem)
    requires Smooth(c, s) && s.cq != [] && t.cq == s.cq[1..] && t.written == s.written
    requires t.acked == if s.cq[0].op == WRITE then s.acked + 1 else s.acked
    ensures AllPlain(c, t.cq) && WritesHandled(t)
  {
    hide Inv, Decode, Units, Plain;
  }

  /** Handling one completion of a smooth state. */
  lemma HandleOne(c: RxConfig, s: RxSystem) returns (t: RxSystem)
    requires Smooth(c, s) && s.cq != []
    ensures ReceiveSafety.StepTo(c, s, Handle, t) && Smooth(c, t) && t.cq == s.cq[1..]
    ensures t.arrived == s.arrived && t.written == s.written
    ensures !s.rx.coolingDown && s.cq[0] != NO_BUFFERS_CQE ==> !t.rx.coolingDown
    ensures s.cq[0] == NO_BUFFERS_CQE ==> t.rx.coolingDown
  {
    hide Inv, Decode, HandleNext, Units, AllPlain, WritesHandled, Expected, Shape, OnlyAvailChanges, Fill, Content;
    SmoothParts(c, s);
    AllPlainFine(c, s.cq);
    FineExpected(c, s);
    InvMemory(c, s);
    t := HandleNext(c, s);
    assert HandledTo(c, s, t) && ReceiveSafety.StepTo(c, s, Handle, t);
    hide HandledTo, ReceiveSafety.StepTo;
    HandleKeeps(c, s, t);
    HandledRecord(c, s, t);
    FailedRecord(c, s, t);
    SmoothUnits(c, s, t);
    SmoothQueue(c, s, t);
  }

  /** Handling everything that is queued. */
  lemma {:induction false} HandleAll(c: RxConfig, s: RxSystem) returns (events: seq<Event>, t: RxSystem)
    requires Smooth(c, s)
    ensures Run(c, s, events, t) && Smooth(c, t) && t.cq == []
    ensures t.arrived == s.arrived && t.written == s.written
    ensures !s.rx.coolingDown && NO_BUFFERS_CQE !in s.cq ==> !t.rx.coolingDown
    ensures s.cq == [] ==> t == s
    ensures s.cq != [] && s.cq[|s.cq| - 1] == NO_BUFFERS_CQE ==> t.rx.coolingDown
    decreases |s.cq|
  {
    hide Smooth, Enabled, After;
    if s.cq == [] {
      events, t := [], s;
    } else {
      var s1 := HandleOne(c, s);
      events, t := HandleAll(c, s1);
      assert ([Handle] + events)[1..] == events;
      events := [Handle] + events;
    }
  }

  // --- Filling buffers --------------------------------------------------------------------------

  lemma SomeBuffer(c: RxConfig, s: RxSystem) returns (bid: nat)
    requires Inv(c, s) && s.rx.avail != multiset{}
    ensures bid < c.pool.count && s.rx.avail[bid] > 0
  {
    bid :| bid in s.rx.avail;
    NoStrangers(c, s, bid);
  }

  lemma ReceiveOne(c: RxConfig, s: RxSystem, b: byte) returns (e: Event, t: RxSystem)
    requires Inv(c, s) && AllPlain(c, s.cq) && WritesHandled(s) && Units(s.rx)
    requires s.rx.recvOps == 1 && s.rx.avail != multiset{} && c.pool.size >= 1
    ensures ReceiveSafety.StepTo(c, s, e, t) && Inv(c, t) && AllPlain(c, t.cq) && WritesHandled(t) && Units(t.rx)
    ensures t.rx.recvOps == 1 && |t.rx.avail| == |s.rx.avail| - 1
    ensures t.rx.coolingDown == s.rx.coolingDown && (NO_BUFFERS_CQE !in s.cq ==> NO_BUFFERS_CQE !in t.cq)
    ensures t.arrived == s.arrived + [b] && t.written == s.written && e.Receive? && t.handled == s.handled
    ensures |t.cq| == |s.cq| + 1 && CarriesBytes(c, t.cq[|s.cq|])
  {
    hide Inv, UnitFrame, HandleNext, Shape, Fill, OnlyAvailChanges, Content;
    InvMemory(c, s);
    var bid := SomeBuffer(c, s);
    e := Receive(bid, [b], true);
    t := After(c, s, e);
    EventKeeps(c, s, e, t);
    CountSnoc(WRITE, s.cq, Cqe(RECV, 1, Some(bid), true));
  }

  /** Bytes arrive one per buffer. */
  lemma {:induction false} ReceiveAll(c: RxConfig, s: RxSystem, bytes: seq<byte>)
    returns (events: seq<Event>, t: RxSystem)
    requires Inv(c, s) && AllPlain(c, s.cq) && WritesHandled(s) && Units(s.rx)
    requires s.rx.recvOps == 1 && |s.rx.avail| >= |bytes| && c.pool.size >= 1
    ensures Run(c, s, events, t) && Inv(c, t) && AllPlain(c, t.cq) && WritesHandled(t) && Units(t.rx)
    ensures t.rx.recvOps == 1 && |t.rx.avail| == |s.rx.avail| - |bytes|
    ensures t.rx.coolingDown == s.rx.coolingDown && (NO_BUFFERS_CQE !in s.cq ==> NO_BUFFERS_CQE !in t.cq)
    ensures t.arrived == s.arrived + bytes && t.written == s.written
    decreases |bytes|
  {
    hide Inv, AllPlain, WritesHandled, Units, Enabled, After;
    if bytes == [] {
      events, t := [], s;
      assert s.arrived + [] == s.arrived;
    } else {
      assert s.rx.avail != multiset{} by { NoneIsEmpty(s.rx.avail); }
      var e, s1 := ReceiveOne(c, s, bytes[0]);
      events, t := ReceiveAll(c, s1, bytes[1..]);
      assert ([e] + events)[1..] == events;
      events := [e] + events;
      assert s.arrived + [bytes[0]] + bytes[1..] == s.arrived + bytes;
    }
  }

  lemma NoneIsEmpty(avail: multiset<nat>)
    ensures |avail| == 0 <==> avail == multiset{}
  {
  }

  // --- The stream that stalls -------------------------------------------------------------------

  /** A packet of `n` zeros. */
  function Zeros(n: nat): (p: Packet)
    ensures |p| == n
  {
    seq(n, _ => 0)
  }

  /** The first bytes of a frame of the greatest size the receiver accepts. */
  function Unfinished(mtu: nat, n: nat): (s: seq<byte>)
    requires mtu < U32_LIMIT && n <= mtu + 15
    ensures |s| == n
  {
    EncodeFrame(Zeros(mtu))[..n]
  }

  lemma UnfinishedWaits(mtu: nat, n: nat)
    requires mtu < U32_LIMIT && n <= mtu + 15
    ensures Decode(mtu, Unfinished(mtu, n)) == Decoded([], Waiting(Unfinished(mtu, n)))
  {
    hide Encode, CrcField, MagicValid, SizeOf, CrcOf, HeaderError;
    if n >= WIRE_SIZE {
      var crc := CrcField(Zeros(mtu));
      EncodeDecodes(mtu, crc);
      assert Unfinished(mtu, n)[..WIRE_SIZE] == Encode(mtu, crc);
    }
  }

  /** Whole frames and then an unfinished one. */
  lemma StallingStream(mtu: nat, ps: seq<Packet>, n: nat)
    requires mtu < U32_LIMIT && n <= mtu + 15 && AllSendable(mtu, ps)
    ensures Decode(mtu, EncodeAll(ps) + Unfinished(mtu, n)) == Decoded(ps, Waiting(Unfinished(mtu, n)))
  {
    UnfinishedWaits(mtu, n);
    hide Decode, Unfinished, EncodeAll;
    DecodeEncodeAll(mtu, ps, Unfinished(mtu, n));
    assert ps + [] == ps;
  }

  lemma AllHandled(c: RxConfig, s: RxSystem)
    requires Smooth(c, s) && s.cq == []
    ensures s.handled == s.arrived && s.acked == |s.written|
    ensures |Decode(c.mtu, s.arrived).packets| == |s.written| + |s.rx.output|
  {
    hide Inv, Decode, Units, Plain;
    ArrivedLength(c, s);
    OutputLeft(c, s);
  }

  lemma NoneLeft(c: RxConfig, s: RxSystem) returns (t: RxSystem)
    requires Inv(c, s) && AllPlain(c, s.cq) && WritesHandled(s) && Units(s.rx)
    requires s.rx.recvOps == 1 && s.rx.avail == multiset{}
    ensures ReceiveSafety.StepTo(c, s, NoBuffers, t) && t.cq == s.cq + [NO_BUFFERS_CQE]
    ensures Inv(c, t) && AllPlain(c, t.cq) && WritesHandled(t) && Units(t.rx)
    ensures t.arrived == s.arrived && t.written == s.written
  {
    hide Inv, UnitFrame, HandleNext, Shape, Fill, OnlyAvailChanges, Content, CarriesBytes;
    InvMemory(c, s);
    t := After(c, s, NoBuffers);
    EventKeeps(c, s, NoBuffers, t);
    CountSnoc(WRITE, s.cq, NO_BUFFERS_CQE);
  }

  /** With everything accepted so far written, few buffers left stall the receiver on the next frame. */
  lemma FinishOff(c: RxConfig, s: RxSystem, ps: seq<Packet>) returns (events: seq<Event>, t: RxSystem)
    requires Inv(c, s) && AllPlain(c, s.cq) && WritesHandled(s) && Units(s.rx)
    requires s.rx.recvOps == 1 && |s.rx.avail| <= c.mtu + 15 && c.pool.size >= 1 && c.mtu < U32_LIMIT
    requires AllSendable(c.mtu, ps) && s.arrived == EncodeAll(ps) && |s.written| == |ps|
    ensures Run(c, s, events, t) && Inv(c, t) && Asleep(t)
    ensures t.arrived == EncodeAll(ps) + Unfinished(c.mtu, |s.rx.avail|)
  {
    hide Inv, AllPlain, WritesHandled, Units, Enabled, After, Decode, EncodeAll, Unfinished, AllSendable;
    var n := |s.rx.avail|;
    var filling, s1 := ReceiveAll(c, s, Unfinished(c.mtu, n));
    NoneIsEmpty(s1.rx.avail);
    var s2 := NoneLeft(c, s1);
    StallingStream(c.mtu, ps, n);
    var handling;
    handling, t := HandleAll(c, s2);
    AllHandled(c, t);
    SmoothParts(c, t);
    AsleepIff(c, t);
    assert Run(c, s2, handling, t) && ([NoBuffers] + handling)[1..] == handling;
    assert Run(c, s1, [NoBuffers] + handling, t);
    RunConcat(c, s, filling, s1, [NoBuffers] + handling, t);
    events := filling + ([NoBuffers] + handling);
  }

  // --- A frame to begin with --------------------------------------------------------------------

  lemma StartSmooth(c: RxConfig, mem: seq<byte>)
    requires |mem| == c.pool.Bytes()
    ensures var s := Start(c, mem);
      && Inv(c, s) && AllPlain(c, s.cq) && WritesHandled(s) && Units(s.rx) && NO_BUFFERS_CQE !in s.cq
      && s.rx.recvOps == 1 && |s.rx.avail| == c.pool.count && !s.rx.coolingDown
      && s.arrived == [] && s.written == []
  {
    hide Inv;
    StartInv(c, mem);
    EverythingSize(c.pool.count);
    hide Everything;
  }

  lemma OnlyPacket(c: RxConfig, mem: seq<byte>, rx: RxState, handled: seq<byte>, p: Packet)
    requires Accepted(c, mem, rx, handled, []) && |rx.output| == 1 && Decode(c.mtu, handled).packets == [p]
    ensures FrameShape(c.pool, rx.output[0]) && Content(c.pool, mem, rx.output[0]) == p
  {
    hide Decode, Content, Pending, FrameShape;
    var ps := Packets(c, mem, rx.output);
    assert [] + ps == ps && ps[0] == p;
  }

  lemma UnitBuffers(p: Pool, mem: seq<byte>, f: OutputFrame)
    requires |mem| == p.Bytes() && FrameShape(p, f) && UnitFrame(f)
    ensures |f.bid| == |Content(p, mem, f)|
  {
    ContentLength(p, mem, f);
    UnitLength(f.segments);
  }

  /** A frame received one byte per buffer holds as many buffers as it has bytes. */
  lemma FrontUnits(c: RxConfig, s: RxSystem, p: Packet)
    requires Inv(c, s) && Units(s.rx) && s.cq == [] && |s.rx.output| == 1 && s.acked == 0
    requires Decode(c.mtu, s.handled).packets == [p]
    ensures |s.rx.avail| + |p| <= c.pool.count
  {
    hide Inv, ParseInv, Accepted, Decode, SpacedLog, Progress, Log, HeldSet, Distinct, Pending, Content, FrameShape,
         UnitFrame;
    InvMemory(c, s);
    InvParts(c, s);
    InvLog(c, s);
    PartialFacts(c, s);
    BuffersAddUp(c, s);
    assert s.written[..0] == [];
    OnlyPacket(c, s.mem, s.rx, s.handled, p);
    var f := s.rx.output[0];
    UnitBuffers(c.pool, s.mem, f);
    DistinctSize(f.bid);
    FrontHeld(c, s.rx);
    SubsetSize(BidSet(f.bid), HeldSet(c, s.rx));
  }

  lemma FrontHeld(c: RxConfig, rx: RxState)
    requires Shape(c, rx) && rx.output != []
    ensures BidSet(rx.output[0].bid) <= HeldSet(c, rx)
  {
    FramesHeld(rx);
    HeldSetIs(c, rx);
    hide HeldSet, HeldCount;
  }

  lemma WriteFront(c: RxConfig, s: RxSystem) returns (t: RxSystem)
    requires Smooth(c, s) && s.cq == [] && s.rx.output != [] && !s.rx.coolingDown
    ensures ReceiveSafety.StepTo(c, s, Write, t) && Inv(c, t)
    ensures AllPlain(c, t.cq) && WritesHandled(t) && Units(t.rx)
    ensures t.rx.recvOps == 1 && t.rx.avail == s.rx.avail && t.arrived == s.arrived && |t.written| == |s.written| + 1
  {
    hide Inv, UnitFrame, HandleNext, Fill, OnlyAvailChanges, Content, TotalLength, Decode, FrameShape;
    SmoothParts(c, s);
    AllHandled(c, s);
    InvMemory(c, s);
    InvOperations(c, s);
    t := After(c, s, Write);
    EventKeeps(c, s, Write, t);
    assert t.cq[1..] == [];
  }

  /** A frame of `a` bytes received one byte per buffer, and written. */
  lemma FirstFrame(c: RxConfig, mem: seq<byte>, a: nat) returns (events: seq<Event>, t: RxSystem, p: Packet)
    requires |mem| == c.pool.Bytes() && c.pool.size >= 1 && c.mtu < U32_LIMIT && 1 <= a <= c.mtu
    requires c.pool.count >= a + WIRE_SIZE
    ensures Run(c, Start(c, mem), events, t) && Inv(c, t)
    ensures AllPlain(c, t.cq) && WritesHandled(t) && Units(t.rx)
    ensures t.rx.recvOps == 1 && |t.rx.avail| + a <= c.pool.count
    ensures Sendable(c.mtu, p) && t.arrived == EncodeAll([p]) && |t.written| == 1
  {
    hide Inv, AllPlain, WritesHandled, Units, Enabled, After, Decode, Start;
    p := Zeros(a);
    StartSmooth(c, mem);
    OneFrame(c.mtu, p);
    hide EncodeAll;
    var s0 := Start(c, mem);
    var receiving, s1 := ReceiveAll(c, s0, EncodeAll([p]));
    assert [] + EncodeAll([p]) == EncodeAll([p]);
    var handling, s2 := HandleAll(c, s1);
    AllHandled(c, s2);
    SmoothParts(c, s2);
    FrontUnits(c, s2, p);
    t := WriteFront(c, s2);
    assert Run(c, t, [], t) && [Write][1..] == [];
    assert Run(c, s2, [Write], t);
    RunConcat(c, s1, handling, s2, [Write], t);
    RunConcat(c, s0, receiving, s1, handling + [Write], t);
    events := receiving + (handling + [Write]);
  }

  lemma OneFrame(mtu: nat, p: Packet)
    requires Sendable(mtu, p)
    ensures AllSendable(mtu, [p]) && |EncodeAll([p])| == WIRE_SIZE + |p|
    ensures Decode(mtu, EncodeAll([p])) == Decoded([p], Waiting([]))
  {
    hide Decode, Encode, CrcField;
    DecodeEncodeAll(mtu, [p], []);
    NothingDecodes(mtu);
    assert EncodeAll([p]) + [] == EncodeAll([p]) && [p] + [] == [p];
    assert EncodeAll([p][1..]) == [];
  }

  lemma NothingDecodes(mtu: nat)
    ensures Decode(mtu, []) == Decoded([], Waiting([]))
  {
  }

  // --- Exactly when the receiver can stall ------------------------------------------------------

  /**
   * In every pool of fewer than 2 * mtu + 16 buffers the receive direction can stall although the peer sends well
   * and nothing goes wrong: a frame is accepted and written, an unfinished one fills the buffers that are left, and
   * the report that none is left is handled after the write's completion.
   */
  lemma ReceiverFallsAsleep(c: RxConfig, mem: seq<byte>) returns (events: seq<Event>, t: RxSystem, ps: seq<Packet>)
    requires |mem| == c.pool.Bytes() && c.pool.size >= 1 && c.mtu < U32_LIMIT
    requires c.pool.count <= 2 * c.mtu + 15
    ensures Run(c, Start(c, mem), events, t) && t.failure.None? && Asleep(t)
    ensures AllEncodable(ps) && t.arrived <= EncodeAll(ps) && (c.mtu >= 1 ==> AllSendable(c.mtu, ps))
  {
    hide Inv, AllPlain, WritesHandled, Units, Run, Start, EncodeAll, Unfinished;
    var before, s;
    if c.pool.count <= c.mtu + 15 {
      before, s, ps := [], Start(c, mem), [];
      StartSmooth(c, mem);
      StandStill(c, s);
    } else {
      var p;
      before, s, p := FirstFrame(c, mem, c.pool.count - c.mtu - 15);
      ps := [p];
    }
    var more;
    more, t := FinishOff(c, s, ps);
    InvMemory(c, t);
    RunConcat(c, Start(c, mem), before, s, more, t);
    events := before + more;
    WellSent(c.mtu, ps, |s.rx.avail|);
    ps := ps + [Zeros(c.mtu)];
  }

  lemma StandStill(c: RxConfig, s: RxSystem)
    ensures Run(c, s, [], s) && EncodeAll([]) == [] && AllSendable(c.mtu, [])
  {
  }

  /** What arrives is part of what a transmitter sends. */
  lemma WellSent(mtu: nat, ps: seq<Packet>, n: nat)
    requires mtu < U32_LIMIT && n <= mtu + 15 && AllEncodable(ps)
    ensures AllEncodable(ps + [Zeros(mtu)])
    ensures EncodeAll(ps) + Unfinished(mtu, n) <= EncodeAll(ps + [Zeros(mtu)])
  {
    var frame := EncodeFrame(Zeros(mtu));
    assert |frame| == WIRE_SIZE + mtu && Unfinished(mtu, n) == frame[..n];
    hide EncodeFrame, EncodeAll, Unfinished;
    EncodeAllSnoc(ps, Zeros(mtu));
    PartOfFrame(EncodeAll(ps), frame, n);
  }

  lemma PartOfFrame(sent: seq<byte>, frame: seq<byte>, n: nat)
    requires n <= |frame|
    ensures sent + frame[..n] <= sent + frame
  {
    assert (sent + frame)[..|sent| + n] == sent + frame[..n];
  }

  /** Some run of the receiver ends with nothing outstanding, although nothing went wrong. */
  ghost predicate CanStall(c: RxConfig, mem: seq<byte>) {
    exists events: seq<Event>, t: RxSystem :: Run(c, Start(c, mem), events, t) && t.failure.None? && Asleep(t)
  }

  /** The receive direction can stall exactly if its pool has fewer than 2 * mtu + 16 buffers. */
  lemma ReceiverStallsIff(c: RxConfig, mem: seq<byte>)
    requires |mem| == c.pool.Bytes() && c.pool.size >= 1 && c.mtu < U32_LIMIT
    ensures CanStall(c, mem) <==> c.pool.count < 2 * c.mtu + 16
  {
    hide Run, Start, Asleep;
    if c.pool.count < 2 * c.mtu + 16 {
      var events, t, ps := ReceiverFallsAsleep(c, mem);
    } else if CanStall(c, mem) {
      var events: seq<Event>, t: RxSystem :| Run(c, Start(c, mem), events, t) && t.failure.None? && Asleep(t);
      ReceiverNeverAsleep(c, mem, events, t);
    }
  }
}
