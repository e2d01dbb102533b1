/** What every run of the receiver delivers, reports and keeps outstanding. */
module ReceiveTheorems {
  import opened ByteStreams
  import opened Outcomes
  import opened Completions
  import opened CompletionQueues
  import opened BufferGroups
  import opened KernelMemory
  import opened FrameHeaders
  import opened FrameCodec
  import opened ReceiverSpec
  import opened ReceiverInvariant
  import opened ReceiverDecoding
  import opened ReceiveSystem
  import opened ReceiveRuns
  import opened ReceiveSafety

  // --- Every run --------------------------------------------------------------------------------

  lemma StartEmpty(c: RxConfig, mem: seq<byte>)
    ensures var rx := Start(c, mem).rx;
      rx.input == [] && Log(rx) == [] && forall b: nat :: Occurrences(Log(rx), b) == 0 && !InInput(rx.input, b)
  {
    var rx := Start(c, mem).rx;
    assert OutLog(rx.output) == [] && FrameLog(rx.frame) == [];
  }

  lemma StartPosition(c: RxConfig, mem: seq<byte>)
    ensures var rx := Start(c, mem).rx;
      Shape(c, rx) && Progress(c, rx) && InputOk(c, rx.input) && Unfinished(rx.input) && FramesDistinct(rx)
  {
    hide HeaderOk, SizeOf, MagicValid;
    EmptyLength();
  }

  lemma StartOwned(c: RxConfig, mem: seq<byte>)
    ensures Owned(c, Start(c, mem).rx) && forall b: nat :: HeldCount(Start(c, mem).rx, b) == 0
  {
    StartEmpty(c, mem);
    hide Log, Occurrences, InInput;
    assert HeldSet(c, Start(c, mem).rx) == {};
  }

  lemma StartParse(c: RxConfig, mem: seq<byte>)
    ensures var rx := Start(c, mem).rx;
      ParseInv(c, rx) && rx.input == [] && forall b: nat :: HeldCount(rx, b) == 0
  {
    hide Log, Occurrences, Shape, Progress, InputOk, Unfinished, FramesDistinct, Owned, HeldCount, Start;
    StartEmpty(c, mem);
    StartPosition(c, mem);
    StartOwned(c, mem);
  }

  lemma StartInv(c: RxConfig, mem: seq<byte>)
    requires |mem| == c.pool.Bytes()
    ensures Inv(c, Start(c, mem))
  {
    hide ParseInv, HeldCount;
    StartParse(c, mem);
    var s := Start(c, mem);
    assert Shape(c, s.rx) && Packets(c, mem, s.rx.output) == [] && Pending(c, mem, s.rx) == [];
  }

  /** Every run stays within the invariant; one that fails does so in handling a completion, as expected. */
  lemma {:induction false} RunKeeps(c: RxConfig, s: RxSystem, events: seq<Event>, t: RxSystem) returns (u: RxSystem)
    requires Inv(c, s) && Run(c, s, events, t)
    ensures t.failure.None? ==> Inv(c, t)
    ensures t.failure.Some? ==>
              |u.mem| == c.pool.Bytes() && u.cq != [] && Inv(c, u) && HandledTo(c, u, t) && t.failure == Expected(c, u)
    decreases |events|
  {
    hide Inv, Enabled, After, Expected, HandledTo;
    u := s;
    if events == [] {
      InvMemory(c, s);
    } else {
      var s1 := After(c, s, events[0]);
      assert ReceiveSafety.StepTo(c, s, events[0], s1);
      EventKeeps(c, s, events[0], s1);
      if s1.failure.None? {
        u := RunKeeps(c, s1, events[1..], t);
      } else {
        FailedStops(c, s1, events[1..], t);
        FailedHandling(c, s, events[0], s1);
        HandleKeeps(c, s, s1);
      }
    }
  }

  /** Every reachable state has the invariant. */
  lemma RunInv(c: RxConfig, mem: seq<byte>, events: seq<Event>, t: RxSystem)
    requires |mem| == c.pool.Bytes() && Run(c, Start(c, mem), events, t) && t.failure.None?
    ensures Inv(c, t)
  {
    hide Inv, Run, Start;
    StartInv(c, mem);
    var u := RunKeeps(c, Start(c, mem), events, t);
  }

  lemma FailedStops(c: RxConfig, s: RxSystem, events: seq<Event>, t: RxSystem)
    requires s.failure.Some? && Run(c, s, events, t)
    ensures t == s
  {
    hide Shape, HandleNext;
  }

  lemma FailedHandling(c: RxConfig, s: RxSystem, e: Event, t: RxSystem)
    requires ReceiveSafety.StepTo(c, s, e, t) && t.failure.Some?
    ensures HandledTo(c, s, t) && s.cq != [] && |s.mem| == c.pool.Bytes()
  {
    hide Shape, HandleNext, Fill, OnlyAvailChanges, Content;
  }

  // --- Delivery ---------------------------------------------------------------------------------

  lemma WritesBound(c: RxConfig, s: RxSystem)
    requires Inv(c, s)
    ensures |s.written| <= s.acked + 1
  {
    hide ParseInv, Accepted, Partition, Flow, Content, Arrived;
    WritesSnoc(s.cq, NO_BUFFERS_CQE, FrontLength(s.rx));
  }

  lemma InvDelivers(c: RxConfig, s: RxSystem)
    requires Inv(c, s)
    ensures s.written <= Decode(c.mtu, s.handled).packets
    ensures s.handled <= s.arrived
    ensures s.cq == [] && s.rx.output == [] ==> s.written == Decode(c.mtu, s.handled).packets && s.handled == s.arrived
  {
    hide Books, Decode, Content, FrameShape, CarriedBytes, FullWrites, Pending;
    WritesBound(c, s);
    EmptyQueue(c, s.mem, FrontLength(s.rx));
    var ps := Packets(c, s.mem, s.rx.output);
    assert s.written == s.written[..s.acked] + s.written[s.acked..];
    if |s.written| > s.acked {
      assert s.written[s.acked..] == [ps[0]] && ps == [ps[0]] + ps[1..];
    }
  }

  lemma InvArrived(c: RxConfig, s: RxSystem)
    requires Inv(c, s)
    ensures Arrived(c, s)
  {
    hide Books, Accepted, Delivered;
  }

  lemma EmptyQueue(c: RxConfig, mem: seq<byte>, len: nat)
    requires |mem| == c.pool.Bytes()
    ensures CarriedBytes(c, mem, []) == [] && FullWrites([], len) == 0
  {
  }

  /** What handling the last completion of a failed run left alone. */
  lemma FailedRecord(c: RxConfig, u: RxSystem, t: RxSystem)
    requires HandledTo(c, u, t)
    ensures t.written == u.written && t.arrived == u.arrived && |u.mem| == c.pool.Bytes()
    ensures t.handled == u.handled + BytesOf(c, u.mem, u.cq[0])
  {
    hide HandleCqe, BytesOf, Shape;
  }

  lemma DecodePrefixes(mtu: nat, a: seq<byte>, b: seq<byte>)
    requires a <= b
    ensures Decode(mtu, a).packets <= Decode(mtu, b).packets
    ensures Decode(mtu, a).ending.Broken? ==> Decode(mtu, b) == Decode(mtu, a)
  {
    hide Decode;
    DecodeResumes(mtu, a, b[|a|..]);
    assert a + b[|a|..] == b;
  }

  /**
   * Whatever the kernel does, what has been written to the TUN device is an initial part of what the bytes taken
   * from the socket decode to, packet by packet; with nothing queued and nothing waiting, all of it.
   */
  lemma WrittenIsDecoded(c: RxConfig, mem: seq<byte>, events: seq<Event>, t: RxSystem)
    requires |mem| == c.pool.Bytes() && Run(c, Start(c, mem), events, t)
    ensures t.written <= Decode(c.mtu, t.arrived).packets
    ensures t.failure.None? && t.cq == [] && t.rx.output == [] ==> t.written == Decode(c.mtu, t.arrived).packets
  {
    hide Inv, Run, Start, Decode, HandledTo, Expected, BytesOf;
    StartInv(c, mem);
    var u := RunKeeps(c, Start(c, mem), events, t);
    if t.failure.None? {
      InvDelivers(c, t);
      DecodePrefixes(c.mtu, t.handled, t.arrived);
    } else {
      InvDelivers(c, u);
      FailedRecord(c, u, t);
      DecodePrefixes(c.mtu, u.handled, u.arrived);
    }
  }

  lemma {:induction false} DecodeErrors(mtu: nat, s: seq<byte>)
    requires Decode(mtu, s).ending.Broken?
    ensures Decode(mtu, s).ending.error in {InvalidMagic, InvalidSize, FrameCrcMismatch}
    decreases |s|
  {
    hide CrcField, MagicValid, SizeOf, CrcOf;
    if |s| >= WIRE_SIZE && HeaderOk(mtu, s[..WIRE_SIZE]) {
      var end := WIRE_SIZE + SizeOf(s[..WIRE_SIZE]);
      if |s| >= end && CrcOf(s[..WIRE_SIZE]) == CrcField(s[WIRE_SIZE..end]) {
        DecodeErrors(mtu, s[end..]);
      }
    }
  }

  /**
   * A failure is either reported by the kernel, or the stream handled so far is broken in just that way; and once the
   * stream handled is broken, that is the failure.
   */
  lemma FailureExplained(c: RxConfig, mem: seq<byte>, events: seq<Event>, t: RxSystem)
    requires |mem| == c.pool.Bytes() && Run(c, Start(c, mem), events, t)
    ensures t.failure.None? ==> Decode(c.mtu, t.handled).ending.Waiting?
    ensures t.failure.Some? ==>
              || t.failure.value in {TunWriteFailed, TunPartialWrite, RecvFailed, PeerClosed}
              || (&& Decode(c.mtu, t.handled).ending == Broken(t.failure.value)
                  && t.failure.value in {InvalidMagic, InvalidSize, FrameCrcMismatch})
    ensures Decode(c.mtu, t.handled).ending.Broken? ==> t.failure == Some(Decode(c.mtu, t.handled).ending.error)
  {
    hide Inv, Run, Start, Decode, HandledTo, BytesOf, FrontLength;
    StartInv(c, mem);
    var u := RunKeeps(c, Start(c, mem), events, t);
    if t.failure.None? {
      InvWaits(c, t);
    } else {
      FailedRecord(c, u, t);
      if Decode(c.mtu, t.handled).ending.Broken? {
        DecodeErrors(c.mtu, t.handled);
        BrokenByBytes(c, u);
      }
    }
  }

  /** Only stream bytes can break a stream, and then handling them reports it. */
  lemma BrokenByBytes(c: RxConfig, s: RxSystem)
    requires |s.mem| == c.pool.Bytes() && s.cq != [] && Inv(c, s)
    requires Decode(c.mtu, s.handled + BytesOf(c, s.mem, s.cq[0])).ending.Broken?
    ensures Expected(c, s) == Some(Decode(c.mtu, s.handled + BytesOf(c, s.mem, s.cq[0])).ending.error)
  {
    hide Inv, Decode, CarriesBytes, Expected;
    InvWaits(c, s);
    assert s.handled + [] == s.handled;
    if CarriesBytes(c, s.cq[0]) {
      ExpectedRecv(c, s);
    }
  }

  lemma InvWaits(c: RxConfig, s: RxSystem)
    requires Inv(c, s)
    ensures Decode(c.mtu, s.handled).ending.Waiting?
  {
    hide Books, Arrived, Delivered, Decode, Packets, Pending;
  }

  // --- Outstanding operations -------------------------------------------------------------------

  /**
   * In every reachable state exactly one receive is armed or about to be handled unless the receiver is cooling
   * down, and exactly one write is outstanding or about to be handled while frames wait.
   */
  lemma OneOutstanding(c: RxConfig, mem: seq<byte>, events: seq<Event>, t: RxSystem)
    requires |mem| == c.pool.Bytes() && Run(c, Start(c, mem), events, t) && t.failure.None?
    ensures t.rx.recvOps + Ended(RECV, t.cq) == if t.rx.coolingDown then 0 else 1
    ensures t.rx.writeOps + CountOf(WRITE, t.cq) == if t.rx.output != [] then 1 else 0
    ensures t.rx.writeInProgress <==> t.rx.output != []
  {
    hide Inv, Run, Start;
    StartInv(c, mem);
    var u := RunKeeps(c, Start(c, mem), events, t);
    InvOperations(c, t);
    FlowCounts(RECV, t.cq, t.rx.recvOps, t.rx.coolingDown);
  }

  /** With nothing queued, a receive is armed unless cooling down, and a write is under way while frames wait. */
  lemma RecvArmed(c: RxConfig, s: RxSystem)
    requires Inv(c, s) && s.cq == []
    ensures s.rx.recvOps == (if s.rx.coolingDown then 0 else 1)
    ensures s.rx.writeOps > 0 <==> s.rx.output != []
  {
    InvOperations(c, s);
    hide Inv;
  }

  lemma InvOwned(c: RxConfig, s: RxSystem)
    requires Inv(c, s)
    ensures Owned(c, s.rx) && s.rx.input == [] && Partition(c, s.rx, s.cq)
  {
    hide Accepted, Delivered, Arrived, Operations, Shape, Progress, InputOk, Owned, Spaced, FramesDistinct, Partition,
         QueueOk, Unfinished;
  }

  lemma OwnedCounts(c: RxConfig, rx: RxState)
    requires Owned(c, rx) && rx.input == []
    ensures forall b: nat | b < c.pool.count :: HeldCount(rx, b) == Positive(rx, b)
    ensures rx.used == |PositiveSet(rx)|
  {
    hide Log, Occurrences;
    forall b: nat ensures !InInput(rx.input, b) {}
    hide InInput;
    assert PositiveSet(rx) == HeldSet(c, rx);
  }

  /** Each buffer always has exactly one owner, and the counts say who needs it. */
  lemma BuffersConserved(c: RxConfig, mem: seq<byte>, events: seq<Event>, t: RxSystem)
    requires |mem| == c.pool.Bytes() && Run(c, Start(c, mem), events, t) && t.failure.None?
    ensures |t.rx.refs| == c.pool.count
    ensures forall b: nat | b < c.pool.count :: t.rx.avail[b] + Positive(t.rx, b) + Carried(c, t.cq, b) == 1
    ensures forall b: nat | b >= c.pool.count :: t.rx.avail[b] == 0
    ensures forall b: nat | b < c.pool.count :: t.rx.refs[b] == Occurrences(Log(t.rx), b)
    ensures t.rx.used == |PositiveSet(t.rx)|
  {
    hide Inv, Run, Start, Carried, Log, Occurrences, HeldCount, HeldSet, PositiveSet, Positive;
    StartInv(c, mem);
    var u := RunKeeps(c, Start(c, mem), events, t);
    InvOwned(c, t);
    OwnedCounts(c, t.rx);
  }

  /** However the stream is cut into buffers, a buffer of up to 4 GiB never has 2^31 references. */
  lemma RefcountsBounded(c: RxConfig, mem: seq<byte>, events: seq<Event>, t: RxSystem, b: nat)
    requires |mem| == c.pool.Bytes() && Run(c, Start(c, mem), events, t) && t.failure.None?
    requires b < c.pool.count
    ensures |t.rx.refs| == c.pool.count && t.rx.refs[b] >= 0
    ensures t.rx.refs[b] > 0 ==> (WIRE_SIZE + 1) * t.rx.refs[b] - WIRE_SIZE <= c.pool.size
    ensures c.pool.size < U32_LIMIT ==> t.rx.refs[b] < 0x8000_0000
  {
    hide Inv, Run, Start, ParseInv, Occurrences, Log;
    BuffersConserved(c, mem, events, t);
    RunInv(c, mem, events, t);
    if t.rx.refs[b] > 0 {
      InvParts(c, t);
      RefcountBound(c, t.rx, b);
    }
  }

  // --- Zero copy --------------------------------------------------------------------------------

  /** The frames waiting in `s` and not written since still wait in `t`, in order, and denote the same packets. */
  ghost predicate FramesKept(c: RxConfig, s: RxSystem, t: RxSystem) {
    && Shape(c, s.rx) && Shape(c, t.rx) && |s.mem| == |t.mem| == c.pool.Bytes()
    && s.acked <= t.acked
    && forall i | t.acked - s.acked <= i < |s.rx.output| ::
         var j := i - (t.acked - s.acked);
         && j < |t.rx.output| && t.rx.output[j] == s.rx.output[i]
         && Content(c.pool, t.mem, t.rx.output[j]) == Content(c.pool, s.mem, s.rx.output[i])
  }

  lemma KeptRefl(c: RxConfig, s: RxSystem)
    requires Shape(c, s.rx) && |s.mem| == c.pool.Bytes()
    ensures FramesKept(c, s, s)
  {
  }

  lemma KeptTrans(c: RxConfig, s: RxSystem, t: RxSystem, u: RxSystem)
    requires FramesKept(c, s, t) && FramesKept(c, t, u)
    ensures FramesKept(c, s, u)
  {
    hide Content, FrameShape;
    forall i | u.acked - s.acked <= i < |s.rx.output|
      ensures var j := i - (u.acked - s.acked);
        && j < |u.rx.output| && u.rx.output[j] == s.rx.output[i]
        && Content(c.pool, u.mem, u.rx.output[j]) == Content(c.pool, s.mem, s.rx.output[i])
    {
      var f := s.rx.output[i];
      var k := i - (t.acked - s.acked);
      assert k < |t.rx.output| && t.rx.output[k] == f;
    }
  }

  lemma SamePackets(c: RxConfig, mem: seq<byte>, mem': seq<byte>, s: RxSystem, t: RxSystem)
    requires s.mem == mem && t.mem == mem' && |mem| == |mem'| == c.pool.Bytes() && Shape(c, s.rx) && Shape(c, t.rx)
    requires t.acked == s.acked && s.rx.output <= t.rx.output
    requires Packets(c, mem', s.rx.output) == Packets(c, mem, s.rx.output)
    ensures FramesKept(c, s, t)
  {
    hide Content, FrameShape;
    forall i | 0 <= i < |s.rx.output|
      ensures Content(c.pool, mem', s.rx.output[i]) == Content(c.pool, mem, s.rx.output[i])
    {
      assert Packets(c, mem', s.rx.output)[i] == Packets(c, mem, s.rx.output)[i];
    }
  }

  /** A step of the kernel changes no byte of a waiting frame, nor of the one being assembled. */
  lemma KernelKeepsFrames(c: RxConfig, s: RxSystem, e: Event, t: RxSystem)
    requires Inv(c, s) && ReceiveSafety.StepTo(c, s, e, t) && !e.Handle?
    ensures Shape(c, s.rx) && Shape(c, t.rx) && |s.mem| == |t.mem| == c.pool.Bytes()
    ensures FramesKept(c, s, t) && t.rx.frame == s.rx.frame && t.rx.output == s.rx.output && t.acked == s.acked
    ensures Content(c.pool, t.mem, t.rx.frame) == Content(c.pool, s.mem, s.rx.frame)
  {
    hide Inv, ReceiveSafety.StepTo, HeldCount, Carried, OnlyAvailChanges, Content, FrameShape, Packets, FramesKept,
         Pending;
    KernelTouches(c, s, e, t);
    OneOwner(c, s);
    PendingFrame(c, s.rx, s.mem, t.mem);
    SamePackets(c, s.mem, t.mem, s, t);
  }

  lemma KernelTouches(c: RxConfig, s: RxSystem, e: Event, t: RxSystem)
    requires ReceiveSafety.StepTo(c, s, e, t) && !e.Handle?
    ensures OnlyAvailChanges(c.pool, s.rx.avail, s.mem, t.mem) && |t.mem| == |s.mem| == c.pool.Bytes()
    ensures Shape(c, s.rx) && Shape(c, t.rx)
    ensures t.rx == s.rx.(avail := t.rx.avail, recvOps := t.rx.recvOps, writeOps := t.rx.writeOps) && t.acked == s.acked
  {
    hide FrameShape, HandleNext, Content, Fill;
    SameMemory(c, s);
    if e.Scribble? {
      assert |t.mem| == |s.mem| == c.pool.Bytes();
    }
    hide OnlyAvailChanges;
    if e.Receive? {
      FillFrame(c.pool, s.rx.avail, s.mem, e.bid, e.bytes);
    }
  }

  lemma KernelPartial(c: RxConfig, s: RxSystem, t: RxSystem)
    requires Shape(c, s.rx) && Shape(c, t.rx) && |s.mem| == |t.mem| == c.pool.Bytes()
    requires t.rx.frame == s.rx.frame && t.rx.output == s.rx.output && t.acked == s.acked
    requires Content(c.pool, t.mem, t.rx.frame) == Content(c.pool, s.mem, s.rx.frame)
    ensures PartialKept(c, s, t)
  {
    hide Content, FrameShape;
  }

  /** Handling a completion leaves the memory alone and removes at most the frame whose write it reports. */
  lemma HandleKeepsFrames(c: RxConfig, s: RxSystem, t: RxSystem)
    requires s.cq != [] && |s.mem| == c.pool.Bytes()
    requires Inv(c, s) && HandledTo(c, s, t) && t.failure.None?
    ensures FramesKept(c, s, t) && PartialKept(c, s, t)
  {
    hide Inv, HandledTo, Shape, CarriesBytes, Expected, FramesKept, CqeOk, Assembled, PartialKept, SamePosition;
    FrontOk(c, s);
    InvMemory(c, s);
    HandleKeeps(c, s, t);
    InvMemory(c, t);
    if s.cq[0].op == WRITE {
      WriteKeepsFrames(c, s, t);
      PoppedKept(c, s, t);
      PoppedPartial(c, s, t);
    } else {
      if CarriesBytes(c, s.cq[0]) {
        RecvKeepsFrames(c, s, t);
      } else {
        RecvEndKeepsFrames(c, s, t);
      }
      SamePackets(c, s.mem, t.mem, s, t);
      AssembledPartial(c, s, t);
    }
  }

  lemma PoppedKept(c: RxConfig, s: RxSystem, t: RxSystem)
    requires Shape(c, s.rx) && Shape(c, t.rx) && |s.mem| == c.pool.Bytes() && t.mem == s.mem && s.rx.output != []
    requires t.rx.output == s.rx.output[1..] && t.acked == s.acked + 1
    ensures FramesKept(c, s, t)
  {
    hide Content, FrameShape;
  }

  lemma PoppedPartial(c: RxConfig, s: RxSystem, t: RxSystem)
    requires Shape(c, s.rx) && |s.mem| == c.pool.Bytes() && t.mem == s.mem && s.rx.output != []
    requires t.rx.output == s.rx.output[1..] && t.rx.frame == s.rx.frame && t.acked == s.acked + 1
    ensures PartialKept(c, s, t)
  {
    hide Content, FrameShape;
  }

  lemma AssembledPartial(c: RxConfig, s: RxSystem, t: RxSystem)
    requires Shape(c, s.rx) && |s.mem| == c.pool.Bytes() && t.mem == s.mem
    requires Assembled(s.rx, t.rx) && t.acked == s.acked
    ensures PartialKept(c, s, t)
  {
    hide Content, FrameShape;
  }

  lemma FrontOk(c: RxConfig, s: RxSystem)
    requires s.cq != [] && Inv(c, s)
    ensures CqeOk(c, s.cq[0]) && (s.cq[0].op != WRITE ==> s.cq[0].op == RECV)
  {
    hide ParseInv, Partition, Operations, Accepted, Delivered, Arrived;
  }

  lemma WriteKeepsFrames(c: RxConfig, s: RxSystem, t: RxSystem)
    requires s.cq != [] && s.cq[0].op == WRITE && t.failure.None?
    requires Inv(c, s) && HandledTo(c, s, t)
    ensures t.mem == s.mem && s.rx.output != [] && t.rx.output == s.rx.output[1..] && t.acked == s.acked + 1
    ensures t.rx.frame == s.rx.frame
  {
    hide Inv, Books, Arrived, Accepted, Delivered, HandleNext, Expected, HandleCqe, Enabled, ReleaseAll, Popped,
         WriteDone,
         KernelTook, HandledTo;
    WriteOutstanding(c, s);
    WriteBooks(c, s.rx, s.cq);
    WriteNext(c, s, t);
    PoppedPosition(s.rx.(writeInProgress := false), t.rx);
  }

  lemma RecvKeepsFrames(c: RxConfig, s: RxSystem, t: RxSystem)
    requires s.cq != [] && t.failure.None?
    requires Inv(c, s) && HandledTo(c, s, t) && CarriesBytes(c, s.cq[0])
    ensures t.mem == s.mem && s.rx.output <= t.rx.output && t.acked == s.acked && Assembled(s.rx, t.rx)
  {
    hide Inv, HandledTo, Parse, RecvDone, HandleNext, Shape, BytesOf, CarriesBytes, KernelTook;
    CarriesPositive(c, s.cq[0]);
    InvMemory(c, s);
    LoadedReady(c, s);
    var s1 := Loaded(s.rx, s.cq[0].bid.value, s.cq[0].result);
    var parsed := Parse(c, s.mem, s1);
    RecvNext(c, s, t, parsed.0, parsed.1);
    ParseUntouched(c, s.mem, s1);
    ParseAssembles(c, s.mem, s1);
    RecvDoneTook(parsed.0, s.cq[0].more);
    RecvDoneFrame(parsed.0, s.cq[0].more);
  }

  lemma RecvDoneFrame(s: RxState, more: bool)
    ensures RecvDone(s, more).frame == s.frame
  {
  }

  lemma RecvEndKeepsFrames(c: RxConfig, s: RxSystem, t: RxSystem)
    requires s.cq != [] && s.cq[0].op == RECV && t.failure.None?
    requires Inv(c, s) && HandledTo(c, s, t) && CqeOk(c, s.cq[0]) && !CarriesBytes(c, s.cq[0])
    ensures t.mem == s.mem && s.rx.output == t.rx.output && t.acked == s.acked && Assembled(s.rx, t.rx)
  {
    hide Inv, CqeOk, HandledTo, Flow, CarriesBytes;
    InvOperations(c, s);
    RecvEndNext(c, s, t);
  }

  // --- Zero copy for the frame being assembled --------------------------------------------------

  /** The `i`th frame the receiver holds: those waiting to be written, and then the one being assembled. */
  function Slot(rx: RxState, i: nat): OutputFrame {
    if i < |rx.output| then rx.output[i] else rx.frame
  }

  /** `g` is `f`, or `f` with more references behind. */
  predicate Continues(f: OutputFrame, g: OutputFrame) {
    f.bid <= g.bid && f.segments <= g.segments
  }

  predicate Assembled(s: RxState, s': RxState) {
    s.output <= s'.output && Continues(s.frame, Slot(s', |s.output|))
  }

  lemma AssembledTrans(s: RxState, t: RxState, u: RxState)
    requires Assembled(s, t) && Assembled(t, u)
    ensures Assembled(s, u)
  {
    if |s.output| < |t.output| {
      assert u.output[|s.output|] == t.output[|s.output|];
    }
  }

  lemma HeaderAssembles(c: RxConfig, mem: seq<byte>, s: RxState)
    requires CanTake(c, mem, s)
    ensures Assembled(s, TakeHeader(c, mem, s).0)
  {
    hide MagicValid, SizeOf, FilledHeader, Shape, FrameShape;
  }

  lemma PayloadAssembles(c: RxConfig, mem: seq<byte>, s: RxState)
    requires CanTake(c, mem, s)
    ensures Assembled(s, TakePayload(c, mem, s).0)
  {
    hide SizeOf, CrcAgrees, Content;
  }

  lemma StepAssembles(c: RxConfig, mem: seq<byte>, s: RxState)
    requires Shape(c, s) && |mem| == c.pool.Bytes() && s.input != []
    ensures Assembled(s, ParseStep(c, mem, s).0)
  {
    hide TakeHeader, TakePayload, Shape;
    if s.input[0].offset < s.input[0].size {
      HeaderAssembles(c, mem, s);
      PayloadAssembles(c, mem, s);
    }
  }

  /** Parsing only adds references behind those of the frame being assembled. */
  lemma {:induction false} ParseAssembles(c: RxConfig, mem: seq<byte>, s: RxState)
    requires Shape(c, s) && |mem| == c.pool.Bytes()
    ensures Assembled(s, Parse(c, mem, s).0)
    decreases Unread(s.input)
  {
    ParseUnfolds(c, mem, s);
    hide ParseStep, Shape, Parse;
    if s.input != [] {
      StepAssembles(c, mem, s);
      var next := ParseStep(c, mem, s);
      if next.1.Done? {
        StepConsumes(c, mem, s, next.0);
        ParseAssembles(c, mem, next.0);
        AssembledTrans(s, next.0, Parse(c, mem, next.0).0);
      }
    }
  }

  /**
   * The frame being assembled in `s`, unless it was written since: in `t` it is still the frame with its number,
   * assembled further or waiting, and what `s` had of it denotes the same bytes.
   */
  ghost predicate PartialKept(c: RxConfig, s: RxSystem, t: RxSystem) {
    && Shape(c, s.rx) && |s.mem| == |t.mem| == c.pool.Bytes()
    && s.acked <= t.acked
    && (t.acked <= s.acked + |s.rx.output| ==>
          var j := s.acked + |s.rx.output| - t.acked;
          && j <= |t.rx.output| && Continues(s.rx.frame, Slot(t.rx, j))
          && Content(c.pool, t.mem, s.rx.frame) == Content(c.pool, s.mem, s.rx.frame))
  }

  lemma PartialRefl(c: RxConfig, s: RxSystem)
    requires Shape(c, s.rx) && |s.mem| == c.pool.Bytes()
    ensures PartialKept(c, s, s)
  {
  }

  /** What a frame had denotes the first bytes of what it has. */
  lemma ContentPrefix(p: Pool, mem: seq<byte>, f: OutputFrame, g: OutputFrame)
    requires |mem| == p.Bytes() && FrameShape(p, f) && FrameShape(p, g) && Continues(f, g)
    ensures TotalLength(f.segments) <= |Content(p, mem, g)|
    ensures Content(p, mem, f) == Content(p, mem, g)[..TotalLength(f.segments)]
  {
    ShapeInBounds(p, mem, f);
    ShapeInBounds(p, mem, g);
    var rest := g.segments[|f.segments|..];
    assert g.segments == f.segments + rest;
    GatherConcat(mem, f.segments, rest);
    GatherLength(mem, f.segments);
  }

  lemma SameBeginning(p: Pool, mem: seq<byte>, mem': seq<byte>, f: OutputFrame, g: OutputFrame)
    requires |mem| == |mem'| == p.Bytes() && FrameShape(p, f) && FrameShape(p, g) && Continues(f, g)
    requires Content(p, mem, g) == Content(p, mem', g)
    ensures Content(p, mem, f) == Content(p, mem', f)
  {
    hide Content, FrameShape, Continues;
    ContentPrefix(p, mem, f, g);
    ContentPrefix(p, mem', f, g);
  }

  lemma PartialTrans(c: RxConfig, s: RxSystem, t: RxSystem, u: RxSystem)
    requires PartialKept(c, s, t) && FramesKept(c, t, u) && PartialKept(c, t, u)
    ensures PartialKept(c, s, u)
  {
    hide Content, FrameShape;
    if u.acked <= s.acked + |s.rx.output| {
      var j := s.acked + |s.rx.output| - t.acked;
      var g := Slot(t.rx, j);
      var k := s.acked + |s.rx.output| - u.acked;
      if j < |t.rx.output| {
        assert u.rx.output[k] == t.rx.output[j];
      }
      assert Continues(g, Slot(u.rx, k)) && Content(c.pool, u.mem, g) == Content(c.pool, t.mem, g);
      SameBeginning(c.pool, t.mem, u.mem, s.rx.frame, g);
    }
  }

  lemma {:induction false} RunKeepsFrames(c: RxConfig, s: RxSystem, events: seq<Event>, t: RxSystem)
    requires Inv(c, s) && Run(c, s, events, t) && t.failure.None?
    ensures FramesKept(c, s, t) && PartialKept(c, s, t)
    decreases |events|
  {
    hide Inv, Enabled, After, HandledTo, FramesKept, PartialKept, Content, FrameShape;
    InvMemory(c, s);
    if events == [] {
      KeptRefl(c, s);
      PartialRefl(c, s);
    } else {
      var s1 := After(c, s, events[0]);
      assert ReceiveSafety.StepTo(c, s, events[0], s1);
      EventKeeps(c, s, events[0], s1);
      if s1.failure.Some? {
        FailedStops(c, s1, events[1..], t);
      } else {
        if events[0].Handle? {
          HandleStep(c, s, s1);
          HandleKeepsFrames(c, s, s1);
        } else {
          KernelKeepsFrames(c, s, events[0], s1);
          KernelPartial(c, s, s1);
        }
        RunKeepsFrames(c, s1, events[1..], t);
        KeptTrans(c, s, s1, t);
        PartialTrans(c, s, s1, t);
      }
    }
  }

  /**
   * Zero copy is safe: from any reachable state on, every frame not yet written still lies in the pool exactly as
   * it was accepted, and so does the beginning of the frame being assembled, although nothing was copied and the
   * kernel overwrote its own buffers at will.
   */
  lemma ZeroCopy(c: RxConfig, mem: seq<byte>, before: seq<Event>, s: RxSystem, events: seq<Event>, t: RxSystem)
    requires |mem| == c.pool.Bytes() && Run(c, Start(c, mem), before, s) && s.failure.None?
    requires Run(c, s, events, t) && t.failure.None?
    ensures FramesKept(c, s, t) && PartialKept(c, s, t)
  {
    hide Inv, Run, Start, FramesKept, PartialKept;
    RunInv(c, mem, before, s);
    RunKeepsFrames(c, s, events, t);
  }

  lemma HandleStep(c: RxConfig, s: RxSystem, t: RxSystem)
    requires ReceiveSafety.StepTo(c, s, Handle, t)
    ensures HandledTo(c, s, t) && s.cq != []
  {
    hide HandleNext, Shape;
  }
}
