/** For which pools the receive direction never stalls: exactly those of at least 2 * mtu + 16 buffers. */
module ReceiveProgress {
  import opened ByteStreams
  import opened Completions
  import opened CompletionQueues
  import opened BufferGroups
  import opened KernelMemory
  import opened FrameHeaders
  import opened FrameCodec
  import opened ReceiverSpec
  import opened ReceiverInvariant
  import opened ReceiverDecoding
  import opened ReceiveSystem
  import opened ReceiveRuns
  import opened ReceiveSafety
  import opened ReceiveTheorems
  import opened ReceiveCooldown

  // --- Sizes of what the decoder keeps ----------------------------------------------------------

  /** An undecoded rest is shorter than a whole frame, and no packet is longer than the MTU. */
  lemma {:induction false} DecodedSizes(mtu: nat, s: seq<byte>)
    ensures var d := Decode(mtu, s);
      && (d.ending.Waiting? ==> |d.ending.rest| <= mtu + 15)
      && forall i | 0 <= i < |d.packets| :: |d.packets[i]| <= mtu
    decreases |s|
  {
    hide CrcField, MagicValid, SizeOf, CrcOf, HeaderError;
    if |s| >= WIRE_SIZE && HeaderOk(mtu, s[..WIRE_SIZE]) {
      var end := WIRE_SIZE + SizeOf(s[..WIRE_SIZE]);
      if |s| >= end && CrcOf(s[..WIRE_SIZE]) == CrcField(s[WIRE_SIZE..end]) {
        DecodedSizes(mtu, s[end..]);
      }
    }
  }

  // --- Counting buffers -------------------------------------------------------------------------

  /** The buffers queued completions carry. */
  function CarriedBids(c: RxConfig, cq: seq<Cqe>): seq<nat> {
    if cq == [] then []
    else if CarriesBytes(c, cq[0]) then [cq[0].bid.value] + CarriedBids(c, cq[1..])
    else CarriedBids(c, cq[1..])
  }

  /** How many stream bytes queued completions carry. */
  function CarriedLength(c: RxConfig, cq: seq<Cqe>): nat {
    if cq == [] then 0 else LengthOf(c, cq[0]) + CarriedLength(c, cq[1..])
  }

  function LengthOf(c: RxConfig, cqe: Cqe): nat {
    if CarriesBytes(c, cqe) then cqe.result else 0
  }

  lemma {:induction false} CarriedSizes(c: RxConfig, mem: seq<byte>, cq: seq<Cqe>)
    requires |mem| == c.pool.Bytes()
    ensures |CarriedBytes(c, mem, cq)| == CarriedLength(c, cq)
    ensures |CarriedBids(c, cq)| <= CarriedLength(c, cq)
    ensures forall b: nat :: multiset(CarriedBids(c, cq))[b] == Carried(c, cq, b)
    decreases |cq|
  {
    if cq != [] {
      CarriedSizes(c, mem, cq[1..]);
    }
  }

  /** Every buffer is the kernel's, the receiver's, or on its way to the receiver. */
  lemma BuffersAddUp(c: RxConfig, s: RxSystem)
    requires Inv(c, s)
    ensures |s.rx.avail| + s.rx.used + |CarriedBids(c, s.cq)| == c.pool.count
  {
    InvMemory(c, s);
    InvOwned(c, s);
    CarriedSizes(c, s.mem, s.cq);
    hide Inv, HeldSet, CarriedBids, Carried, Log, Occurrences, InInput, Everything;
    HeldSetIs(c, s.rx);
    var held := HeldSet(c, s.rx);
    var parts := s.rx.avail + multiset(held) + multiset(CarriedBids(c, s.cq));
    forall b: nat ensures parts[b] == Everything(c.pool.count)[b] {
      NoStrangers(c, s, b);
    }
    assert parts == Everything(c.pool.count);
    EverythingSize(c.pool.count);
    assert |multiset(CarriedBids(c, s.cq))| == |CarriedBids(c, s.cq)|;
  }

  lemma HeldSetIs(c: RxConfig, rx: RxState)
    ensures forall b: nat :: b in HeldSet(c, rx) <==> b < c.pool.count && HeldCount(rx, b) == 1
  {
    hide Log, Occurrences, InInput;
  }

  lemma NoStrangers(c: RxConfig, s: RxSystem, b: nat)
    requires Inv(c, s)
    ensures b >= c.pool.count ==> s.rx.avail[b] == 0 && Carried(c, s.cq, b) == 0
    ensures b < c.pool.count ==> s.rx.avail[b] + HeldCount(s.rx, b) + Carried(c, s.cq, b) == 1
  {
    hide Inv, HeldCount, Log, Occurrences, HeldSet, Carried;
    InvOwned(c, s);
    if b >= c.pool.count {
      CarriedKnown(c, s.cq, b);
    }
  }

  lemma {:induction false} CarriedKnown(c: RxConfig, cq: seq<Cqe>, b: nat)
    requires b >= c.pool.count
    ensures Carried(c, cq, b) == 0
    decreases |cq|
  {
    if cq != [] {
      CarriedKnown(c, cq[1..], b);
    }
  }

  // --- How many buffers frames hold -------------------------------------------------------------

  lemma {:induction false} PartsBelowLength(iov: seq<IoVec>)
    requires forall i | 0 <= i < |iov| :: iov[i].len >= 1
    ensures |iov| <= TotalLength(iov)
    decreases |iov|
  {
    if iov != [] {
      PartsBelowLength(iov[1..]);
    }
  }

  lemma LoggedFrame(p: Pool, f: OutputFrame, before: seq<Ref>, behind: seq<Ref>)
    requires FrameShape(p, f) && SpacedLog(before + FrameLog(f) + behind)
    ensures |f.bid| <= TotalLength(f.segments)
  {
    var log := before + FrameLog(f) + behind;
    forall i | 0 <= i < |f.segments| ensures f.segments[i].len >= 1 {
      assert log[|before| + i] == FrameLog(f)[i];
    }
    hide SpacedLog, TotalLength;
    PartsBelowLength(f.segments);
  }

  lemma InvLog(c: RxConfig, s: RxSystem)
    requires Inv(c, s)
    ensures Shape(c, s.rx) && SpacedLog(Log(s.rx)) && Progress(c, s.rx) && FramesDistinct(s.rx)
  {
    hide Accepted, Delivered, Arrived, Operations, Partition, Owned, Progress, InputOk, Log, SpacedLog, FramesDistinct;
  }

  /** The partial frame holds fewer buffers than its payload has bytes. */
  lemma PartialSize(c: RxConfig, s: RxSystem)
    requires Inv(c, s)
    ensures |s.rx.frame.bid| <= TotalLength(s.rx.frame.segments)
    ensures s.rx.frame.bid == [] || |s.rx.frame.bid| < c.mtu
  {
    InvLog(c, s);
    hide Inv, SpacedLog, FrameLog, OutLog, FramesDistinct, SizeOf, MagicValid;
    assert Log(s.rx) == OutLog(s.rx.output) + FrameLog(s.rx.frame) + [];
    hide Log;
    LoggedFrame(c.pool, s.rx.frame, OutLog(s.rx.output), []);
  }

  lemma InvAcked(c: RxConfig, s: RxSystem)
    requires Inv(c, s)
    ensures s.acked <= |s.written|
  {
    hide Books, Accepted, Delivered, Arrived;
  }

  lemma FrontSize(c: RxConfig, s: RxSystem)
    requires Inv(c, s) && s.rx.output != []
    ensures |s.rx.output[0].bid| <= c.mtu
  {
    hide Inv, ParseInv, SpacedLog, FrameLog, OutLog, Log, FramesDistinct, Progress, Decode, Pending, FrameShape,
         Content;
    InvLog(c, s);
    InvParts(c, s);
    InvAcked(c, s);
    FrontOfLog(s.rx);
    var f := s.rx.output[0];
    assert FrameShape(c.pool, f);
    assert Log(s.rx) == [] + FrameLog(f) + (OutLog(s.rx.output[1..]) + FrameLog(s.rx.frame));
    LoggedFrame(c.pool, f, [], OutLog(s.rx.output[1..]) + FrameLog(s.rx.frame));
    ContentLength(c.pool, s.mem, f);
    DecodedSizes(c.mtu, s.handled);
    var ps := Packets(c, s.mem, s.rx.output);
    assert Decode(c.mtu, s.handled).packets[|s.written[..s.acked]|] == ps[0];
  }

  lemma ContentLength(p: Pool, mem: seq<byte>, f: OutputFrame)
    requires |mem| == p.Bytes() && FrameShape(p, f)
    ensures |Content(p, mem, f)| == TotalLength(f.segments)
  {
    ShapeInBounds(p, mem, f);
    GatherLength(mem, f.segments);
  }

  /** With at most one frame to write, the buffers in use are that frame's and the partial frame's. */
  lemma UsedBound(c: RxConfig, s: RxSystem)
    requires Inv(c, s) && |s.rx.output| <= 1
    ensures s.rx.used <= |s.rx.frame.bid| + if s.rx.output == [] then 0 else |s.rx.output[0].bid|
  {
    if s.rx.output == [] {
      PartialFrame(c, s);
    } else {
      InvLog(c, s);
      PartialFacts(c, s);
      hide Inv, Shape, Progress, SpacedLog, Distinct, HeldSet, Log, OutLog, FrameLog;
      var front, partial := s.rx.output[0].bid, s.rx.frame.bid;
      DistinctSize(front);
      DistinctSize(partial);
      OneFrameHeld(c, s.rx);
      SubsetSize(HeldSet(c, s.rx), BidSet(front) + BidSet(partial));
      UnionSize(BidSet(front), BidSet(partial));
    }
  }

  lemma UnionSize<T>(a: set<T>, b: set<T>)
    ensures |a + b| <= |a| + |b|
  {
    assert a + b == a + (b - a);
    SubsetSize(b - a, b);
  }

  lemma OneFrameHeld(c: RxConfig, rx: RxState)
    requires |rx.output| == 1 && rx.input == []
    ensures HeldSet(c, rx) <= BidSet(rx.output[0].bid) + BidSet(rx.frame.bid)
  {
    FrontOfLog(rx);
    hide Occurrences, InInput, OutLog, Log;
    NoOutLog();
    assert rx.output[1..] == [];
    forall b | b in HeldSet(c, rx) ensures b in BidSet(rx.output[0].bid) + BidSet(rx.frame.bid) {
      NotInInput(rx, b);
      OccurrencesNone(Log(rx), b);
      var i :| 0 <= i < |Log(rx)| && Log(rx)[i].bid == b;
      assert Log(rx) == FrameLog(rx.output[0]) + FrameLog(rx.frame);
    }
  }

  // --- When the kernel has no buffer left -------------------------------------------------------

  /** The first `n` bytes of the stream hold more packets than were written by then, unless they break off. */
  predicate Behind(mtu: nat, arrived: seq<byte>, n: nat, acked: nat) {
    n <= |arrived| ==>
      var d := Decode(mtu, arrived[..n]);
      d.ending.Broken? || |d.packets| > acked
  }

  lemma WritesQueued(c: RxConfig, s: RxSystem)
    requires Inv(c, s)
    ensures CountOf(WRITE, s.cq) <= 1 && (CountOf(WRITE, s.cq) == 1 ==> s.rx.output != [])
  {
    InvOperations(c, s);
    hide Inv, Flow;
  }

  /** What the queued completions carry continues the undecoded rest of what was handled. */
  lemma ArrivedDecodes(c: RxConfig, s: RxSystem)
    requires Inv(c, s)
    ensures Shape(c, s.rx) && |s.mem| == c.pool.Bytes() && s.rx.headerProgress <= WIRE_SIZE
    ensures var e := Decode(c.mtu, Pending(c, s.mem, s.rx) + CarriedBytes(c, s.mem, s.cq));
      && |Decode(c.mtu, s.arrived).packets| == s.acked + |s.rx.output| + |e.packets|
      && Decode(c.mtu, s.arrived).ending == e.ending
  {
    InvParts(c, s);
    InvArrived(c, s);
    InvAcked(c, s);
    hide Inv, ParseInv, Decode, Pending, Content, FrameShape, CarriedBytes;
    DecodeResumes(c.mtu, s.handled, CarriedBytes(c, s.mem, s.cq));
  }

  /** If no whole frame is on its way behind the write under way, few buffers are held or carried. */
  lemma NothingAhead(c: RxConfig, s: RxSystem)
    requires Inv(c, s) && Decode(c.mtu, s.arrived).ending.Waiting?
    requires |Decode(c.mtu, s.arrived).packets| <= s.acked + CountOf(WRITE, s.cq)
    ensures |s.rx.output| <= 1
    ensures |s.rx.frame.bid| + |CarriedBids(c, s.cq)| <= c.mtu + 15
  {
    hide Inv, Decode, Pending, CarriedBytes, CarriedBids, CountOf, CarriedLength;
    WritesQueued(c, s);
    ArrivedDecodes(c, s);
    var rest := Pending(c, s.mem, s.rx) + CarriedBytes(c, s.mem, s.cq);
    var e := Decode(c.mtu, rest);
    DecodeNothing(c.mtu, rest);
    DecodedSizes(c.mtu, rest);
    CarriedSizes(c, s.mem, s.cq);
    PartialPending(c, s);
  }

  /** A stream that decodes to nothing is all rest. */
  lemma DecodeNothing(mtu: nat, s: seq<byte>)
    requires Decode(mtu, s).packets == [] && Decode(mtu, s).ending.Waiting?
    ensures Decode(mtu, s).ending.rest == s
  {
    hide CrcField, HeaderOk, SizeOf, CrcOf, HeaderError;
  }

  lemma PartialPending(c: RxConfig, s: RxSystem)
    requires Inv(c, s)
    ensures Shape(c, s.rx) && |s.mem| == c.pool.Bytes() && s.rx.headerProgress <= WIRE_SIZE
    ensures |s.rx.frame.bid| <= |Pending(c, s.mem, s.rx)|
  {
    InvMemory(c, s);
    InvLog(c, s);
    PartialSize(c, s);
    hide Inv, SpacedLog, Log, FramesDistinct, SizeOf, HeaderOk, FrameShape;
    ContentLength(c.pool, s.mem, s.rx.frame);
  }

  /**
   * In a pool of at least 2 * mtu + 16 buffers, running out of buffers means that a whole frame is waiting, or on
   * its way, behind the write that is under way.
   */
  lemma OutOfBuffersBehind(c: RxConfig, s: RxSystem)
    requires Inv(c, s) && s.rx.avail == multiset{} && c.pool.count >= 2 * c.mtu + 16
    ensures Behind(c.mtu, s.arrived, |s.arrived|, s.acked + CountOf(WRITE, s.cq))
  {
    hide Inv, Decode, CountOf, CarriedBids;
    assert s.arrived[..|s.arrived|] == s.arrived;
    if !Behind(c.mtu, s.arrived, |s.arrived|, s.acked + CountOf(WRITE, s.cq)) {
      NothingAhead(c, s);
      BuffersAddUp(c, s);
      UsedBound(c, s);
      if s.rx.output != [] {
        FrontSize(c, s);
      }
    }
  }

  // --- Every cooldown to come -------------------------------------------------------------------

  /**
   * Whenever a queued completion reports that no buffer was left, the stream handed over by then is ahead of the
   * writes handled by then; `n` bytes and `acked` writes have been handled now.
   */
  predicate Backlog(c: RxConfig, arrived: seq<byte>, n: nat, acked: nat, cq: seq<Cqe>)
    decreases |cq|
  {
    if cq == [] then true
    else
      && (cq[0] == NO_BUFFERS_CQE ==> Behind(c.mtu, arrived, n, acked))
      && Backlog(c, arrived, n + LengthOf(c, cq[0]), if cq[0].op == WRITE then acked + 1 else acked, cq[1..])
  }

  lemma {:induction false} BacklogSnoc(c: RxConfig, arrived: seq<byte>, n: nat, acked: nat, cq: seq<Cqe>, cqe: Cqe)
    requires Backlog(c, arrived, n, acked, cq)
    requires cqe == NO_BUFFERS_CQE ==>
               Behind(c.mtu, arrived, n + CarriedLength(c, cq), acked + CountOf(WRITE, cq))
    ensures Backlog(c, arrived, n, acked, cq + [cqe])
    decreases |cq|
  {
    hide Behind, CarriesBytes;
    if cq == [] {
      assert cq + [cqe] == [cqe];
      assert [cqe][1..] == [];
    } else {
      assert (cq + [cqe])[1..] == cq[1..] + [cqe];
      BacklogSnoc(c, arrived, n + LengthOf(c, cq[0]), if cq[0].op == WRITE then acked + 1 else acked, cq[1..], cqe);
    }
  }

  lemma BehindGrows(mtu: nat, arrived: seq<byte>, arrived': seq<byte>, n: nat, acked: nat)
    requires Behind(mtu, arrived, n, acked) && arrived <= arrived' && n <= |arrived|
    ensures Behind(mtu, arrived', n, acked)
  {
    hide Decode;
    assert arrived'[..n] == arrived[..n];
  }

  /** Bytes that arrive later change nothing for the completions already queued. */
  lemma {:induction false} BacklogGrows(c: RxConfig, arrived: seq<byte>, arrived': seq<byte>, n: nat, acked: nat,
                                       cq: seq<Cqe>)
    requires Backlog(c, arrived, n, acked, cq) && arrived <= arrived' && n + CarriedLength(c, cq) <= |arrived|
    ensures Backlog(c, arrived', n, acked, cq)
    decreases |cq|
  {
    hide Behind, CarriesBytes;
    if cq != [] {
      if cq[0] == NO_BUFFERS_CQE {
        BehindGrows(c.mtu, arrived, arrived', n, acked);
      }
      BacklogGrows(c, arrived, arrived', n + LengthOf(c, cq[0]), if cq[0].op == WRITE then acked + 1 else acked,
                   cq[1..]);
    }
  }

  /** A receiver cooling down has a frame to write, and in every cooldown to come it will. */
  predicate Busy(c: RxConfig, s: RxSystem) {
    (s.rx.coolingDown ==> s.rx.output != []) && Backlog(c, s.arrived, |s.handled|, s.acked, s.cq)
  }

  lemma ArrivedLength(c: RxConfig, s: RxSystem)
    requires Inv(c, s)
    ensures |s.arrived| == |s.handled| + CarriedLength(c, s.cq)
    ensures s.arrived[..|s.handled|] == s.handled
  {
    InvArrived(c, s);
    CarriedSizes(c, s.mem, s.cq);
    hide Inv, CarriedBytes, CarriedLength, CarriedBids;
  }

  /** A step of the kernel posts one completion, if any, and stream bytes only with the completion that carries them. */
  lemma KernelPosts(c: RxConfig, s: RxSystem, e: Event, t: RxSystem) returns (cqe: Cqe)
    requires ReceiveSafety.StepTo(c, s, e, t) && !e.Handle?
    ensures t.rx.output == s.rx.output && t.rx.coolingDown == s.rx.coolingDown
    ensures t.handled == s.handled && t.acked == s.acked && s.arrived <= t.arrived
    ensures t.cq == s.cq || t.cq == s.cq + [cqe]
    ensures cqe == NO_BUFFERS_CQE ==> t.arrived == s.arrived && (s.rx.avail == multiset{} || t.cq == s.cq)
  {
    hide Fill, OnlyAvailChanges, HandleNext, Shape, Content;
    cqe := if t.cq == s.cq then NO_BUFFERS_CQE else t.cq[|t.cq| - 1];
  }

  lemma KernelBusy(c: RxConfig, s: RxSystem, e: Event, t: RxSystem)
    requires Inv(c, s) && Busy(c, s) && ReceiveSafety.StepTo(c, s, e, t) && !e.Handle?
    requires c.pool.count >= 2 * c.mtu + 16
    ensures Busy(c, t)
  {
    hide Inv, ReceiveSafety.StepTo, Behind, Backlog, CarriedLength;
    ArrivedLength(c, s);
    var cqe := KernelPosts(c, s, e, t);
    BacklogGrows(c, s.arrived, t.arrived, |s.handled|, s.acked, s.cq);
    if t.cq != s.cq {
      if cqe == NO_BUFFERS_CQE {
        OutOfBuffersBehind(c, s);
      }
      BacklogSnoc(c, t.arrived, |t.handled|, t.acked, s.cq, cqe);
    }
  }

  lemma HandledRecord(c: RxConfig, s: RxSystem, t: RxSystem)
    requires s.cq != [] && |s.mem| == c.pool.Bytes()
    requires HandledTo(c, s, t) && t.failure.None?
    ensures t.cq == s.cq[1..] && t.arrived == s.arrived && |t.handled| == |s.handled| + LengthOf(c, s.cq[0])
    ensures t.acked == if s.cq[0].op == WRITE then s.acked + 1 else s.acked
  {
    hide HandleCqe, Shape, Pool.Window;
    var r := HandleCqe(c, s.mem, s.rx, s.cq[0]).1;
    assert r.Done? || r.Failed?;
  }

  /** What is waiting is what was accepted beyond the writes handled. */
  lemma OutputLeft(c: RxConfig, s: RxSystem)
    requires Inv(c, s)
    ensures |Decode(c.mtu, s.handled).packets| == s.acked + |s.rx.output| && Decode(c.mtu, s.handled).ending.Waiting?
  {
    InvParts(c, s);
    InvAcked(c, s);
    hide Inv, ParseInv, Decode, Content, FrameShape, Pending;
  }

  lemma HandleBusy(c: RxConfig, s: RxSystem, t: RxSystem)
    requires s.cq != [] && |s.mem| == c.pool.Bytes() && c.pool.count >= 2 * c.mtu + 16
    requires Inv(c, s) && Busy(c, s) && HandledTo(c, s, t) && t.failure.None?
    ensures Busy(c, t)
  {
    hide Inv, HandledTo, CarriesBytes, Decode, CqeOk, Expected;
    HandledRecord(c, s, t);
    FrontOk(c, s);
    HandleKeeps(c, s, t);
    hide Backlog;
    if s.cq[0].op == WRITE {
      WriteCools(c, s, t);
      PartialFrame(c, t);
      PartialSize(c, t);
    } else {
      RecvBusy(c, s, t);
    }
  }

  lemma RecvBusy(c: RxConfig, s: RxSystem, t: RxSystem)
    requires s.cq != [] && |s.mem| == c.pool.Bytes() && s.cq[0].op == RECV
    requires Inv(c, s) && Busy(c, s) && HandledTo(c, s, t) && t.failure.None?
    ensures t.rx.coolingDown ==> t.rx.output != []
  {
    hide Inv, HandledTo, Decode;
    if CarriesBytes(c, s.cq[0]) {
      hide CarriesBytes;
      BytesEndNoCooldown(c, s, t);
    } else {
      FrontOk(c, s);
      InvOperations(c, s);
      ArrivedLength(c, s);
      OutputLeft(c, s);
      hide CqeOk, CarriesBytes, Flow;
      RecvEndNext(c, s, t);
    }
  }

  /** A full buffer is only ever handled by a receiver that is not cooling down, and leaves it so. */
  lemma BytesEndNoCooldown(c: RxConfig, s: RxSystem, t: RxSystem)
    requires s.cq != [] && |s.mem| == c.pool.Bytes() && s.cq[0].op == RECV
    requires Inv(c, s) && HandledTo(c, s, t) && t.failure.None? && CarriesBytes(c, s.cq[0])
    ensures !t.rx.coolingDown
  {
    hide Inv, HandledTo, Parse, HandleNext, Shape, BytesOf, CarriesBytes, KernelTook;
    CarriesPositive(c, s.cq[0]);
    InvMemory(c, s);
    InvOperations(c, s);
    FlowCounts(RECV, s.cq, s.rx.recvOps, s.rx.coolingDown);
    LoadedReady(c, s);
    var s1 := Loaded(s.rx, s.cq[0].bid.value, s.cq[0].result);
    var parsed := Parse(c, s.mem, s1);
    RecvNext(c, s, t, parsed.0, parsed.1);
    ParseUntouched(c, s.mem, s1);
  }

  lemma {:induction false} RunBusy(c: RxConfig, s: RxSystem, events: seq<Event>, t: RxSystem)
    requires Inv(c, s) && Busy(c, s) && c.pool.count >= 2 * c.mtu + 16 && Run(c, s, events, t) && t.failure.None?
    ensures Inv(c, t) && Busy(c, t)
    decreases |events|
  {
    hide Inv, Busy, Enabled, After, HandledTo;
    if events != [] {
      var s1 := After(c, s, events[0]);
      assert ReceiveSafety.StepTo(c, s, events[0], s1);
      InvMemory(c, s);
      EventKeeps(c, s, events[0], s1);
      if s1.failure.Some? {
        FailedStops(c, s1, events[1..], t);
      } else {
        if events[0].Handle? {
          HandleStep(c, s, s1);
          HandleBusy(c, s, s1);
        } else {
          KernelBusy(c, s, events[0], s1);
        }
        RunBusy(c, s1, events[1..], t);
      }
    }
  }

  /**
   * With at least 2 * mtu + 16 buffers the receiver never stalls: in every reachable state an operation is
   * outstanding or a completion queued, and a receiver that is cooling down meets the condition under which
   * `CooldownEnds` says that it receives again.
   */
  lemma ReceiverNeverAsleep(c: RxConfig, mem: seq<byte>, events: seq<Event>, t: RxSystem)
    requires |mem| == c.pool.Bytes() && Run(c, Start(c, mem), events, t) && t.failure.None?
    requires c.pool.count >= 2 * c.mtu + 16
    ensures !Asleep(t)
    ensures t.rx.coolingDown ==> t.rx.output != [] && |t.rx.frame.bid| < c.pool.count / 2
  {
    StartInv(c, mem);
    assert Busy(c, Start(c, mem));
    hide Inv, Run, Start;
    RunBusy(c, Start(c, mem), events, t);
    AsleepIff(c, t);
    PartialSize(c, t);
  }
}
