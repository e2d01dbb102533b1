/** Handling a completion keeps the invariant, so every reachable state has it. */
module ReceiveSafety {
  import opened ByteStreams
  import opened Outcomes
  import opened Completions
  import opened CompletionQueues
  import opened BufferGroups
  import opened KernelMemory
  import opened FrameHeaders
  import opened FrameCodec
  import opened ReceiverSpec
  import opened ReceiverInvariant
  import opened ReceiverDecoding
  import opened ReceiveSystem
  import opened ReceiveRuns

  // --- A buffer of stream bytes -----------------------------------------------------------------

  /** The receiver with a full buffer in its input queue. */
  function Loaded(rx: RxState, bid: nat, n: nat): RxState {
    rx.(used := rx.used + 1, input := rx.input + [InputBuffer(bid, n, 0)])
  }

  lemma LoadedOwned(c: RxConfig, rx: RxState, bid: nat, n: nat)
    requires Owned(c, rx) && rx.input == [] && bid < c.pool.count && HeldCount(rx, bid) == 0 && rx.avail[bid] == 0
    ensures Owned(c, Loaded(rx, bid, n))
    ensures forall b: nat :: HeldCount(Loaded(rx, bid, n), b) == HeldCount(rx, b) + if b == bid then 1 else 0
  {
    var s := Loaded(rx, bid, n);
    assert Log(s) == Log(rx);
    hide Log, Occurrences;
    assert s.input[0].bid == bid;
    forall b: nat ensures InInput(s.input, b) == (b == bid) && !InInput(rx.input, b) {}
    hide InInput;
    assert HeldSet(c, s) == HeldSet(c, rx) + {bid};
  }

  lemma LoadedKeeps(c: RxConfig, rx: RxState, bid: nat, n: nat)
    requires ParseInv(c, rx) && rx.input == [] && bid < c.pool.count && HeldCount(rx, bid) == 0 && rx.avail[bid] == 0
    requires 1 <= n <= c.pool.size
    ensures ParseInv(c, Loaded(rx, bid, n))
    ensures forall b: nat :: HeldCount(Loaded(rx, bid, n), b) == HeldCount(rx, b) + if b == bid then 1 else 0
  {
    hide Owned, SpacedLog, FrameShape, Distinct, HeaderOk;
    LoadedOwned(c, rx, bid, n);
    var s := Loaded(rx, bid, n);
    assert Log(s) == Log(rx);
    OccurrencesNone(Log(rx), bid);
    hide Log, Occurrences;
  }

  /** Parsing leaves the flags and operations alone and only appends to the output queue. */
  predicate Untouched(s: RxState, s': RxState) {
    && s'.coolingDown == s.coolingDown && s'.writeInProgress == s.writeInProgress
    && s'.recvOps == s.recvOps && s'.writeOps == s.writeOps
    && s.output <= s'.output
  }

  lemma HeaderUntouched(c: RxConfig, mem: seq<byte>, s: RxState)
    requires CanTake(c, mem, s)
    ensures Untouched(s, TakeHeader(c, mem, s).0)
  {
    hide MagicValid, SizeOf, FilledHeader, Shape, FrameShape;
  }

  lemma PayloadUntouched(c: RxConfig, mem: seq<byte>, s: RxState)
    requires CanTake(c, mem, s)
    ensures Untouched(s, TakePayload(c, mem, s).0)
  {
    hide SizeOf, CrcAgrees, Content;
  }

  lemma StepUntouched(c: RxConfig, mem: seq<byte>, s: RxState)
    requires Shape(c, s) && |mem| == c.pool.Bytes() && s.input != []
    ensures Untouched(s, ParseStep(c, mem, s).0)
  {
    hide TakeHeader, TakePayload, Shape;
    if s.input[0].offset < s.input[0].size {
      HeaderUntouched(c, mem, s);
      PayloadUntouched(c, mem, s);
    }
  }

  lemma {:induction false} ParseUntouched(c: RxConfig, mem: seq<byte>, s: RxState)
    requires Shape(c, s) && |mem| == c.pool.Bytes()
    ensures Untouched(s, Parse(c, mem, s).0)
    decreases Unread(s.input)
  {
    hide ParseStep, Shape;
    ParseUnfolds(c, mem, s);
    if s.input != [] {
      StepUntouched(c, mem, s);
      var next := ParseStep(c, mem, s);
      if next.1.Done? {
        StepConsumes(c, mem, s, next.0);
        ParseUntouched(c, mem, next.0);
      }
    }
  }

  /** Where parsing one more buffer of the stream leads. */
  lemma ParsedAccepted(c: RxConfig, mem: seq<byte>, rx: RxState, handled: seq<byte>, done: seq<Packet>,
                       bid: nat, n: nat, s': RxState, r: Outcome)
    requires Accepted(c, mem, rx, handled, done)
    requires ParseInv(c, rx) && ParseInv(c, Loaded(rx, bid, n)) && rx.input == []
    requires bid < c.pool.count && 1 <= n <= c.pool.size
    requires Parse(c, mem, Loaded(rx, bid, n)) == (s', r)
    ensures r.Done? ==> ParseInv(c, s') && s'.input == []
                        && Accepted(c, mem, s', handled + c.pool.Window(mem, bid, 0, n), done)
    ensures r.Failed? ==> Decode(c.mtu, handled + c.pool.Window(mem, bid, 0, n)).ending == Broken(r.error)
    ensures Decode(c.mtu, handled + c.pool.Window(mem, bid, 0, n)).ending.Broken? ==> r.Failed?
  {
    hide Parse, ParseInv, Decode, Packets, Pending, Pool.Window;
    var s := Loaded(rx, bid, n);
    var w := c.pool.Window(mem, bid, 0, n);
    ParseRefines(c, mem, s, s', r);
    if r.Done? {
      ParseInvReadable(c, mem, s');
    }
    LoadedSuffix(c, mem, rx, bid, n);
    hide Readable, Suffix;
    DecodeResumes(c.mtu, handled, w);
    Associative(done, Packets(c, mem, rx.output), Decode(c.mtu, Pending(c, mem, rx) + w).packets);
  }

  lemma LoadedSuffix(c: RxConfig, mem: seq<byte>, rx: RxState, bid: nat, n: nat)
    requires Readable(c, mem, rx) && Readable(c, mem, Loaded(rx, bid, n)) && rx.input == []
    requires bid < c.pool.count && n <= c.pool.size
    ensures Suffix(c, mem, Loaded(rx, bid, n)) == Pending(c, mem, rx) + c.pool.Window(mem, bid, 0, n)
    ensures Packets(c, mem, Loaded(rx, bid, n).output) == Packets(c, mem, rx.output)
  {
    hide Content, Pool.Window;
    var s := Loaded(rx, bid, n);
    assert s.input[1..] == [];
    assert Unparsed(c, mem, s.input) == c.pool.Window(mem, bid, 0, n) + [];
  }

  // --- Handling a receive -----------------------------------------------------------------------

  lemma FrontCarried(c: RxConfig, s: RxSystem)
    requires Inv(c, s) && s.cq != [] && CarriesBytes(c, s.cq[0])
    ensures s.rx.avail[s.cq[0].bid.value] == 0 && HeldCount(s.rx, s.cq[0].bid.value) == 0
  {
    hide ParseInv, Flow, Accepted, Delivered, HeldCount;
    assert Carried(c, s.cq, s.cq[0].bid.value) >= 1;
  }

  /** What handling a full buffer amounts to. */
  lemma RecvIs(c: RxConfig, mem: seq<byte>, rx: RxState, cqe: Cqe)
    requires Shape(c, rx) && |mem| == c.pool.Bytes() && CarriesBytes(c, cqe)
    ensures var parsed := Parse(c, mem, Loaded(rx, cqe.bid.value, cqe.result));
      HandleCqe(c, mem, rx, cqe) == if parsed.1.Failed? then parsed else (RecvDone(parsed.0, cqe.more), Done)
  {
    hide Parse, FrameShape, RecvDone;
  }

  lemma RecvOperations(rx: RxState, s': RxState, cq: seq<Cqe>)
    requires Operations(rx, cq) && Untouched(rx, s') && cq != [] && cq[0].op == RECV && cq[0].result > 0
    ensures Operations(RecvDone(s', cq[0].more), cq[1..])
  {
  }

  lemma RecvPartition(c: RxConfig, rx: RxState, s': RxState, cq: seq<Cqe>, rx': RxState)
    requires Partition(c, rx, cq) && cq != [] && CarriesBytes(c, cq[0])
    requires forall b: nat | b < c.pool.count ::
               s'.avail[b] + HeldCount(s', b) == rx.avail[b] + HeldCount(rx, b) + if b == cq[0].bid.value then 1 else 0
    requires rx'.avail == s'.avail && forall b: nat :: HeldCount(rx', b) == HeldCount(s', b)
    ensures Partition(c, rx', cq[1..])
  {
    hide HeldCount, CarriesBytes;
  }

  lemma RecvDelivered(c: RxConfig, s: RxSystem, rx: RxState)
    requires Delivered(c, s) && Operations(s.rx, s.cq) && s.cq != [] && s.cq[0].op == RECV
    requires Shape(c, rx) && s.rx.output <= rx.output
    ensures Delivered(c, s.(rx := rx, cq := s.cq[1..]))
  {
    hide Content, FrameShape, TotalLength, Flow;
    WritesSnoc(s.cq, NO_BUFFERS_CQE, FrontLength(s.rx));
    WritesSnoc(s.cq[1..], NO_BUFFERS_CQE, FrontLength(rx));
    if s.rx.output != [] {
      assert rx.output[0] == s.rx.output[0];
    }
  }

  lemma RecvDoneTook(s: RxState, more: bool)
    ensures KernelTook(s, RecvDone(s, more)) && RecvDone(s, more).avail == s.avail
    ensures RecvDone(s, more).output == s.output
  {
  }

  /** The books after a full buffer is parsed. */
  lemma RecvBooks(c: RxConfig, mem: seq<byte>, rx: RxState, cq: seq<Cqe>, s': RxState)
    requires Books(c, rx, cq) && cq != [] && CarriesBytes(c, cq[0]) && |mem| == c.pool.Bytes()
    requires ParseInv(c, Loaded(rx, cq[0].bid.value, cq[0].result))
    requires forall b: nat :: HeldCount(Loaded(rx, cq[0].bid.value, cq[0].result), b)
                           == HeldCount(rx, b) + if b == cq[0].bid.value then 1 else 0
    requires Shape(c, Loaded(rx, cq[0].bid.value, cq[0].result))
    requires Parse(c, mem, Loaded(rx, cq[0].bid.value, cq[0].result)) == (s', Done)
    ensures Books(c, RecvDone(s', cq[0].more), cq[1..])
  {
    CarriesPositive(c, cq[0]);
    hide ParseInv, Shape, HeldCount, CarriesBytes, Parse, CqeOk;
    var s1 := Loaded(rx, cq[0].bid.value, cq[0].result);
    ParseKeeps(c, mem, s1, s');
    ParseUntouched(c, mem, s1);
    RecvDoneTook(s', cq[0].more);
    TakenKeeps(c, s', RecvDone(s', cq[0].more));
    hide KernelTook;
    RecvPartition(c, rx, s', cq, RecvDone(s', cq[0].more));
    hide Partition;
    assert Untouched(rx, s');
    RecvOperations(rx, s', cq);
    hide Operations, RecvDone;
  }

  lemma CarriesPositive(c: RxConfig, cqe: Cqe)
    requires CarriesBytes(c, cqe)
    ensures cqe.op == RECV && cqe.result > 0 && cqe.bid.Some? && cqe.bid.value < c.pool.count
    ensures cqe.result <= c.pool.size
  {
  }

  /** What handling the oldest completion reports, told from what the kernel did and the stream so far. */
  function Expected(c: RxConfig, s: RxSystem): Option<ErrorCode>
    requires |s.mem| == c.pool.Bytes() && s.cq != []
  {
    var cqe := s.cq[0];
    if cqe.op == WRITE then
      if cqe.result < 0 then Some(TunWriteFailed)
      else if cqe.result != FrontLength(s.rx) then Some(TunPartialWrite)
      else None
    else if cqe == NO_BUFFERS_CQE then None
    else if cqe.result < 0 then Some(RecvFailed)
    else if cqe.result == 0 then Some(PeerClosed)
    else match Decode(c.mtu, s.handled + BytesOf(c, s.mem, cqe)).ending
      case Broken(e) => Some(e)
      case Waiting(_) => None
  }

  lemma ArrivedNext(c: RxConfig, s: RxSystem)
    requires Arrived(c, s) && Enabled(c, s, Handle)
    ensures Arrived(c, HandleNext(c, s))
  {
    hide HandleCqe, BytesOf, Shape;
    Associative(s.handled, BytesOf(c, s.mem, s.cq[0]), CarriedBytes(c, s.mem, s.cq[1..]));
  }

  lemma InvParts(c: RxConfig, s: RxSystem)
    requires Inv(c, s)
    ensures ParseInv(c, s.rx) && s.rx.input == [] && Accepted(c, s.mem, s.rx, s.handled, s.written[..s.acked])
  {
    hide ParseInv, Accepted, Delivered, Partition, Operations, Arrived, QueueOk;
  }

  lemma ExpectedRecv(c: RxConfig, s: RxSystem)
    requires |s.mem| == c.pool.Bytes() && s.cq != [] && CarriesBytes(c, s.cq[0])
    ensures BytesOf(c, s.mem, s.cq[0]) == c.pool.Window(s.mem, s.cq[0].bid.value, 0, s.cq[0].result)
    ensures var d := Decode(c.mtu, s.handled + BytesOf(c, s.mem, s.cq[0]));
      Expected(c, s) == if d.ending.Broken? then Some(d.ending.error) else None
  {
    hide Decode, Pool.Window, FrontLength;
  }

  lemma RecvAccepted(c: RxConfig, s: RxSystem, s': RxState, r: Outcome, cqe: Cqe)
    requires |s.mem| == c.pool.Bytes()
    requires Inv(c, s) && s.cq != [] && cqe == s.cq[0] && CarriesBytes(c, cqe)
    requires ParseInv(c, Loaded(s.rx, cqe.bid.value, cqe.result))
    requires Parse(c, s.mem, Loaded(s.rx, cqe.bid.value, cqe.result)) == (s', r)
    ensures r.Done? ==>
              Accepted(c, s.mem, RecvDone(s', cqe.more), s.handled + BytesOf(c, s.mem, cqe), s.written[..s.acked])
    ensures Expected(c, s) == if r.Done? then None else Some(r.error)
  {
    CarriesPositive(c, cqe);
    hide ParseInv, Parse, Decode, Books, Arrived, Delivered, Accepted, CarriesBytes, BytesOf, Expected, RecvDone,
         Pool.Window, Pool.Bytes;
    InvParts(c, s);
    hide Inv;
    ExpectedRecv(c, s);
    ParsedAccepted(c, s.mem, s.rx, s.handled, s.written[..s.acked], cqe.bid.value, cqe.result, s', r);
    if r.Done? {
      DoneAccepted(c, s.mem, s', cqe.more, s.handled + BytesOf(c, s.mem, cqe), s.written[..s.acked]);
      AcceptedWaits(c, s.mem, s', s.handled + BytesOf(c, s.mem, cqe), s.written[..s.acked]);
    }
  }

  lemma AcceptedWaits(c: RxConfig, mem: seq<byte>, rx: RxState, handled: seq<byte>, done: seq<Packet>)
    requires Accepted(c, mem, rx, handled, done)
    ensures Decode(c.mtu, handled).ending.Waiting?
  {
    hide Decode, Packets, Pending;
  }

  lemma DoneAccepted(c: RxConfig, mem: seq<byte>, s: RxState, more: bool, handled: seq<byte>, done: seq<Packet>)
    requires Accepted(c, mem, s, handled, done)
    ensures Accepted(c, mem, RecvDone(s, more), handled, done)
  {
    hide Decode, Content, FrameShape;
  }

  ghost predicate HandledTo(c: RxConfig, s: RxSystem, t: RxSystem) {
    Enabled(c, s, Handle) && HandleNext(c, s) == t
  }

  /** What handling a full buffer amounts to, for the whole system. */
  lemma RecvNext(c: RxConfig, s: RxSystem, t: RxSystem, s': RxState, r: Outcome)
    requires HandledTo(c, s, t) && CarriesBytes(c, s.cq[0])
    requires Shape(c, Loaded(s.rx, s.cq[0].bid.value, s.cq[0].result))
    requires Parse(c, s.mem, Loaded(s.rx, s.cq[0].bid.value, s.cq[0].result)) == (s', r)
    ensures t == s.(rx := if r.Failed? then s' else RecvDone(s', s.cq[0].more), cq := s.cq[1..],
                    handled := s.handled + BytesOf(c, s.mem, s.cq[0]),
                    failure := if r.Failed? then Some(r.error) else None)
  {
    hide Parse, RecvDone, HandleCqe, Shape, BytesOf;
    RecvIs(c, s.mem, s.rx, s.cq[0]);
  }

  lemma LoadedReady(c: RxConfig, s: RxSystem)
    requires Inv(c, s) && s.cq != [] && CarriesBytes(c, s.cq[0])
    ensures var s1 := Loaded(s.rx, s.cq[0].bid.value, s.cq[0].result);
      && ParseInv(c, s1) && Shape(c, s1)
      && forall b: nat :: HeldCount(s1, b) == HeldCount(s.rx, b) + if b == s.cq[0].bid.value then 1 else 0
  {
    FrontCarried(c, s);
    var cqe := s.cq[0];
    assert ParseInv(c, s.rx) && s.rx.input == [];
    hide Inv, HeldCount;
    LoadedKeeps(c, s.rx, cqe.bid.value, cqe.result);
  }

  lemma RecvBytesKeeps(c: RxConfig, s: RxSystem, t: RxSystem)
    requires s.cq != [] && |s.mem| == c.pool.Bytes()
    requires Inv(c, s) && HandledTo(c, s, t) && CarriesBytes(c, s.cq[0])
    ensures t.failure == Expected(c, s)
    ensures t.failure.None? ==> Inv(c, t)
  {
    hide ParseInv, Shape, Parse, CarriesBytes, HeldCount, HandleCqe, Enabled, RecvDone, Partition, Operations, Accepted,
         Delivered, QueueOk, Expected, BytesOf, CarriedBytes, HandleNext;
    var cqe := s.cq[0];
    CarriesPositive(c, cqe);
    LoadedReady(c, s);
    var s1 := Loaded(s.rx, cqe.bid.value, cqe.result);
    var parsed := Parse(c, s.mem, s1);
    RecvNext(c, s, t, parsed.0, parsed.1);
    RecvAccepted(c, s, parsed.0, parsed.1, cqe);
    if parsed.1.Done? {
      HandledArrived(c, s, t);
      hide Arrived;
      RecvBooks(c, s.mem, s.rx, s.cq, parsed.0);
      ParseUntouched(c, s.mem, s1);
      RecvDoneTook(parsed.0, cqe.more);
      BooksShape(c, t.rx, t.cq);
      RecvDelivered(c, s, t.rx);
      DeliveredAlone(c, s.(rx := t.rx, cq := t.cq), t);
    }
  }

  lemma HandledArrived(c: RxConfig, s: RxSystem, t: RxSystem)
    requires Arrived(c, s) && HandledTo(c, s, t)
    ensures Arrived(c, t)
  {
    hide HandleCqe, BytesOf, Shape, CarriedBytes;
    ArrivedNext(c, s);
  }

  lemma BooksShape(c: RxConfig, rx: RxState, cq: seq<Cqe>)
    requires Books(c, rx, cq)
    ensures Shape(c, rx)
  {
  }

  // --- Handling the end of a receive ------------------------------------------------------------

  lemma RecvEndNext(c: RxConfig, s: RxSystem, t: RxSystem)
    requires HandledTo(c, s, t) && CqeOk(c, s.cq[0]) && s.cq[0].op == RECV && !CarriesBytes(c, s.cq[0])
    requires s.rx.writeInProgress <==> s.rx.output != []
    ensures t.failure == Expected(c, s)
    ensures t.failure.None? ==>
              s.cq[0] == NO_BUFFERS_CQE && t == s.(rx := s.rx.(coolingDown := true), cq := s.cq[1..])
  {
    hide FrameShape, Decode;
    assert s.handled + [] == s.handled;
  }

  lemma RecvEndBooks(c: RxConfig, rx: RxState, cq: seq<Cqe>)
    requires Books(c, rx, cq) && cq != [] && cq[0] == NO_BUFFERS_CQE
    ensures Books(c, rx.(coolingDown := true), cq[1..])
  {
    hide ParseInv, HeldCount;
    AsTaken(rx, rx.(coolingDown := true));
    TakenKeeps(c, rx, rx.(coolingDown := true));
    hide KernelTook;
  }

  lemma TookAccepted(c: RxConfig, mem: seq<byte>, rx: RxState, rx': RxState, handled: seq<byte>, done: seq<Packet>)
    requires Accepted(c, mem, rx, handled, done) && KernelTook(rx, rx')
    ensures Accepted(c, mem, rx', handled, done)
  {
    hide Decode, Content, FrameShape;
  }

  lemma RecvEndHandled(c: RxConfig, s: RxSystem, t: RxSystem)
    requires s.cq != [] && |s.mem| == c.pool.Bytes()
    requires Inv(c, s) && HandledTo(c, s, t) && s.cq[0].op == RECV && !CarriesBytes(c, s.cq[0])
    ensures t.failure == Expected(c, s)
    ensures t.failure.None? ==> Inv(c, t)
  {
    hide ParseInv, Partition, Flow, CarriesBytes, Arrived, Accepted, Delivered, HandleNext, CqeOk, Expected,
         HandleCqe, FrontLength;
    assert CqeOk(c, s.cq[0]);
    RecvEndNext(c, s, t);
    if t.failure.None? {
      HandledArrived(c, s, t);
      hide HandledTo;
      RecvEndBooks(c, s.rx, s.cq);
      BooksShape(c, t.rx, t.cq);
      hide Books, Operations;
      AsTaken(s.rx, t.rx);
      TookAccepted(c, s.mem, s.rx, t.rx, s.handled, s.written[..s.acked]);
      InvOperations(c, s);
      RecvDelivered(c, s, t.rx);
    }
  }

  lemma InvOperations(c: RxConfig, s: RxSystem)
    requires Inv(c, s)
    ensures Operations(s.rx, s.cq)
  {
    hide ParseInv, Accepted, Delivered, Partition, Operations, Arrived, QueueOk;
  }

  // --- Handling a write -------------------------------------------------------------------------

  /** Handling the completion of a write that wrote the whole front frame. */
  lemma WriteNext(c: RxConfig, s: RxSystem, t: RxSystem)
    requires HandledTo(c, s, t) && s.cq[0].op == WRITE && s.rx.output != []
    requires forall i | 0 <= i < |s.rx.output[0].bid| :: s.rx.output[0].bid[i] < |s.rx.refs|
    requires ReleaseAll(s.rx.(writeInProgress := false), s.rx.output[0].bid).1 == Done
    ensures t.failure == Expected(c, s)
    ensures t.failure.None? ==>
              && s.cq[0].result == TotalLength(s.rx.output[0].segments)
              && t == s.(rx := WriteDone(c, ReleaseAll(s.rx.(writeInProgress := false), s.rx.output[0].bid).0),
                         cq := s.cq[1..], acked := s.acked + 1)
  {
    hide ReleaseAll, WriteDone, FrameShape, TotalLength;
    assert s.handled + [] == s.handled;
  }

  lemma WriteDoneTook(c: RxConfig, s: RxState)
    requires s.output != []
    ensures var popped := s.(output := s.output[1..]);
      KernelTook(popped, WriteDone(c, s)) && WriteDone(c, s).avail == s.avail
  {
  }

  lemma WriteDoneOperations(c: RxConfig, rx: RxState, s: RxState, cq: seq<Cqe>)
    requires Operations(rx, cq) && cq != [] && cq[0].op == WRITE && rx.output != []
    requires s.output == rx.output && s.coolingDown == rx.coolingDown && !s.writeInProgress
    requires s.recvOps == rx.recvOps && s.writeOps == rx.writeOps
    ensures Operations(WriteDone(c, s), cq[1..])
    ensures CountOf(WRITE, cq[1..]) == 0
  {
    if rx.coolingDown {
      FlowRearm(RECV, cq[1..], rx.recvOps);
    }
  }

  lemma PoppedIs(s: RxState)
    requires s.output != [] && forall i | 0 <= i < |s.output[0].bid| :: s.output[0].bid[i] < |s.refs|
    ensures var r := ReleaseAll(s, s.output[0].bid).0;
      && Popped(s) == r.(output := r.output[1..]) && r.output == s.output && r.coolingDown == s.coolingDown
      && r.writeInProgress == s.writeInProgress && r.recvOps == s.recvOps && r.writeOps == s.writeOps
      && Popped(s) == s.(refs := Popped(s).refs, avail := Popped(s).avail, used := Popped(s).used,
                         output := s.output[1..])
  {
    hide ReleaseAll;
  }

  lemma WriteBooks(c: RxConfig, rx: RxState, cq: seq<Cqe>)
    requires Books(c, rx, cq) && cq != [] && cq[0].op == WRITE && rx.output != []
    ensures forall i | 0 <= i < |rx.output[0].bid| :: rx.output[0].bid[i] < |rx.refs|
    ensures var released := ReleaseAll(rx.(writeInProgress := false), rx.output[0].bid);
      && released.1 == Done && released.0.output != []
      && Books(c, WriteDone(c, released.0), cq[1..])
      && KernelTook(Popped(rx.(writeInProgress := false)), WriteDone(c, released.0))
    ensures CountOf(WRITE, cq[1..]) == 0
  {
    hide ParseInv, Shape, HeldCount, CqeOk, ReleaseAll, Popped, WriteDone;
    var s0 := rx.(writeInProgress := false);
    AsTaken(rx, s0);
    TakenKeeps(c, rx, s0);
    BooksShape(c, rx, cq);
    ShapeReleasable(c, rx);
    hide KernelTook;
    PopKeeps(c, s0);
    PoppedIs(s0);
    var released := ReleaseAll(s0, rx.output[0].bid).0;
    WriteDoneTook(c, released);
    TakenKeeps(c, Popped(s0), WriteDone(c, released));
    WriteDoneOperations(c, rx, released, cq);
    hide Operations;
    WritePartition(c, rx, cq, WriteDone(c, released));
    hide Partition;
    TookInput(Popped(s0), WriteDone(c, released));
  }

  lemma TookInput(s: RxState, s': RxState)
    requires KernelTook(s, s')
    ensures s'.input == s.input && s'.output == s.output
  {
  }

  lemma WritePartition(c: RxConfig, rx: RxState, cq: seq<Cqe>, rx': RxState)
    requires Partition(c, rx, cq) && cq != [] && cq[0].op == WRITE
    requires forall b: nat | b < c.pool.count :: rx'.avail[b] + HeldCount(rx', b) == rx.avail[b] + HeldCount(rx, b)
    ensures Partition(c, rx', cq[1..])
  {
    hide HeldCount;
  }

  /** The parser stands where it stood. */
  predicate SamePosition(rx: RxState, rx': RxState) {
    && rx'.header == rx.header && rx'.headerProgress == rx.headerProgress
    && rx'.state == rx.state && rx'.frame == rx.frame
  }

  lemma PopAccepted(c: RxConfig, mem: seq<byte>, rx: RxState, rx': RxState, handled: seq<byte>, done: seq<Packet>)
    requires Accepted(c, mem, rx, handled, done) && rx.output != []
    requires Shape(c, rx') && SamePosition(rx, rx') && rx'.output == rx.output[1..]
    ensures FrameShape(c.pool, rx.output[0])
    ensures Accepted(c, mem, rx', handled, done + [Content(c.pool, mem, rx.output[0])])
  {
    hide Decode, Content, FrameShape;
    var p := Content(c.pool, mem, rx.output[0]);
    assert Packets(c, mem, rx.output) == [p] + Packets(c, mem, rx'.output);
    Associative(done, [p], Packets(c, mem, rx'.output));
  }

  lemma PoppedPosition(s: RxState, rx': RxState)
    requires s.output != [] && forall i | 0 <= i < |s.output[0].bid| :: s.output[0].bid[i] < |s.refs|
    requires KernelTook(Popped(s), rx')
    ensures SamePosition(s, rx') && rx'.output == s.output[1..]
  {
    hide ReleaseAll;
    PoppedIs(s);
    hide Popped;
  }

  /** A completed write of the front frame was a write of its packet. */
  lemma WriteDelivered'(c: RxConfig, s: RxSystem, rx': RxState)
    requires Delivered(c, s) && Operations(s.rx, s.cq) && s.cq != [] && s.cq[0].op == WRITE && s.rx.output != []
    requires s.cq[0].result == TotalLength(s.rx.output[0].segments) && CountOf(WRITE, s.cq[1..]) == 0 && Shape(c, rx')
    requires s.acked <= |s.written|
    ensures |s.written| == s.acked + 1
    ensures s.written == s.written[..s.acked] + [Content(c.pool, s.mem, s.rx.output[0])]
    ensures Delivered(c, s.(rx := rx', cq := s.cq[1..], acked := s.acked + 1))
  {
    hide Content, FrameShape, TotalLength, Flow;
    WritesSnoc(s.cq[1..], NO_BUFFERS_CQE, FrontLength(s.rx));
    WritesSnoc(s.cq[1..], NO_BUFFERS_CQE, FrontLength(rx'));
  }

  lemma WriteOutstanding(c: RxConfig, s: RxSystem)
    requires Inv(c, s) && s.cq != [] && s.cq[0].op == WRITE
    ensures s.rx.output != [] && s.acked <= |s.written| && Delivered(c, s) && Books(c, s.rx, s.cq) && Arrived(c, s)
  {
    hide ParseInv, Accepted, Delivered, Partition, Flow, Arrived, QueueOk;
  }

  lemma WriteHandled(c: RxConfig, s: RxSystem, t: RxSystem)
    requires s.cq != [] && |s.mem| == c.pool.Bytes()
    requires Inv(c, s) && HandledTo(c, s, t) && s.cq[0].op == WRITE
    ensures t.failure == Expected(c, s)
    ensures t.failure.None? ==> Inv(c, t)
  {
    hide Books, Arrived, Accepted, Delivered, HandleNext, Expected, HandleCqe, Enabled, ReleaseAll, Popped, WriteDone,
         Content,
         Operations, TotalLength, FrameShape;
    WriteOutstanding(c, s);
    WriteBooks(c, s.rx, s.cq);
    WriteNext(c, s, t);
    if t.failure.None? {
      HandledArrived(c, s, t);
      InvOperations(c, s);
      BooksShape(c, t.rx, t.cq);
      WriteDelivered'(c, s, t.rx);
      DeliveredAlone(c, s.(rx := t.rx, cq := t.cq, acked := t.acked), t);
      PoppedPosition(s.rx.(writeInProgress := false), t.rx);
      hide KernelTook, HandledTo;
      PopAccepted(c, s.mem, s.rx, t.rx, s.handled, s.written[..s.acked]);
      assert t.written[..t.acked] == s.written;
    }
  }

  // --- Every reachable state --------------------------------------------------------------------

  /** Handling reports exactly the errors the kernel or the stream is to blame for, else it keeps the invariant. */
  lemma HandleKeeps(c: RxConfig, s: RxSystem, t: RxSystem)
    requires s.cq != [] && |s.mem| == c.pool.Bytes()
    requires Inv(c, s) && HandledTo(c, s, t)
    ensures t.failure == Expected(c, s)
    ensures t.failure.None? ==> Inv(c, t)
  {
    assert CqeOk(c, s.cq[0]);
    CarriesWrite(c, s.cq[0]);
    hide Inv, HandledTo, Expected, CarriesBytes;
    if s.cq[0].op == WRITE {
      WriteHandled(c, s, t);
    } else if CarriesBytes(c, s.cq[0]) {
      RecvBytesKeeps(c, s, t);
    } else {
      RecvEndHandled(c, s, t);
    }
  }

  lemma CarriesWrite(c: RxConfig, cqe: Cqe)
    requires CqeOk(c, cqe)
    ensures cqe.op != WRITE ==> cqe.op == RECV
  {
  }

  ghost predicate StepTo(c: RxConfig, s: RxSystem, e: Event, t: RxSystem) {
    Enabled(c, s, e) && After(c, s, e) == t
  }

  lemma InvMemory(c: RxConfig, s: RxSystem)
    requires Inv(c, s)
    ensures |s.mem| == c.pool.Bytes() && s.failure.None? && Shape(c, s.rx)
  {
    hide Books, Accepted, CarriedBytes, FrameShape;
  }

  lemma KernelRecvKeeps(c: RxConfig, s: RxSystem, e: Event, t: RxSystem)
    requires Inv(c, s) && StepTo(c, s, e, t) && (e.NoBuffers? || e.ReceiveEnds?)
    ensures Inv(c, t)
  {
    hide Inv, Shape, HandleNext;
    if e.NoBuffers? {
      RecvEndKeeps(c, s, NO_BUFFERS_CQE);
    } else {
      RecvEndKeeps(c, s, Cqe(RECV, e.result, None, false));
    }
  }

  lemma KernelWriteKeeps(c: RxConfig, s: RxSystem, e: Event, t: RxSystem)
    requires Inv(c, s) && StepTo(c, s, e, t) && (e.Write? || e.WriteEnds?)
    ensures Inv(c, t)
  {
    hide Inv, Shape, HandleNext, Content, TotalLength;
    if e.Write? {
      PostWriteKeeps(c, s, Cqe(WRITE, TotalLength(s.rx.output[0].segments), None, false));
    } else {
      PostWriteKeeps(c, s, Cqe(WRITE, e.result, None, false));
    }
  }

  /** One step of the kernel or of the session. */
  lemma EventKeeps(c: RxConfig, s: RxSystem, e: Event, t: RxSystem)
    requires Inv(c, s) && StepTo(c, s, e, t)
    ensures t.failure.None? ==> Inv(c, t)
  {
    hide Inv, HandleNext, Shape, OnlyAvailChanges, Fill, Content, TotalLength, Post;
    InvMemory(c, s);
    match e {
      case Scribble(mem) => ScribbleKeeps(c, s, mem);
      case Receive(bid, bytes, more) => ReceiveKeeps(c, s, bid, bytes, more);
      case NoBuffers => KernelRecvKeeps(c, s, e, t);
      case ReceiveEnds(_) => KernelRecvKeeps(c, s, e, t);
      case Write => KernelWriteKeeps(c, s, e, t);
      case WriteEnds(_) => KernelWriteKeeps(c, s, e, t);
      case Handle => HandleKeeps(c, s, t);
    }
  }
}
