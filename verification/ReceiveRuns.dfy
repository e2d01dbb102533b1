/** What holds in every state of every run of the receiver and its kernel. */
module ReceiveRuns {
  import opened ByteStreams
  import opened Outcomes
  import opened Completions
  import opened CompletionQueues
  import opened BufferGroups
  import opened KernelMemory
  import opened FrameHeaders
  import opened FrameCodec
  import opened ReceiverSpec
  import opened ReceiverInvariant
  import opened ReceiverDecoding
  import opened ReceiveSystem

  // --- The invariant ----------------------------------------------------------------------------

  predicate CqeOk(c: RxConfig, cqe: Cqe) {
    || (cqe.op == WRITE && !cqe.more)
    || CarriesBytes(c, cqe)
    || (cqe.op == RECV && cqe.result <= 0 && !cqe.more && (cqe.result == -ENOBUFS <==> cqe == NO_BUFFERS_CQE))
  }

  predicate QueueOk(c: RxConfig, cq: seq<Cqe>) {
    forall i | 0 <= i < |cq| :: CqeOk(c, cq[i])
  }

  /** How many undelivered completions carry buffer `b`. */
  function Carried(c: RxConfig, cq: seq<Cqe>, b: nat): nat {
    if cq == [] then 0
    else (if CarriesBytes(c, cq[0]) && cq[0].bid.value == b then 1 else 0) + Carried(c, cq[1..], b)
  }

  /** The stream bytes on their way to the receiver. */
  function CarriedBytes(c: RxConfig, mem: seq<byte>, cq: seq<Cqe>): seq<byte>
    requires |mem| == c.pool.Bytes()
  {
    if cq == [] then [] else BytesOf(c, mem, cq[0]) + CarriedBytes(c, mem, cq[1..])
  }

  /** Completions of writes of exactly `len` bytes. */
  function FullWrites(cq: seq<Cqe>, len: nat): nat {
    if cq == [] then 0 else (if cq[0].op == WRITE && cq[0].result == len then 1 else 0) + FullWrites(cq[1..], len)
  }

  function FrontLength(rx: RxState): nat {
    if rx.output == [] then 0 else TotalLength(rx.output[0].segments)
  }

  /** Each buffer belongs to the kernel, to one undelivered completion, or to the receiver. */
  ghost predicate Partition(c: RxConfig, rx: RxState, cq: seq<Cqe>) {
    forall b: nat | b < c.pool.count :: rx.avail[b] + HeldCount(rx, b) + Carried(c, cq, b) == 1
  }

  /** One receive armed unless cooling down; one write outstanding exactly while frames wait. */
  predicate Operations(rx: RxState, cq: seq<Cqe>) {
    && Flow(RECV, cq, rx.recvOps, rx.coolingDown)
    && rx.writeOps + CountOf(WRITE, cq) == (if rx.writeInProgress then 1 else 0)
    && (rx.writeInProgress <==> rx.output != [])
  }

  ghost predicate Books(c: RxConfig, rx: RxState, cq: seq<Cqe>) {
    ParseInv(c, rx) && rx.input == [] && QueueOk(c, cq) && Partition(c, rx, cq) && Operations(rx, cq)
  }

  /** What was handled decodes to the packets written and those waiting; the saved progress is the rest. */
  ghost predicate Accepted(c: RxConfig, mem: seq<byte>, rx: RxState, handled: seq<byte>, done: seq<Packet>) {
    && Shape(c, rx) && |mem| == c.pool.Bytes() && rx.headerProgress <= WIRE_SIZE
    && Decode(c.mtu, handled) == Decoded(done + Packets(c, mem, rx.output), Waiting(Pending(c, mem, rx)))
  }

  /** The packets written are those accepted: the last one may still be at the front of the output queue. */
  ghost predicate Delivered(c: RxConfig, s: RxSystem) {
    && Shape(c, s.rx) && |s.mem| == c.pool.Bytes()
    && |s.written| == s.acked + FullWrites(s.cq, FrontLength(s.rx))
    && (|s.written| > s.acked ==> s.rx.output != [] && s.written[s.acked] == Content(c.pool, s.mem, s.rx.output[0]))
  }

  /** What arrived is what was handled, then what the queued completions carry. */
  predicate Arrived(c: RxConfig, s: RxSystem) {
    |s.mem| == c.pool.Bytes() && s.arrived == s.handled + CarriedBytes(c, s.mem, s.cq)
  }

  ghost predicate Inv(c: RxConfig, s: RxSystem) {
    && s.failure.None?
    && Books(c, s.rx, s.cq)
    && Arrived(c, s)
    && s.acked <= |s.written|
    && Accepted(c, s.mem, s.rx, s.handled, s.written[..s.acked])
    && Delivered(c, s)
  }

  // --- Queues -----------------------------------------------------------------------------------

  lemma {:induction false} CarriedSnoc(c: RxConfig, cq: seq<Cqe>, cqe: Cqe, b: nat)
    ensures Carried(c, cq + [cqe], b)
         == Carried(c, cq, b) + if CarriesBytes(c, cqe) && cqe.bid.value == b then 1 else 0
  {
    hide CarriesBytes;
    if cq == [] {
      assert cq + [cqe] == [cqe];
      assert [cqe][1..] == [];
    } else {
      assert (cq + [cqe])[1..] == cq[1..] + [cqe];
      CarriedSnoc(c, cq[1..], cqe, b);
    }
  }

  lemma {:induction false} CarriedBytesSnoc(c: RxConfig, mem: seq<byte>, cq: seq<Cqe>, cqe: Cqe)
    requires |mem| == c.pool.Bytes()
    ensures CarriedBytes(c, mem, cq + [cqe]) == CarriedBytes(c, mem, cq) + BytesOf(c, mem, cqe)
  {
    hide BytesOf, Pool.Bytes;
    if cq == [] {
      assert cq + [cqe] == [cqe];
      assert [cqe][1..] == [];
    } else {
      assert (cq + [cqe])[1..] == cq[1..] + [cqe];
      CarriedBytesSnoc(c, mem, cq[1..], cqe);
    }
  }

  lemma {:induction false} WritesSnoc(cq: seq<Cqe>, cqe: Cqe, len: nat)
    ensures CountOf(WRITE, cq + [cqe]) == CountOf(WRITE, cq) + if cqe.op == WRITE then 1 else 0
    ensures FullWrites(cq + [cqe], len) == FullWrites(cq, len) + if cqe.op == WRITE && cqe.result == len then 1 else 0
    ensures FullWrites(cq, len) <= CountOf(WRITE, cq)
  {
    if cq == [] {
      assert cq + [cqe] == [cqe];
      assert [cqe][1..] == [];
    } else {
      assert (cq + [cqe])[1..] == cq[1..] + [cqe];
      WritesSnoc(cq[1..], cqe, len);
    }
  }

  // --- Memory -----------------------------------------------------------------------------------

  /** The kernel cannot change what a frame in held buffers denotes. */
  lemma ContentFrame(p: Pool, avail: multiset<nat>, mem: seq<byte>, mem': seq<byte>, f: OutputFrame)
    requires OnlyAvailChanges(p, avail, mem, mem') && FrameShape(p, f)
    requires forall i | 0 <= i < |f.bid| :: avail[f.bid[i]] == 0
    ensures Content(p, mem', f) == Content(p, mem, f)
  {
    ShapeInBounds(p, mem, f);
    ShapeInBounds(p, mem', f);
    forall i | 0 <= i < |f.segments|
      ensures mem[f.segments[i].base..f.segments[i].base + f.segments[i].len]
           == mem'[f.segments[i].base..f.segments[i].base + f.segments[i].len]
    {
      assert p.Holds(f.bid[i], f.segments[i]) && avail[f.bid[i]] == 0;
      RangeFrame(p, avail, mem, mem', f.bid[i], f.segments[i]);
    }
    hide OnlyAvailChanges, FrameShape;
    GatherFrame(mem, mem', f.segments);
  }

  lemma {:induction false} CarriedBytesFrame(c: RxConfig, avail: multiset<nat>, mem: seq<byte>, mem': seq<byte>,
                                             cq: seq<Cqe>)
    requires OnlyAvailChanges(c.pool, avail, mem, mem')
    requires forall b: nat | b < c.pool.count && Carried(c, cq, b) > 0 :: avail[b] == 0
    ensures CarriedBytes(c, mem', cq) == CarriedBytes(c, mem, cq)
    decreases |cq|
  {
    if cq != [] {
      assert CarriesBytes(c, cq[0]) ==> Carried(c, cq, cq[0].bid.value) > 0;
      forall b: nat ensures Carried(c, cq[1..], b) <= Carried(c, cq, b) {}
      if CarriesBytes(c, cq[0]) {
        BytesFrame(c, avail, mem, mem', cq[0]);
      }
      hide OnlyAvailChanges, BytesOf, CarriesBytes;
      CarriedBytesFrame(c, avail, mem, mem', cq[1..]);
    }
  }

  lemma BytesFrame(c: RxConfig, avail: multiset<nat>, mem: seq<byte>, mem': seq<byte>, cqe: Cqe)
    requires OnlyAvailChanges(c.pool, avail, mem, mem') && CarriesBytes(c, cqe) && avail[cqe.bid.value] == 0
    ensures BytesOf(c, mem', cqe) == BytesOf(c, mem, cqe)
  {
    WindowFrame(c.pool, avail, mem, mem', cqe.bid.value, cqe.result);
  }

  // --- What the kernel does ---------------------------------------------------------------------

  lemma {:induction false} OutLogBid(output: seq<OutputFrame>, i: nat, j: nat)
    requires i < |output| && j < |output[i].bid|
    ensures Occurrences(OutLog(output), output[i].bid[j]) > 0
    decreases |output|
  {
    var b := output[i].bid[j];
    OccurrencesConcat(FrameLog(output[0]), OutLog(output[1..]), b);
    if i == 0 {
      OccurrencesNone(FrameLog(output[0]), b);
      assert FrameLog(output[0])[j].bid == b;
    } else {
      assert output[1..][i - 1] == output[i];
      OutLogBid(output[1..], i - 1, j);
    }
  }

  /** Buffers of pending frames are held. */
  lemma FramesHeld(rx: RxState)
    ensures forall j | 0 <= j < |rx.frame.bid| :: HeldCount(rx, rx.frame.bid[j]) == 1
    ensures forall i, j | 0 <= i < |rx.output| && 0 <= j < |rx.output[i].bid| :: HeldCount(rx, rx.output[i].bid[j]) == 1
  {
    hide Occurrences, InInput, OutLog, FrameLog;
    forall j | 0 <= j < |rx.frame.bid| ensures HeldCount(rx, rx.frame.bid[j]) == 1 {
      FrameBid(rx, j);
    }
    forall i, j | 0 <= i < |rx.output| && 0 <= j < |rx.output[i].bid| ensures HeldCount(rx, rx.output[i].bid[j]) == 1 {
      OutLogBid(rx.output, i, j);
      OccurrencesConcat(OutLog(rx.output), FrameLog(rx.frame), rx.output[i].bid[j]);
    }
  }

  lemma FrameBid(rx: RxState, j: nat)
    requires j < |rx.frame.bid|
    ensures Occurrences(Log(rx), rx.frame.bid[j]) > 0
  {
    var b := rx.frame.bid[j];
    OccurrencesConcat(OutLog(rx.output), FrameLog(rx.frame), b);
    OccurrencesNone(FrameLog(rx.frame), b);
    assert FrameLog(rx.frame)[j].bid == b;
  }

  /** What the receiver holds keeps its meaning, whatever the kernel does to the buffers it owns. */
  lemma PendingFrame(c: RxConfig, rx: RxState, mem: seq<byte>, mem': seq<byte>)
    requires Shape(c, rx) && rx.headerProgress <= WIRE_SIZE
    requires OnlyAvailChanges(c.pool, rx.avail, mem, mem')
    requires forall b: nat | b < c.pool.count :: rx.avail[b] + HeldCount(rx, b) <= 1
    ensures Packets(c, mem', rx.output) == Packets(c, mem, rx.output)
    ensures Pending(c, mem', rx) == Pending(c, mem, rx)
    ensures Content(c.pool, mem', rx.frame) == Content(c.pool, mem, rx.frame)
  {
    FramesHeld(rx);
    hide HeldCount, Content;
    forall i | 0 <= i < |rx.output| ensures Content(c.pool, mem', rx.output[i]) == Content(c.pool, mem, rx.output[i]) {
      assert forall j | 0 <= j < |rx.output[i].bid| ::
          rx.output[i].bid[j] < c.pool.count && HeldCount(rx, rx.output[i].bid[j]) == 1;
      ContentFrame(c.pool, rx.avail, mem, mem', rx.output[i]);
    }
    assert forall j | 0 <= j < |rx.frame.bid| :: rx.frame.bid[j] < c.pool.count && HeldCount(rx, rx.frame.bid[j]) == 1;
    ContentFrame(c.pool, rx.avail, mem, mem', rx.frame);
    hide OnlyAvailChanges;
  }

  /** `rx'` differs from `rx` at most in flags, operations and buffers the kernel took. */
  ghost predicate KernelTook(rx: RxState, rx': RxState) {
    && rx' == rx.(avail := rx'.avail, recvOps := rx'.recvOps, writeOps := rx'.writeOps,
                  coolingDown := rx'.coolingDown, writeInProgress := rx'.writeInProgress)
    && forall b: nat :: rx'.avail[b] <= rx.avail[b]
  }

  lemma TakenKeeps(c: RxConfig, rx: RxState, rx': RxState)
    requires KernelTook(rx, rx') && ParseInv(c, rx)
    ensures ParseInv(c, rx')
    ensures forall b: nat :: HeldCount(rx', b) == HeldCount(rx, b)
  {
    hide FrameShape, SpacedLog, Distinct, InputOk, Unfinished;
    assert Log(rx') == Log(rx);
    hide Log, Occurrences, InInput;
    assert HeldSet(c, rx') == HeldSet(c, rx);
  }

  lemma TakenAccepted(c: RxConfig, mem: seq<byte>, mem': seq<byte>, rx: RxState, rx': RxState, handled: seq<byte>,
                      done: seq<Packet>)
    requires Accepted(c, mem, rx, handled, done) && KernelTook(rx, rx')
    requires OnlyAvailChanges(c.pool, rx.avail, mem, mem')
    requires forall b: nat | b < c.pool.count :: rx.avail[b] + HeldCount(rx, b) <= 1
    ensures Accepted(c, mem', rx', handled, done)
  {
    PendingFrame(c, rx, mem, mem');
    hide OnlyAvailChanges, HeldCount, Decode, Packets, Content;
  }

  lemma TakenDelivered(c: RxConfig, s: RxSystem, mem': seq<byte>, rx': RxState, cq': seq<Cqe>)
    requires Delivered(c, s) && KernelTook(s.rx, rx') && s.rx.headerProgress <= WIRE_SIZE
    requires OnlyAvailChanges(c.pool, s.rx.avail, s.mem, mem')
    requires forall b: nat | b < c.pool.count :: s.rx.avail[b] + HeldCount(s.rx, b) <= 1
    requires FullWrites(cq', FrontLength(s.rx)) == FullWrites(s.cq, FrontLength(s.rx))
    ensures Delivered(c, s.(mem := mem', rx := rx', cq := cq'))
  {
    assert |mem'| == c.pool.Bytes();
    hide OnlyAvailChanges, HeldCount, TotalLength, FullWrites, Content;
    PendingFrame(c, s.rx, s.mem, mem');
    if s.rx.output != [] {
      assert Packets(c, s.mem, s.rx.output)[0] == Content(c.pool, s.mem, s.rx.output[0]);
      assert Packets(c, mem', s.rx.output)[0] == Content(c.pool, mem', s.rx.output[0]);
    }
  }

  lemma OneOwner(c: RxConfig, s: RxSystem)
    requires Inv(c, s)
    ensures forall b: nat | b < c.pool.count :: s.rx.avail[b] + HeldCount(s.rx, b) <= 1
    ensures forall b: nat | b < c.pool.count && Carried(c, s.cq, b) > 0 :: s.rx.avail[b] == 0
    ensures s.rx.headerProgress <= WIRE_SIZE
  {
    hide HeldCount, Carried;
  }

  lemma SameMemory(c: RxConfig, s: RxSystem)
    requires |s.mem| == c.pool.Bytes()
    ensures OnlyAvailChanges(c.pool, s.rx.avail, s.mem, s.mem)
  {
  }

  /** Whatever the kernel writes into its own buffers, nothing the receiver relies on changes. */
  lemma ScribbleKeeps(c: RxConfig, s: RxSystem, mem: seq<byte>)
    requires Inv(c, s) && Enabled(c, s, Scribble(mem))
    ensures Inv(c, After(c, s, Scribble(mem)))
  {
    hide Books, Accepted, Delivered, KernelTook, HeldCount, Carried, CarriedBytes, Shape;
    assert OnlyAvailChanges(c.pool, s.rx.avail, s.mem, mem) && |mem| == |s.mem| == c.pool.Bytes();
    hide OnlyAvailChanges;
    OneOwner(c, s);
    AsTaken(s.rx, s.rx);
    CarriedBytesFrame(c, s.rx.avail, s.mem, mem, s.cq);
    TakenAccepted(c, s.mem, mem, s.rx, s.rx, s.handled, s.written[..s.acked]);
    TakenDelivered(c, s, mem, s.rx, s.cq);
  }

  lemma PostRecvPartition(c: RxConfig, rx: RxState, rx': RxState, cq: seq<Cqe>, cqe: Cqe)
    requires Partition(c, rx, cq) && forall b: nat :: HeldCount(rx', b) == HeldCount(rx, b)
    requires CarriesBytes(c, cqe) ==> rx.avail[cqe.bid.value] > 0
    requires rx'.avail == if CarriesBytes(c, cqe) then rx.avail - multiset{cqe.bid.value} else rx.avail
    ensures Partition(c, rx', cq + [cqe])
  {
    hide HeldCount, CarriesBytes, Carried;
    forall b: nat {
      CarriedSnoc(c, cq, cqe, b);
    }
  }

  /** Posting a completion of the receive. */
  lemma PostRecvBooks(c: RxConfig, rx: RxState, rx': RxState, cq: seq<Cqe>, cqe: Cqe)
    requires Books(c, rx, cq) && CqeOk(c, cqe) && cqe.op == RECV && rx.recvOps > 0
    requires rx' == rx.(recvOps := if cqe.more then rx.recvOps else rx.recvOps - 1,
                        avail := if CarriesBytes(c, cqe) then rx.avail - multiset{cqe.bid.value} else rx.avail)
    requires CarriesBytes(c, cqe) ==> rx.avail[cqe.bid.value] > 0
    ensures Books(c, rx', cq + [cqe])
  {
    hide ParseInv, Carried, Flow, CountOf, CarriesBytes, HeldCount, CqeOk, Partition, KernelTook;
    AsTaken(rx, rx');
    TakenKeeps(c, rx, rx');
    PostRecvPartition(c, rx, rx', cq, cqe);
    FlowSnoc(RECV, cq, rx.recvOps, rx.coolingDown, cqe);
    WritesSnoc(cq, cqe, 0);
  }

  lemma PostArrived(c: RxConfig, s: RxSystem, mem: seq<byte>, rx: RxState, cqe: Cqe, bytes: seq<byte>)
    requires Arrived(c, s) && OnlyAvailChanges(c.pool, s.rx.avail, s.mem, mem) && |mem| == c.pool.Bytes()
    requires forall b: nat | b < c.pool.count && Carried(c, s.cq, b) > 0 :: s.rx.avail[b] == 0
    requires BytesOf(c, mem, cqe) == bytes
    ensures Arrived(c, Post(s, rx, cqe).(mem := mem, arrived := s.arrived + bytes))
  {
    hide OnlyAvailChanges, Carried, CarriedBytes, BytesOf, CarriesBytes;
    CarriedBytesFrame(c, s.rx.avail, s.mem, mem, s.cq);
    CarriedBytesSnoc(c, mem, s.cq, cqe);
    Associative(s.handled, CarriedBytes(c, mem, s.cq), bytes);
  }

  lemma PostRecvKeeps(c: RxConfig, s: RxSystem, mem: seq<byte>, rx: RxState, cqe: Cqe, bytes: seq<byte>)
    requires Inv(c, s) && CqeOk(c, cqe) && cqe.op == RECV && s.rx.recvOps > 0
    requires rx == s.rx.(recvOps := if cqe.more then s.rx.recvOps else s.rx.recvOps - 1,
                         avail := if CarriesBytes(c, cqe) then s.rx.avail - multiset{cqe.bid.value} else s.rx.avail)
    requires CarriesBytes(c, cqe) ==> s.rx.avail[cqe.bid.value] > 0
    requires OnlyAvailChanges(c.pool, s.rx.avail, s.mem, mem) && |mem| == c.pool.Bytes()
    requires BytesOf(c, mem, cqe) == bytes
    ensures Inv(c, Post(s, rx, cqe).(mem := mem, arrived := s.arrived + bytes))
  {
    hide Books, Arrived, Accepted, Delivered, KernelTook, OnlyAvailChanges, HeldCount, Carried, BytesOf, CarriesBytes,
         CqeOk;
    OneOwner(c, s);
    AsTaken(s.rx, rx);
    PostRecvBooks(c, s.rx, rx, s.cq, cqe);
    PostArrived(c, s, mem, rx, cqe, bytes);
    TakenAccepted(c, s.mem, mem, s.rx, rx, s.handled, s.written[..s.acked]);
    WritesSnoc(s.cq, cqe, FrontLength(s.rx));
    hide FrontLength;
    TakenDelivered(c, s, mem, rx, s.cq + [cqe]);
    DeliveredAlone(c, s.(mem := mem, rx := rx, cq := s.cq + [cqe]),
                   Post(s, rx, cqe).(mem := mem, arrived := s.arrived + bytes));
  }

  lemma AsTaken(rx: RxState, rx': RxState)
    requires rx' == rx.(avail := rx'.avail, recvOps := rx'.recvOps, writeOps := rx'.writeOps,
                        coolingDown := rx'.coolingDown, writeInProgress := rx'.writeInProgress)
    requires rx'.avail <= rx.avail
    ensures KernelTook(rx, rx')
  {
  }

  lemma DeliveredAlone(c: RxConfig, s: RxSystem, s': RxSystem)
    requires Delivered(c, s) && s' == s.(arrived := s'.arrived, handled := s'.handled)
    ensures Delivered(c, s')
  {
    hide Content;
  }

  /** Bytes arriving in a kernel-owned buffer. */
  lemma ReceiveKeeps(c: RxConfig, s: RxSystem, bid: nat, bytes: seq<byte>, more: bool)
    requires Inv(c, s) && Enabled(c, s, Receive(bid, bytes, more))
    ensures Inv(c, After(c, s, Receive(bid, bytes, more)))
  {
    hide Inv;
    FillFrame(c.pool, s.rx.avail, s.mem, bid, bytes);
    var mem := Fill(c.pool, s.mem, bid, bytes);
    var cqe := Cqe(RECV, |bytes|, Some(bid), more);
    hide OnlyAvailChanges, Fill, Pool.Window;
    PostRecvKeeps(c, s, mem, After(c, s, Receive(bid, bytes, more)).rx, cqe, bytes);
  }

  /** A receive that ends without bytes. */
  lemma RecvEndKeeps(c: RxConfig, s: RxSystem, cqe: Cqe)
    requires Inv(c, s) && CqeOk(c, cqe) && cqe.op == RECV && cqe.result <= 0 && s.rx.recvOps > 0
    ensures Inv(c, Post(s, s.rx.(recvOps := s.rx.recvOps - 1), cqe))
  {
    assert |s.mem| == c.pool.Bytes();
    hide Inv;
    SameMemory(c, s);
    hide OnlyAvailChanges;
    PostRecvKeeps(c, s, s.mem, s.rx.(recvOps := s.rx.recvOps - 1), cqe, []);
    assert s.arrived + [] == s.arrived;
  }

  lemma PostWriteBooks(c: RxConfig, rx: RxState, cq: seq<Cqe>, cqe: Cqe)
    requires Books(c, rx, cq) && cqe.op == WRITE && !cqe.more && rx.writeOps > 0
    ensures Books(c, rx.(writeOps := rx.writeOps - 1), cq + [cqe])
  {
    var rx' := rx.(writeOps := rx.writeOps - 1);
    assert KernelTook(rx, rx');
    hide ParseInv, Carried, Flow, CountOf, HeldCount;
    TakenKeeps(c, rx, rx');
    hide KernelTook;
    forall b: nat {
      CarriedSnoc(c, cq, cqe, b);
    }
    FlowSnoc(RECV, cq, rx.recvOps, rx.coolingDown, cqe);
    WritesSnoc(cq, cqe, 0);
  }

  lemma WriteDelivered(c: RxConfig, s: RxSystem, rx: RxState, cqe: Cqe)
    requires Delivered(c, s) && rx == s.rx.(writeOps := rx.writeOps) && cqe.op == WRITE && s.rx.output != []
    requires |s.written| == s.acked && FullWrites(s.cq, FrontLength(s.rx)) == 0
    ensures Shape(c, s.rx) && |s.mem| == c.pool.Bytes()
    ensures var s' := Post(s, rx, cqe);
      Delivered(c, if cqe.result != TotalLength(s.rx.output[0].segments) then s'
                   else s'.(written := s.written + [Content(c.pool, s.mem, s.rx.output[0])]))
  {
    hide Content, FrameShape, FullWrites, TotalLength;
    WritesSnoc(s.cq, cqe, FrontLength(s.rx));
  }

  /** The write the kernel performs writes the accepted bytes; a failed one writes nothing. */
  lemma PostWriteKeeps(c: RxConfig, s: RxSystem, cqe: Cqe)
    requires Inv(c, s) && cqe.op == WRITE && !cqe.more && s.rx.writeOps > 0 && s.rx.output != []
    ensures Shape(c, s.rx) && |s.mem| == c.pool.Bytes()
    ensures var s' := Post(s, s.rx.(writeOps := s.rx.writeOps - 1), cqe);
      Inv(c, if cqe.result != TotalLength(s.rx.output[0].segments) then s'
             else s'.(written := s.written + [Content(c.pool, s.mem, s.rx.output[0])]))
  {
    hide Books, Arrived, Accepted, Delivered, KernelTook, OnlyAvailChanges, HeldCount, Carried, BytesOf, CarriesBytes,
         FrameShape, TotalLength, Content;
    var rx := s.rx.(writeOps := s.rx.writeOps - 1);
    OneOwner(c, s);
    NoWrites(c, s);
    WriteDelivered(c, s, rx, cqe);
    SameMemory(c, s);
    AsTaken(s.rx, rx);
    PostWriteBooks(c, s.rx, s.cq, cqe);
    NoBytes(c, s.mem, cqe);
    PostArrived(c, s, s.mem, rx, cqe, []);
    assert s.arrived + [] == s.arrived;
    TakenAccepted(c, s.mem, s.mem, s.rx, rx, s.handled, s.written[..s.acked]);
    var packet := Content(c.pool, s.mem, s.rx.output[0]);
    WriteArrived(c, s, rx, cqe, packet);
    assert (s.written + [packet])[..s.acked] == s.written[..s.acked];
  }

  lemma NoBytes(c: RxConfig, mem: seq<byte>, cqe: Cqe)
    requires |mem| == c.pool.Bytes() && cqe.op == WRITE
    ensures BytesOf(c, mem, cqe) == []
  {
  }

  lemma WriteArrived(c: RxConfig, s: RxSystem, rx: RxState, cqe: Cqe, packet: Packet)
    requires Arrived(c, Post(s, rx, cqe))
    ensures Arrived(c, Post(s, rx, cqe).(written := s.written + [packet]))
  {
    hide CarriedBytes;
  }

  /** While the write is outstanding, none of its completions is queued. */
  lemma NoWrites(c: RxConfig, s: RxSystem)
    requires Inv(c, s) && s.rx.writeOps > 0
    ensures CountOf(WRITE, s.cq) == 0 && FullWrites(s.cq, FrontLength(s.rx)) == 0
    ensures |s.written| == s.acked
  {
    hide ParseInv, Partition, Flow;
    WritesSnoc(s.cq, NO_BUFFERS_CQE, FrontLength(s.rx));
  }
}
