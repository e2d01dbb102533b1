/** The receiver together with the kernel it talks to, as a state machine. */
module ReceiveSystem {
  import opened ByteStreams
  import opened Outcomes
  import opened Completions
  import opened KernelMemory
  import opened FrameHeaders
  import opened FrameCodec
  import opened ReceiverSpec

  /**
   * The receiver `rx`, the pool memory, and the completions posted but not handled.
   * The rest records the run: stream bytes the kernel took from the socket (`arrived`) and those handed to the
   * receiver (`handled`), packets the kernel wrote to the TUN device and how many of these writes were handled.
   */
  datatype RxSystem = RxSystem(
    mem: seq<byte>, rx: RxState, cq: seq<Cqe>,
    arrived: seq<byte>, handled: seq<byte>, written: seq<Packet>, acked: nat,
    failure: Option<ErrorCode>)

  /** What can happen next: everything but `Handle` is the kernel's doing. */
  datatype Event =
    /** Buffers the kernel owns may change at any time. */
    | Scribble(mem: seq<byte>)
    /** Stream bytes arrive in a buffer the kernel owns; `more` if the operation stays armed. */
    | Receive(bid: nat, bytes: seq<byte>, more: bool)
    /** The receive found no buffer and ended. */
    | NoBuffers
    /** The receive ended because the peer closed the stream, or with another error. */
    | ReceiveEnds(result: int)
    /** The frame being written reaches the TUN device. */
    | Write
    /** The write fails, or is short. */
    | WriteEnds(result: int)
    /** The session takes the oldest completion and handles it. */
    | Handle

  const NO_BUFFERS_CQE: Cqe := Cqe(RECV, -ENOBUFS, None, false)

  predicate Enabled(c: RxConfig, s: RxSystem, e: Event) {
    && s.failure.None?
    && Shape(c, s.rx)
    && |s.mem| == c.pool.Bytes()
    && match e
       case Scribble(mem) => OnlyAvailChanges(c.pool, s.rx.avail, s.mem, mem)
       case Receive(bid, bytes, more) =>
         s.rx.recvOps > 0 && bid < c.pool.count && s.rx.avail[bid] > 0 && 1 <= |bytes| <= c.pool.size
       case NoBuffers => s.rx.recvOps > 0 && s.rx.avail == multiset{}
       case ReceiveEnds(result) => s.rx.recvOps > 0 && result <= 0 && result != -ENOBUFS
       case Write => s.rx.writeOps > 0 && s.rx.output != []
       case WriteEnds(result) =>
         s.rx.writeOps > 0 && s.rx.output != [] && result != TotalLength(s.rx.output[0].segments)
       case Handle => s.cq != []
  }

  /** The buffer a receive completion carries is full of stream bytes. */
  predicate CarriesBytes(c: RxConfig, cqe: Cqe) {
    cqe.op == RECV && cqe.result > 0 && cqe.bid.Some? && cqe.bid.value < c.pool.count && cqe.result <= c.pool.size
  }

  /** The stream bytes a completion hands over. */
  function BytesOf(c: RxConfig, mem: seq<byte>, cqe: Cqe): seq<byte>
    requires |mem| == c.pool.Bytes()
  {
    if CarriesBytes(c, cqe) then c.pool.Window(mem, cqe.bid.value, 0, cqe.result) else []
  }

  function Post(s: RxSystem, rx: RxState, cqe: Cqe): RxSystem {
    s.(rx := rx, cq := s.cq + [cqe])
  }

  /** Hands a completion to the receiver. */
  function Deliver(c: RxConfig, s: RxSystem, cqe: Cqe): RxSystem
    requires Shape(c, s.rx) && |s.mem| == c.pool.Bytes()
  {
    var (rx, r) := HandleCqe(c, s.mem, s.rx, cqe);
    s.(rx := rx,
       handled := s.handled + BytesOf(c, s.mem, cqe),
       acked := if cqe.op == WRITE && r.Done? then s.acked + 1 else s.acked,
       failure := if r.Failed? then Some(r.error) else None)
  }

  function HandleNext(c: RxConfig, s: RxSystem): RxSystem
    requires Enabled(c, s, Handle)
  {
    Deliver(c, s, s.cq[0]).(cq := s.cq[1..])
  }

  function After(c: RxConfig, s: RxSystem, e: Event): RxSystem
    requires Enabled(c, s, e)
  {
    match e
    case Scribble(mem) => s.(mem := mem)
    case Receive(bid, bytes, more) =>
      var rx := s.rx.(avail := s.rx.avail - multiset{bid}, recvOps := if more then s.rx.recvOps else s.rx.recvOps - 1);
      Post(s, rx, Cqe(RECV, |bytes|, Some(bid), more))
        .(mem := Fill(c.pool, s.mem, bid, bytes), arrived := s.arrived + bytes)
    case NoBuffers => Post(s, s.rx.(recvOps := s.rx.recvOps - 1), NO_BUFFERS_CQE)
    case ReceiveEnds(result) => Post(s, s.rx.(recvOps := s.rx.recvOps - 1), Cqe(RECV, result, None, false))
    case Write =>
      var packet := Content(c.pool, s.mem, s.rx.output[0]);
      Post(s, s.rx.(writeOps := s.rx.writeOps - 1), Cqe(WRITE, TotalLength(s.rx.output[0].segments), None, false))
        .(written := s.written + [packet])
    case WriteEnds(result) => Post(s, s.rx.(writeOps := s.rx.writeOps - 1), Cqe(WRITE, result, None, false))
    case Handle => HandleNext(c, s)
  }

  /** A receiver just created, with its first receive armed. */
  function Start(c: RxConfig, mem: seq<byte>): RxSystem {
    var rx := RxState(false, 0, [], seq(c.pool.count, _ => 0), ParsingHeader, BLANK_HEADER, 0, NO_FRAME, 0, [], false,
                      Everything(c.pool.count), 0, 0);
    RxSystem(mem, ArmRecv(rx), [], [], [], [], 0, None)
  }

  /** `t` is where the events take `s`. */
  predicate Run(c: RxConfig, s: RxSystem, events: seq<Event>, t: RxSystem)
    decreases |events|
  {
    if events == [] then t == s
    else Enabled(c, s, events[0]) && Run(c, After(c, s, events[0]), events[1..], t)
  }

  lemma {:induction false} RunConcat(c: RxConfig, s: RxSystem, before: seq<Event>, t: RxSystem, more: seq<Event>,
                                     u: RxSystem)
    requires Run(c, s, before, t) && Run(c, t, more, u)
    ensures Run(c, s, before + more, u)
    decreases |before|
  {
    hide Enabled, After;
    if before == [] {
      assert before + more == more;
    } else {
      assert (before + more)[1..] == before[1..] + more;
      RunConcat(c, After(c, s, before[0]), before[1..], t, more, u);
    }
  }
}
