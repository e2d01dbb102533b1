/** The transmitter together with the kernel it talks to, as a state machine. */
module TransmitSystem {
  import opened ByteStreams
  import opened Outcomes
  import opened Completions
  import opened BufferGroups
  import opened KernelMemory
  import opened FrameHeaders
  import opened FrameCodec
  import opened TransmitterSpec

  /**
   * The transmitter `tx`, the pool memory, and the completions posted but not handled.
   * The rest records the run: packets the kernel read from the TUN device (`read`) and those handed to the
   * transmitter (`taken`), how many of these were sent completely (`done`), the bytes the kernel took for the
   * socket (`sent`), and how many sends were handled (`sends`).
   */
  datatype TxSystem = TxSystem(
    mem: seq<byte>, tx: TxState, cq: seq<Cqe>,
    read: seq<Packet>, taken: seq<Packet>, done: nat, sent: seq<byte>, sends: nat,
    failure: Option<ErrorCode>)

  /** What can happen next: everything but `Handle` is the kernel's doing. */
  datatype Event =
    /** Buffers the kernel owns may change at any time. */
    | Scribble(mem: seq<byte>)
    /** A packet is read into a buffer the kernel owns; `more` if the operation stays armed. */
    | ReadPacket(bid: nat, packet: Packet, more: bool)
    /** The read found no buffer and ended. */
    | NoBuffers
    /** The read ended with another error. */
    | ReadEnds(result: int)
    /** The socket takes the first `n` bytes offered. */
    | Send(n: nat)
    /** The send fails, or takes nothing. */
    | SendEnds(result: int)
    /** The session takes the oldest completion and handles it. */
    | Handle

  const NO_BUFFERS_CQE: Cqe := Cqe(READ, -ENOBUFS, None, false)

  /** The bytes one segment of a send denotes. */
  function SegmentBytes(mem: seq<byte>, header: seq<byte>, segment: Segment): seq<byte> {
    match segment
    case HeaderSegment(from, len) => if from + len <= |header| then header[from..from + len] else []
    case PoolSegment(v) => if v.base + v.len <= |mem| then mem[v.base..v.base + v.len] else []
  }

  /** The bytes offered to the socket. */
  function Offered(mem: seq<byte>, header: seq<byte>, segments: seq<Segment>): seq<byte> {
    if segments == [] then [] else SegmentBytes(mem, header, segments[0]) + Offered(mem, header, segments[1..])
  }

  predicate Enabled(p: Pool, s: TxSystem, e: Event) {
    && s.failure.None?
    && p.size < U32_LIMIT
    && |s.mem| == p.Bytes()
    && match e
       case Scribble(mem) => OnlyAvailChanges(p, s.tx.avail, s.mem, mem)
       case ReadPacket(bid, packet, more) =>
         s.tx.readOps > 0 && bid < p.count && s.tx.avail[bid] > 0 && |packet| <= p.size
       case NoBuffers => s.tx.readOps > 0 && s.tx.avail == multiset{}
       case ReadEnds(result) => s.tx.readOps > 0 && result < 0 && result != -ENOBUFS
       case Send(n) =>
         && s.tx.sendOps > 0 && s.tx.current.Some?
         && 1 <= n <= |Offered(s.mem, s.tx.current.value.header, s.tx.current.value.segments)|
       case SendEnds(result) => s.tx.sendOps > 0 && result <= 0
       case Handle => s.cq != []
  }

  /** The buffer a read completion carries holds a packet. */
  predicate CarriesPacket(p: Pool, cqe: Cqe) {
    cqe.op == READ && cqe.result >= 0 && cqe.bid.Some? && cqe.bid.value < p.count && cqe.result <= p.size
  }

  /** The packets a completion hands over: one or none. */
  function PacketsOf(p: Pool, mem: seq<byte>, cqe: Cqe): seq<Packet>
    requires |mem| == p.Bytes()
  {
    if CarriesPacket(p, cqe) then [p.Window(mem, cqe.bid.value, 0, cqe.result)] else []
  }

  function Post(s: TxSystem, tx: TxState, cqe: Cqe): TxSystem {
    s.(tx := tx, cq := s.cq + [cqe])
  }

  /** Hands a completion to the transmitter. */
  function Deliver(p: Pool, s: TxSystem, cqe: Cqe): TxSystem
    requires p.size < U32_LIMIT && |s.mem| == p.Bytes()
  {
    var (tx, r) := HandleCqe(p, s.mem, s.tx, cqe);
    s.(tx := tx,
       taken := s.taken + PacketsOf(p, s.mem, cqe),
       done := if cqe.op == SEND && |tx.queue| < |s.tx.queue| then s.done + 1 else s.done,
       sends := if cqe.op == SEND && r.Done? then s.sends + 1 else s.sends,
       failure := if r.Failed? then Some(r.error) else None)
  }

  function HandleNext(p: Pool, s: TxSystem): TxSystem
    requires Enabled(p, s, Handle)
  {
    Deliver(p, s, s.cq[0]).(cq := s.cq[1..])
  }

  function After(p: Pool, s: TxSystem, e: Event): TxSystem
    requires Enabled(p, s, e)
  {
    match e
    case Scribble(mem) => s.(mem := mem)
    case ReadPacket(bid, packet, more) =>
      var tx := s.tx.(avail := s.tx.avail - multiset{bid}, readOps := if more then s.tx.readOps else s.tx.readOps - 1);
      Post(s, tx, Cqe(READ, |packet|, Some(bid), more))
        .(mem := Fill(p, s.mem, bid, packet), read := s.read + [packet])
    case NoBuffers => Post(s, s.tx.(readOps := s.tx.readOps - 1), NO_BUFFERS_CQE)
    case ReadEnds(result) => Post(s, s.tx.(readOps := s.tx.readOps - 1), Cqe(READ, result, None, false))
    case Send(n) =>
      var offered := Offered(s.mem, s.tx.current.value.header, s.tx.current.value.segments);
      Post(s, s.tx.(sendOps := s.tx.sendOps - 1), Cqe(SEND, n, None, false)).(sent := s.sent + offered[..n])
    case SendEnds(result) => Post(s, s.tx.(sendOps := s.tx.sendOps - 1), Cqe(SEND, result, None, false))
    case Handle => HandleNext(p, s)
  }

  /** A transmitter just created, with its first read armed. */
  function Start(p: Pool, mem: seq<byte>): TxSystem {
    var tx := TxState([], false, false, None, Everything(p.count), 0, 0);
    TxSystem(mem, ArmRead(tx), [], [], [], 0, [], 0, None)
  }

  /** `t` is where the events take `s`. */
  predicate Run(p: Pool, s: TxSystem, events: seq<Event>, t: TxSystem)
    decreases |events|
  {
    if events == [] then t == s
    else Enabled(p, s, events[0]) && Run(p, After(p, s, events[0]), events[1..], t)
  }

  ghost predicate StepTo(p: Pool, s: TxSystem, e: Event, t: TxSystem) {
    Enabled(p, s, e) && After(p, s, e) == t
  }

  ghost predicate HandledTo(p: Pool, s: TxSystem, t: TxSystem) {
    Enabled(p, s, Handle) && HandleNext(p, s) == t
  }
}
