/** The transmitter as a function on values: its fields, and what each handler makes of them. */
module TransmitterSpec {
  import opened ByteStreams
  import opened Outcomes
  import opened Completions
  import opened BufferGroups
  import opened FrameHeaders
  import opened FrameCodec
  import Crc32c

  /** A packet read from the TUN device: the first `size` bytes of buffer `bid`. */
  datatype OutFrame = OutFrame(bid: nat, size: nat)

  /** One `iovec` of a send: part of the header kept with the current frame, or part of the pool. */
  datatype Segment = HeaderSegment(from: nat, len: nat) | PoolSegment(v: IoVec)

  datatype CurrentFrame = CurrentFrame(frame: OutFrame, header: seq<byte>, bytesSent: nat, segments: seq<Segment>)

  /** The transmitter's fields; `avail`, `readOps` and `sendOps` are what it has given to the kernel. */
  datatype TxState = TxState(
    queue: seq<OutFrame>, coolingDown: bool, sendInProgress: bool, current: Option<CurrentFrame>,
    avail: multiset<nat>, readOps: nat, sendOps: nat)

  /** Buffer sizes are 32-bit and a header has sixteen bytes. */
  predicate Shape(p: Pool, s: TxState) {
    p.size < U32_LIMIT && (s.current.Some? ==> |s.current.value.header| == WIRE_SIZE)
  }

  predicate Fits(p: Pool, f: OutFrame) {
    f.bid < p.count && f.size <= p.size
  }

  /** The packet a queued frame denotes. */
  function PacketOf(p: Pool, mem: seq<byte>, f: OutFrame): (packet: Packet)
    requires |mem| == p.Bytes() && Fits(p, f)
    ensures |packet| == f.size
  {
    p.Window(mem, f.bid, 0, f.size)
  }

  // --- Sending ----------------------------------------------------------------------------------

  function CreateFrameHeader(p: Pool, mem: seq<byte>, f: OutFrame): (r: Result<seq<byte>>)
    requires |mem| == p.Bytes() && p.size < U32_LIMIT
    ensures r.Ok? <==> Fits(p, f)
    ensures r.Ok? ==> |r.value| == WIRE_SIZE
  {
    match p.GetBuffer(f.bid, Some(f.size))
    case Fail(e) => Fail(e)
    case Ok(_) => Ok(Encode(f.size, CrcField(PacketOf(p, mem, f))))
  }

  /** The header is the first sixteen bytes of the packet's frame. */
  lemma HeaderOfFrame(p: Pool, mem: seq<byte>, f: OutFrame)
    requires |mem| == p.Bytes() && p.size < U32_LIMIT && Fits(p, f)
    ensures var crc := Crc32c.Checksum(PacketOf(p, mem, f));
      && CreateFrameHeader(p, mem, f) == Ok(EncodeFrame(PacketOf(p, mem, f))[..WIRE_SIZE])
      && CreateFrameHeader(p, mem, f).value[12..16]
         == [(crc >> 24) as byte, ((crc >> 16) & 0xFF) as byte, ((crc >> 8) & 0xFF) as byte, (crc & 0xFF) as byte]
  {
    hide PacketOf, Encode, CrcField, Crc32c.Checksum;
    var frame := EncodeFrame(PacketOf(p, mem, f));
    FrameOnWire(PacketOf(p, mem, f));
    assert frame[..WIRE_SIZE][12..16] == frame[12..16];
  }

  /** The segments that are still to be sent. */
  function Remaining(payload: IoVec, bytesSent: nat): seq<Segment>
    requires bytesSent < WIRE_SIZE + payload.len
  {
    if bytesSent < WIRE_SIZE then
      [HeaderSegment(bytesSent, WIRE_SIZE - bytesSent), PoolSegment(payload)]
    else
      var done := bytesSent - WIRE_SIZE;
      [PoolSegment(IoVec(payload.base + done, payload.len - done))]
  }

  /** Sends what is left of the current frame. */
  function SendRest(p: Pool, s: TxState): (TxState, Outcome)
    requires s.current.Some?
  {
    var current := s.current.value;
    match p.GetBuffer(current.frame.bid, Some(current.frame.size))
    case Fail(e) => (s, Failed(e))
    case Ok(payload) =>
      if current.bytesSent >= WIRE_SIZE + current.frame.size then (s, Failed(InvalidState))
      else
        var segments := Remaining(payload, current.bytesSent);
        (s.(current := Some(current.(segments := segments)), sendInProgress := true, sendOps := s.sendOps + 1), Done)
  }

  function KickSend(p: Pool, mem: seq<byte>, s: TxState): (TxState, Outcome)
    requires |mem| == p.Bytes() && p.size < U32_LIMIT
  {
    if s.sendInProgress || s.queue == [] then (s, Done)
    else if s.current.Some? then SendRest(p, s)
    else match CreateFrameHeader(p, mem, s.queue[0])
      case Fail(e) => (s, Failed(e))
      case Ok(header) => SendRest(p, s.(current := Some(CurrentFrame(s.queue[0], header, 0, []))))
  }

  // --- Handlers ---------------------------------------------------------------------------------

  function ArmRead(s: TxState): TxState {
    s.(readOps := s.readOps + 1)
  }

  function HandleRead(p: Pool, mem: seq<byte>, s: TxState, cqe: Cqe): (TxState, Outcome)
    requires |mem| == p.Bytes() && p.size < U32_LIMIT
  {
    if cqe.op != READ then (s, Failed(WrongOperationType))
    else if !cqe.IsOk() then
      if cqe.IsNoBuffers() then KickSend(p, mem, s.(coolingDown := true))
      else (s, Failed(TunReadFailed))
    else if cqe.bid.None? then (s, Failed(ReadCqeMissingBid)) else
    var s1 := s.(queue := s.queue + [OutFrame(cqe.bid.value, cqe.result)]);
    KickSend(p, mem, if !cqe.more && !s1.coolingDown then ArmRead(s1) else s1)
  }

  /** Pops the frame that was sent completely and returns its buffer. */
  function FrameSent(p: Pool, s: TxState): (TxState, Outcome)
    requires s.current.Some?
  {
    var bid := s.current.value.frame.bid;
    var s1 := s.(current := None);
    // Popping an empty queue is undefined behaviour in the program.
    if s1.queue == [] then (s1, Failed(AssertionFailed)) else
    var s2 := s1.(queue := s1.queue[1..]);
    if bid < p.count then (s2.(avail := s2.avail + multiset{bid}), Done) else (s2, Failed(InvalidBid))
  }

  /** Reads again once at most half the buffers wait to be sent. */
  function CoolDown(p: Pool, s: TxState): TxState {
    if s.coolingDown && |s.queue| <= p.count / 2 then ArmRead(s).(coolingDown := false) else s
  }

  function HandleSend(p: Pool, mem: seq<byte>, s: TxState, cqe: Cqe): (TxState, Outcome)
    requires |mem| == p.Bytes() && p.size < U32_LIMIT
  {
    if cqe.op != SEND then (s, Failed(WrongOperationType)) else
    var s0 := s.(sendInProgress := false);
    if !cqe.IsOk() then (s0, Failed(SendFailed))
    else if cqe.result == 0 then (s0, Failed(SendReturnedZero))
    else if s0.current.None? then (s0, Failed(InvalidState)) else
    var current := s0.current.value;
    var total := WIRE_SIZE + current.frame.size;
    if current.bytesSent + cqe.result > total then (s0, Failed(InvalidState)) else
    var s1 := s0.(current := Some(current.(bytesSent := current.bytesSent + cqe.result)));
    var popped := if current.bytesSent + cqe.result == total then FrameSent(p, s1) else (s1, Done);
    if popped.1.Failed? then popped else KickSend(p, mem, CoolDown(p, popped.0))
  }

  function HandleCqe(p: Pool, mem: seq<byte>, s: TxState, cqe: Cqe): (TxState, Outcome)
    requires |mem| == p.Bytes() && p.size < U32_LIMIT
  {
    match cqe.op
    case READ => HandleRead(p, mem, s, cqe)
    case SEND => HandleSend(p, mem, s, cqe)
    case _ => (s, Failed(WrongOperationType))
  }

  // --- What each completion is answered with ----------------------------------------------------

  /** Every error a completion is answered with by itself, told from the completion and the frame being sent. */
  lemma AnswersWithErrors(p: Pool, mem: seq<byte>, s: TxState, cqe: Cqe)
    requires |mem| == p.Bytes() && p.size < U32_LIMIT
    ensures var r := HandleCqe(p, mem, s, cqe).1;
      && (cqe.op !in {READ, SEND} ==> r == Failed(WrongOperationType))
      && (cqe.op == READ && cqe.result < 0 && (cqe.result != -105 || cqe.more) ==> r == Failed(TunReadFailed))
      && (cqe.op == READ && cqe.result >= 0 && cqe.bid.None? ==> r == Failed(ReadCqeMissingBid))
      && (cqe.op == SEND && cqe.result < 0 ==> r == Failed(SendFailed))
      && (cqe.op == SEND && cqe.result == 0 ==> r == Failed(SendReturnedZero))
      && (cqe.op == SEND && cqe.result > 0 && s.current.None? ==> r == Failed(InvalidState))
      && (cqe.op == SEND && cqe.result > 0 && s.current.Some? ==>
            (s.current.value.bytesSent + cqe.result > 16 + s.current.value.frame.size ==> r == Failed(InvalidState)))
  {
    hide KickSend;
  }
}
