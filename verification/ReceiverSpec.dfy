/** The receiver as a function on values: its fields, and what each handler makes of them. */
module ReceiverSpec {
  import opened ByteStreams
  import opened Outcomes
  import opened Completions
  import opened BufferGroups
  import opened FrameHeaders
  import opened FrameCodec

  datatype InputBuffer = InputBuffer(bid: nat, size: nat, offset: nat)

  /** `OtherState` stands for every enumerator value the program does not name. */
  datatype ParseState = ParsingHeader | ParsingPayload | OtherState

  /** A frame under assembly or waiting to be written: ranges of the pool, and the buffers they lie in. */
  datatype OutputFrame = OutputFrame(bid: seq<nat>, segments: seq<IoVec>)

  const NO_FRAME: OutputFrame := OutputFrame([], [])

  datatype RxConfig = RxConfig(pool: Pool, mtu: nat)

  /** The receiver's fields; `avail`, `recvOps` and `writeOps` are what it has given to the kernel. */
  datatype RxState = RxState(
    coolingDown: bool, used: int, input: seq<InputBuffer>, refs: seq<int>,
    state: ParseState, header: seq<byte>, headerProgress: nat, frame: OutputFrame, payloadProgress: nat,
    output: seq<OutputFrame>, writeInProgress: bool,
    avail: multiset<nat>, recvOps: nat, writeOps: nat)

  // --- Shape: what the types of the fields already promise ---------------------------------------

  predicate FrameShape(p: Pool, f: OutputFrame) {
    && |f.bid| == |f.segments|
    && forall i | 0 <= i < |f.bid| :: p.Holds(f.bid[i], f.segments[i])
  }

  predicate Shape(c: RxConfig, s: RxState) {
    && |s.refs| == c.pool.count
    && |s.header| == WIRE_SIZE
    && FrameShape(c.pool, s.frame)
    && forall i | 0 <= i < |s.output| :: FrameShape(c.pool, s.output[i])
  }

  lemma ShapeInBounds(p: Pool, mem: seq<byte>, f: OutputFrame)
    requires |mem| == p.Bytes() && FrameShape(p, f)
    ensures InBounds(mem, f.segments)
  {
    forall i | 0 <= i < |f.segments| ensures f.segments[i].base + f.segments[i].len <= |mem| {
      RangeOfBuffer(p, mem, f.bid[i], f.segments[i]);
    }
  }

  /** The bytes a frame denotes in the pool memory. */
  function Content(p: Pool, mem: seq<byte>, f: OutputFrame): seq<byte>
    requires |mem| == p.Bytes() && FrameShape(p, f)
  {
    ShapeInBounds(p, mem, f);
    Gather(mem, f.segments)
  }

  // --- Parsing ----------------------------------------------------------------------------------

  function Min(a: nat, b: nat): nat {
    if a <= b then a else b
  }

  /** Bytes of the input queue not parsed yet. */
  function Unread(input: seq<InputBuffer>): nat {
    if input == [] then 0
    else (if input[0].offset < input[0].size then input[0].size - input[0].offset else 0) + Unread(input[1..])
  }

  function Advance(input: seq<InputBuffer>, take: nat): seq<InputBuffer>
    requires input != []
  {
    input[0 := input[0].(offset := input[0].offset + take)]
  }

  predicate CanTake(c: RxConfig, mem: seq<byte>, s: RxState) {
    Shape(c, s) && |mem| == c.pool.Bytes() && s.input != [] && s.input[0].offset < s.input[0].size
  }

  /** The header once the next `take` bytes of the front input buffer are copied into it. */
  function FilledHeader(c: RxConfig, mem: seq<byte>, s: RxState, take: nat): (h: seq<byte>)
    requires CanTake(c, mem, s) && s.headerProgress + take <= WIRE_SIZE
    requires s.input[0].bid < c.pool.count && s.input[0].offset + take <= c.pool.size
    ensures |h| == WIRE_SIZE
  {
    var from := s.headerProgress;
    s.header[..from] + c.pool.Window(mem, s.input[0].bid, s.input[0].offset, take) + s.header[from + take..]
  }

  /** Copies header bytes from the front input buffer, and checks the header once it is complete. */
  function TakeHeader(c: RxConfig, mem: seq<byte>, s: RxState): (r: (RxState, Outcome))
    requires CanTake(c, mem, s)
    ensures r.1.Done? ==> r.0.input != [] && r.0.input[0].bid < c.pool.count == |r.0.refs|
  {
    var ib := s.input[0];
    if s.headerProgress >= WIRE_SIZE then (s, Failed(InvalidState)) else
    match c.pool.GetBuffer(ib.bid, Some(ib.size))
    case Fail(e) => (s, Failed(e))
    case Ok(span) =>
      var take := Min(ib.size - ib.offset, WIRE_SIZE - s.headerProgress);
      var progress := s.headerProgress + take;
      var s1 := s.(header := FilledHeader(c, mem, s, take), headerProgress := progress,
                   input := Advance(s.input, take));
      if progress < WIRE_SIZE then (s1, Done) else
      var s2 := s1.(headerProgress := 0);
      if !MagicValid(s2.header) then (s2, Failed(InvalidMagic))
      else if SizeOf(s2.header) == 0 || SizeOf(s2.header) > c.mtu then (s2, Failed(InvalidSize))
      else (s2.(state := ParsingPayload), Done)
  }

  predicate CrcAgrees(header: seq<byte>, payload: seq<byte>)
    requires |header| == WIRE_SIZE
  {
    CrcOf(header) == CrcField(payload)
  }

  /** Appends payload bytes from the front input buffer to the frame, and queues the frame once complete. */
  function TakePayload(c: RxConfig, mem: seq<byte>, s: RxState): (r: (RxState, Outcome))
    requires CanTake(c, mem, s)
    ensures r.1.Done? ==> r.0.input != [] && r.0.input[0].bid < c.pool.count == |r.0.refs|
  {
    var ib := s.input[0];
    var payloadSize := SizeOf(s.header);
    if s.payloadProgress >= payloadSize then (s, Failed(InvalidState)) else
    match c.pool.GetBuffer(ib.bid, Some(ib.size))
    case Fail(e) => (s, Failed(e))
    case Ok(span) =>
      var take := Min(ib.size - ib.offset, payloadSize - s.payloadProgress);
      var progress := s.payloadProgress + take;
      var f := OutputFrame(s.frame.bid + [ib.bid], s.frame.segments + [IoVec(span.base + ib.offset, take)]);
      var s1 := s.(refs := s.refs[ib.bid := s.refs[ib.bid] + 1], frame := f,
                   payloadProgress := progress, input := Advance(s.input, take));
      if progress < payloadSize then (s1, Done) else
      var s2 := s1.(payloadProgress := 0);
      if !CrcAgrees(s.header, Content(c.pool, mem, f)) then (s2, Failed(FrameCrcMismatch))
      else (s2.(output := s2.output + [f], frame := NO_FRAME, state := ParsingHeader), Done)
  }

  /** Pops the front input buffer once it is used up, and returns it when no frame needs it. */
  function Retire(c: RxConfig, s: RxState): (RxState, Outcome)
    requires s.input != [] && s.input[0].bid < c.pool.count == |s.refs|
  {
    var ib := s.input[0];
    if ib.offset != ib.size then (s, Done)
    else if s.refs[ib.bid] == 0 then
      (s.(avail := s.avail + multiset{ib.bid}, used := s.used - 1, input := s.input[1..]), Done)
    else (s.(input := s.input[1..]), Done)
  }

  /** One iteration of the parsing loop. */
  function ParseStep(c: RxConfig, mem: seq<byte>, s: RxState): (RxState, Outcome)
    requires Shape(c, s) && |mem| == c.pool.Bytes() && s.input != []
  {
    if s.input[0].offset >= s.input[0].size then (s, Failed(InvalidState)) else
    hide TakeHeader, TakePayload;
    var taken := match s.state
      case ParsingHeader => TakeHeader(c, mem, s)
      case ParsingPayload => TakePayload(c, mem, s)
      case OtherState => (s, Failed(InvalidEnumValue));
    if taken.1.Failed? then taken else Retire(c, taken.0)
  }

  /** A taking step that succeeds, and the state it leads to. */
  predicate HeaderTo(c: RxConfig, mem: seq<byte>, s: RxState, s': RxState) {
    CanTake(c, mem, s) && s.state.ParsingHeader? && TakeHeader(c, mem, s) == (s', Done)
  }

  predicate PayloadTo(c: RxConfig, mem: seq<byte>, s: RxState, s': RxState) {
    CanTake(c, mem, s) && s.state.ParsingPayload? && TakePayload(c, mem, s) == (s', Done)
  }

  /** A whole step that succeeds. */
  predicate StepTo(c: RxConfig, mem: seq<byte>, s: RxState, s': RxState) {
    Shape(c, s) && |mem| == c.pool.Bytes() && s.input != [] && ParseStep(c, mem, s) == (s', Done)
  }

  /** What one taking step does to the input queue and to the shape. */
  predicate Took(c: RxConfig, s: RxState, s': RxState) {
    && Shape(c, s')
    && s.input != []
    && s.input[0].bid < c.pool.count
    && exists take | 1 <= take <= s.input[0].size - s.input[0].offset :: s'.input == Advance(s.input, take)
  }

  lemma HeaderTook(c: RxConfig, mem: seq<byte>, s: RxState, s': RxState)
    requires HeaderTo(c, mem, s, s')
    ensures Took(c, s, s')
  {
    hide MagicValid, SizeOf;
    var ib := s.input[0];
    var take := Min(ib.size - ib.offset, WIRE_SIZE - s.headerProgress);
    assert s'.input == Advance(s.input, take);
  }

  lemma PayloadTook(c: RxConfig, mem: seq<byte>, s: RxState, s': RxState)
    requires PayloadTo(c, mem, s, s')
    ensures Took(c, s, s')
  {
    hide SizeOf, CrcAgrees, Content;
    var ib := s.input[0];
    var take := Min(ib.size - ib.offset, SizeOf(s.header) - s.payloadProgress);
    assert s'.input == Advance(s.input, take);
  }

  lemma RetireConsumes(c: RxConfig, s: RxState, s1: RxState)
    requires Took(c, s, s1) && s.input[0].offset < s.input[0].size
    ensures Shape(c, Retire(c, s1).0) && Unread(Retire(c, s1).0.input) < Unread(s.input)
  {
    assert s1.input[1..] == s.input[1..];
  }

  /** A step is a taking step followed by the retiring of the front buffer. */
  lemma StepSplits(c: RxConfig, mem: seq<byte>, s: RxState, s': RxState) returns (s1: RxState)
    requires StepTo(c, mem, s, s')
    ensures HeaderTo(c, mem, s, s1) || PayloadTo(c, mem, s, s1)
    ensures s1.input != [] && s1.input[0].bid < c.pool.count == |s1.refs| && Retire(c, s1) == (s', Done)
  {
    hide TakeHeader, TakePayload;
    s1 := (if s.state.ParsingHeader? then TakeHeader(c, mem, s) else TakePayload(c, mem, s)).0;
  }

  lemma StepConsumes(c: RxConfig, mem: seq<byte>, s: RxState, s': RxState)
    requires StepTo(c, mem, s, s')
    ensures Shape(c, s') && Unread(s'.input) < Unread(s.input)
  {
    var s1 := StepSplits(c, mem, s, s');
    assert s.input[0].offset < s.input[0].size;
    hide StepTo, Took, Retire, Unread;
    if HeaderTo(c, mem, s, s1) {
      hide HeaderTo, PayloadTo;
      HeaderTook(c, mem, s, s1);
    } else {
      hide HeaderTo, PayloadTo;
      PayloadTook(c, mem, s, s1);
    }
    RetireConsumes(c, s, s1);
  }

  /** The parsing loop: steps until the input queue is empty or a step fails. */
  function Parse(c: RxConfig, mem: seq<byte>, s: RxState): (RxState, Outcome)
    requires Shape(c, s) && |mem| == c.pool.Bytes()
    decreases Unread(s.input)
  {
    if s.input == [] then (s, Done) else
    hide ParseStep;
    var next := ParseStep(c, mem, s);
    if next.1.Failed? then next else
    StepConsumes(c, mem, s, next.0);
    Parse(c, mem, next.0)
  }

  lemma ParseUnfolds(c: RxConfig, mem: seq<byte>, s: RxState)
    requires Shape(c, s) && |mem| == c.pool.Bytes()
    ensures s.input == [] ==> Parse(c, mem, s) == (s, Done)
    ensures s.input != [] ==>
              var next := ParseStep(c, mem, s);
              if next.1.Failed? then Parse(c, mem, s) == next
              else Shape(c, next.0) && Parse(c, mem, s) == Parse(c, mem, next.0)
  {
    hide ParseStep;
    if s.input != [] && ParseStep(c, mem, s).1.Done? {
      StepConsumes(c, mem, s, ParseStep(c, mem, s).0);
    }
  }

  // --- Handlers ---------------------------------------------------------------------------------

  function ArmRecv(s: RxState): RxState {
    s.(recvOps := s.recvOps + 1)
  }

  /** Starts writing the front frame unless a write is under way. */
  function KickWrite(s: RxState): RxState {
    if s.writeInProgress || s.output == [] then s
    else s.(writeOps := s.writeOps + 1, writeInProgress := true)
  }

  /** Drops one reference to a buffer, returning it when no frame needs it any more. */
  function DropRef(s: RxState, b: nat): (r: (RxState, Outcome))
    requires b < |s.refs|
    ensures r.0 == s.(refs := r.0.refs, avail := r.0.avail, used := r.0.used) && |r.0.refs| == |s.refs|
  {
    var s1 := s.(refs := s.refs[b := s.refs[b] - 1]);
    if s1.refs[b] > 0 then (s1, Done)
    else if s1.refs[b] != 0 then (s1, Failed(AssertionFailed))
    else (s1.(avail := s1.avail + multiset{b}, used := s1.used - 1), Done)
  }

  /** Drops one reference per listed buffer, returning those no frame needs any more. */
  function ReleaseAll(s: RxState, bids: seq<nat>): (r: (RxState, Outcome))
    requires forall i | 0 <= i < |bids| :: bids[i] < |s.refs|
    ensures r.0 == s.(refs := r.0.refs, avail := r.0.avail, used := r.0.used) && |r.0.refs| == |s.refs|
    decreases |bids|
  {
    if bids == [] then (s, Done) else
    var dropped := DropRef(s, bids[0]);
    if dropped.1.Failed? then dropped else ReleaseAll(dropped.0, bids[1..])
  }

  /** Pops the written frame, receives again once enough buffers are back, and starts the next write. */
  function WriteDone(c: RxConfig, s: RxState): RxState
    requires s.output != []
  {
    var s1 := s.(output := s.output[1..]);
    var s2 := if s1.coolingDown && s1.used < c.pool.count / 2 then ArmRecv(s1).(coolingDown := false) else s1;
    KickWrite(s2)
  }

  function HandleWrite(c: RxConfig, s: RxState, cqe: Cqe): (RxState, Outcome)
    requires Shape(c, s)
  {
    if cqe.op != WRITE then (s, Failed(WrongOperationType)) else
    var s0 := s.(writeInProgress := false);
    if s0.output == [] then (s0, Failed(WriteUnknownFrame))
    else if !cqe.IsOk() then (s0, Failed(TunWriteFailed))
    else if cqe.result != TotalLength(s0.output[0].segments) then (s0, Failed(TunPartialWrite)) else
    var released := ReleaseAll(s0, s0.output[0].bid);
    if released.1.Failed? then released else
    (WriteDone(c, released.0), Done)
  }

  /** Receives again if the operation ended, and starts a write if none is under way. */
  function RecvDone(s: RxState, more: bool): RxState {
    KickWrite(if !more && !s.coolingDown then ArmRecv(s) else s)
  }

  function HandleRecv(c: RxConfig, mem: seq<byte>, s: RxState, cqe: Cqe): (RxState, Outcome)
    requires Shape(c, s) && |mem| == c.pool.Bytes()
  {
    if cqe.op != RECV then (s, Failed(WrongOperationType))
    else if !cqe.IsOk() then
      if cqe.IsNoBuffers() then (KickWrite(s.(coolingDown := true)), Done)
      else (s, Failed(RecvFailed))
    else
      var s1 := s.(used := s.used + 1);
      if cqe.result == 0 then (s1, Failed(PeerClosed))
      else if cqe.bid.None? then (s1, Failed(RecvCqeMissingBid)) else
      var parsed := Parse(c, mem, s1.(input := s1.input + [InputBuffer(cqe.bid.value, cqe.result, 0)]));
      if parsed.1.Failed? then parsed else (RecvDone(parsed.0, cqe.more), Done)
  }

  function HandleCqe(c: RxConfig, mem: seq<byte>, s: RxState, cqe: Cqe): (RxState, Outcome)
    requires Shape(c, s) && |mem| == c.pool.Bytes()
  {
    match cqe.op
    case RECV => HandleRecv(c, mem, s, cqe)
    case WRITE => HandleWrite(c, s, cqe)
    case _ => (s, Failed(WrongOperationType))
  }

  // --- What each completion is answered with ----------------------------------------------------

  /** Every answer to a completion that carries no stream bytes, told from the completion and the output queue. */
  lemma AnswersWithoutBytes(c: RxConfig, mem: seq<byte>, s: RxState, cqe: Cqe)
    requires Shape(c, s) && |mem| == c.pool.Bytes()
    ensures var r := HandleCqe(c, mem, s, cqe).1;
      && (cqe.op !in {RECV, WRITE} ==> r == Failed(WrongOperationType))
      && (cqe.op == WRITE && s.output == [] ==> r == Failed(WriteUnknownFrame))
      && (cqe.op == WRITE && s.output != [] && cqe.result < 0 ==> r == Failed(TunWriteFailed))
      && (cqe.op == WRITE && s.output != [] && cqe.result >= 0 && cqe.result != TotalLength(s.output[0].segments) ==>
            r == Failed(TunPartialWrite))
      && (cqe.op == RECV && cqe.result == -105 && !cqe.more ==> r == Done)
      && (cqe.op == RECV && cqe.result < 0 && (cqe.result != -105 || cqe.more) ==> r == Failed(RecvFailed))
      && (cqe.op == RECV && cqe.result == 0 ==> r == Failed(PeerClosed))
      && (cqe.op == RECV && cqe.result > 0 && cqe.bid.None? ==> r == Failed(RecvCqeMissingBid))
  {
    hide FrameShape, TotalLength, ReleaseAll, WriteDone;
  }

  /** A buffer the pool does not have, or more bytes than a buffer holds, and a parser in a state without a name. */
  lemma AnswersToBadInput(c: RxConfig, mem: seq<byte>, s: RxState, bid: nat, n: nat, more: bool)
    requires Shape(c, s) && |mem| == c.pool.Bytes() && s.input == [] && n > 0
    requires s.state.ParsingHeader? ==> s.headerProgress < WIRE_SIZE
    requires s.state.ParsingPayload? ==> s.payloadProgress < SizeOf(s.header)
    ensures var r := HandleCqe(c, mem, s, Cqe(RECV, n, Some(bid), more)).1;
      && (s.state.OtherState? ==> r == Failed(InvalidEnumValue))
      && (!s.state.OtherState? && bid >= c.pool.count ==> r == Failed(InvalidBid))
      && (!s.state.OtherState? && bid < c.pool.count && n > c.pool.size ==> r == Failed(InvalidSize))
  {
    var s1 := s.(used := s.used + 1, input := [InputBuffer(bid, n, 0)]);
    assert s.input + [InputBuffer(bid, n, 0)] == s1.input;
    ParseUnfolds(c, mem, s1);
    hide FrameShape, Content, CrcAgrees, MagicValid, SizeOf, Retire, RecvDone, Parse;
  }
}
