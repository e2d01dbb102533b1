/** The resumable parser refines the whole-stream decoder. */
module ReceiverDecoding {
  import opened ByteStreams
  import opened Outcomes
  import opened BufferGroups
  import opened FrameHeaders
  import opened FrameCodec
  import opened ReceiverSpec
  import opened ReceiverInvariant

  /** What the parser has consumed of the frame it is in. */
  function Pending(c: RxConfig, mem: seq<byte>, s: RxState): seq<byte>
    requires Shape(c, s) && |mem| == c.pool.Bytes() && s.headerProgress <= WIRE_SIZE
  {
    if s.state.ParsingHeader? then s.header[..s.headerProgress] else s.header + Content(c.pool, mem, s.frame)
  }

  /** The bytes of the input queue still to be parsed. */
  function Unparsed(c: RxConfig, mem: seq<byte>, input: seq<InputBuffer>): seq<byte>
    requires InputOk(c, input) && |mem| == c.pool.Bytes()
  {
    if input == [] then [] else
    c.pool.Window(mem, input[0].bid, input[0].offset, input[0].size - input[0].offset) + Unparsed(c, mem, input[1..])
  }

  function Packets(c: RxConfig, mem: seq<byte>, output: seq<OutputFrame>): (ps: seq<Packet>)
    requires |mem| == c.pool.Bytes() && forall i | 0 <= i < |output| :: FrameShape(c.pool, output[i])
    ensures |ps| == |output|
  {
    seq(|output|, i requires 0 <= i < |output| => Content(c.pool, mem, output[i]))
  }

  /** Everything needed to read the parser's position out of its fields. */
  predicate Readable(c: RxConfig, mem: seq<byte>, s: RxState) {
    Shape(c, s) && InputOk(c, s.input) && |mem| == c.pool.Bytes() && s.headerProgress <= WIRE_SIZE
  }

  /** The undecoded suffix of the stream: consumed bytes of the current frame, then unparsed input. */
  function Suffix(c: RxConfig, mem: seq<byte>, s: RxState): seq<byte>
    requires Readable(c, mem, s)
  {
    Pending(c, mem, s) + Unparsed(c, mem, s.input)
  }

  /** What the stream decodes to, given the frames accepted and the undecoded suffix. */
  function Total(c: RxConfig, mem: seq<byte>, s: RxState): Decoded
    requires Readable(c, mem, s)
  {
    var d := Decode(c.mtu, Suffix(c, mem, s));
    Decoded(Packets(c, mem, s.output) + d.packets, d.ending)
  }

  lemma SameSuffix(c: RxConfig, mem: seq<byte>, s: RxState, s': RxState)
    requires Readable(c, mem, s) && Readable(c, mem, s')
    requires s'.output == s.output && Suffix(c, mem, s') == Suffix(c, mem, s)
    ensures Total(c, mem, s') == Total(c, mem, s)
  {
    hide Readable, Suffix, Decode;
  }

  // --- Moving along the front buffer ------------------------------------------------------------

  lemma WindowSplit(p: Pool, mem: seq<byte>, bid: nat, off: nat, len: nat, take: nat)
    requires |mem| == p.Bytes() && bid < p.count && off + len <= p.size && take <= len
    ensures p.Window(mem, bid, off, len) == p.Window(mem, bid, off, take) + p.Window(mem, bid, off + take, len - take)
  {
    BufferInside(p, bid);
    var b := p.Base(bid);
    assert mem[b + off..b + off + len] == mem[b + off..b + off + take] + mem[b + off + take..b + off + len];
  }

  /** Taking bytes from the front buffer takes them from the front of the unparsed input. */
  lemma AdvanceUnparsed(c: RxConfig, mem: seq<byte>, input: seq<InputBuffer>, take: nat)
    requires InputOk(c, input) && |mem| == c.pool.Bytes() && input != []
    requires take <= input[0].size - input[0].offset
    ensures InputOk(c, Advance(input, take))
    ensures Unparsed(c, mem, input)
         == c.pool.Window(mem, input[0].bid, input[0].offset, take) + Unparsed(c, mem, Advance(input, take))
  {
    hide InputOk, Unparsed, Advance, Pool.Window, Pool.Base;
    var input' := Advance(input, take);
    AdvanceFacts(c, input, take);
    UnparsedFront(c, mem, input);
    UnparsedFront(c, mem, input');
    var ib := input[0];
    WindowSplit(c.pool, mem, ib.bid, ib.offset, ib.size - ib.offset, take);
    Associative(c.pool.Window(mem, ib.bid, ib.offset, take),
                c.pool.Window(mem, ib.bid, ib.offset + take, ib.size - ib.offset - take), Unparsed(c, mem, input[1..]));
  }

  lemma AdvanceFacts(c: RxConfig, input: seq<InputBuffer>, take: nat)
    requires InputOk(c, input) && input != [] && take <= input[0].size - input[0].offset
    ensures input[0].bid < c.pool.count && input[0].size <= c.pool.size && InputOk(c, input[1..])
    ensures var input' := Advance(input, take);
      && input' != [] && InputOk(c, input') && input'[1..] == input[1..]
      && input'[0] == input[0].(offset := input[0].offset + take)
  {
    AdvanceInput(c, input, take);
    FrontOnce(c, input);
  }

  lemma UnparsedFront(c: RxConfig, mem: seq<byte>, input: seq<InputBuffer>)
    requires InputOk(c, input) && |mem| == c.pool.Bytes() && input != []
    ensures InputOk(c, input[1..])
    ensures Unparsed(c, mem, input)
         == c.pool.Window(mem, input[0].bid, input[0].offset, input[0].size - input[0].offset)
            + Unparsed(c, mem, input[1..])
  {
    FrontOnce(c, input);
  }

  lemma RetireTotal(c: RxConfig, mem: seq<byte>, s: RxState, s': RxState)
    requires Readable(c, mem, s) && s.input != []
    requires s.input[0].bid < c.pool.count && Retire(c, s) == (s', Done)
    ensures Readable(c, mem, s') && Total(c, mem, s') == Total(c, mem, s) && s'.output == s.output
  {
    FrontOnce(c, s.input);
    if s.input[0].offset == s.input[0].size {
      assert s' == s.(input := s.input[1..], avail := s'.avail, used := s'.used);
      assert Pending(c, mem, s') == Pending(c, mem, s);
      assert Unparsed(c, mem, s'.input) == Unparsed(c, mem, s.input);
      assert Readable(c, mem, s');
      hide Readable, Pending, Unparsed;
      SameSuffix(c, mem, s, s');
    } else {
      assert s' == s;
    }
  }

  // --- Header bytes -----------------------------------------------------------------------------

  lemma HeaderContent(c: RxConfig, mem: seq<byte>, s: RxState, s': RxState, take: nat)
    requires HeaderTo(c, mem, s, s') && s.headerProgress < WIRE_SIZE
    requires take == Min(s.input[0].size - s.input[0].offset, WIRE_SIZE - s.headerProgress)
    requires s.input[0].bid < c.pool.count && s.input[0].size <= c.pool.size
    ensures s'.header == s.header[..s.headerProgress] + c.pool.Window(mem, s.input[0].bid, s.input[0].offset, take)
                         + s.header[s.headerProgress + take..]
  {
    hide MagicValid, SizeOf, Shape, Pool.Window;
  }

  lemma HeaderPending(c: RxConfig, mem: seq<byte>, s: RxState, s': RxState, take: nat, w: seq<byte>)
    requires Shape(c, s) && Shape(c, s') && |mem| == c.pool.Bytes()
    requires HeaderMoved(c, s, s', take) && s.frame == NO_FRAME && s.state.ParsingHeader?
    requires |w| == take && s'.header == s.header[..s.headerProgress] + w + s.header[s.headerProgress + take..]
    ensures s'.headerProgress <= WIRE_SIZE
    ensures Pending(c, mem, s') == Pending(c, mem, s) + w
  {
    hide HeaderOk;
    assert Content(c.pool, mem, NO_FRAME) == [];
    assert s'.header[..s.headerProgress + take] == s.header[..s.headerProgress] + w;
  }

  lemma HeaderBytes(c: RxConfig, mem: seq<byte>, s: RxState, s': RxState, take: nat)
    requires Readable(c, mem, s) && HeaderTo(c, mem, s, s') && s.headerProgress < WIRE_SIZE && s.frame == NO_FRAME
    requires take == Min(s.input[0].size - s.input[0].offset, WIRE_SIZE - s.headerProgress)
    ensures s.input[0].bid < c.pool.count && s.input[0].size <= c.pool.size
    ensures Shape(c, s') && s'.headerProgress <= WIRE_SIZE
    ensures Pending(c, mem, s') == Pending(c, mem, s) + c.pool.Window(mem, s.input[0].bid, s.input[0].offset, take)
    ensures s'.input == Advance(s.input, take) && s'.output == s.output
  {
    assert s.input[0].bid < c.pool.count && s.input[0].size <= c.pool.size;
    hide TakeHeader, InputOk, Pending, Pool.Window, FrameShape;
    HeaderEffect(c, mem, s, s', take);
    HeaderContent(c, mem, s, s', take);
    HeaderPending(c, mem, s, s', take, c.pool.Window(mem, s.input[0].bid, s.input[0].offset, take));
  }

  lemma HeaderTotal(c: RxConfig, mem: seq<byte>, s: RxState, s': RxState)
    requires Readable(c, mem, s) && HeaderTo(c, mem, s, s') && s.headerProgress < WIRE_SIZE && s.frame == NO_FRAME
    ensures Readable(c, mem, s') && Total(c, mem, s') == Total(c, mem, s) && s'.output == s.output
  {
    assert s.input[0].offset < s.input[0].size;
    var take := Min(s.input[0].size - s.input[0].offset, WIRE_SIZE - s.headerProgress);
    HeaderBytes(c, mem, s, s', take);
    hide HeaderTo;
    AdvanceUnparsed(c, mem, s.input, take);
    AdvanceSuffix(c, mem, s, s', take);
    hide Readable, Suffix;
    SameSuffix(c, mem, s, s');
  }

  /** Moving bytes from the unparsed input to the consumed ones leaves the suffix as it was. */
  lemma AdvanceSuffix(c: RxConfig, mem: seq<byte>, s: RxState, s': RxState, take: nat)
    requires Readable(c, mem, s) && s.input != [] && take <= s.input[0].size - s.input[0].offset
    requires Shape(c, s') && s'.headerProgress <= WIRE_SIZE && s'.input == Advance(s.input, take)
    requires Pending(c, mem, s') == Pending(c, mem, s) + c.pool.Window(mem, s.input[0].bid, s.input[0].offset, take)
    ensures Readable(c, mem, s') && Suffix(c, mem, s') == Suffix(c, mem, s)
  {
    AdvanceUnparsed(c, mem, s.input, take);
    hide Pending, Unparsed, InputOk, Shape;
    Associative(Pending(c, mem, s), c.pool.Window(mem, s.input[0].bid, s.input[0].offset, take),
                Unparsed(c, mem, s'.input));
  }

  // --- Payload bytes ----------------------------------------------------------------------------

  /** Appending a reference appends the bytes it denotes. */
  lemma ExtendContent(p: Pool, mem: seq<byte>, f: OutputFrame, bid: nat, off: nat, len: nat)
    requires |mem| == p.Bytes() && FrameShape(p, f) && bid < p.count && off + len <= p.size
    ensures var g := Extend(f, Ref(bid, IoVec(p.Base(bid) + off, len)));
      && FrameShape(p, g)
      && Content(p, mem, g) == Content(p, mem, f) + p.Window(mem, bid, off, len)
      && |Content(p, mem, g)| == TotalLength(f.segments) + len
  {
    var v := IoVec(p.Base(bid) + off, len);
    var g := Extend(f, Ref(bid, v));
    assert FrameShape(p, g);
    ShapeInBounds(p, mem, f);
    BufferInside(p, bid);
    hide FrameShape;
    GatherSnoc(mem, f.segments, v);
    GatherLength(mem, f.segments);
  }

  /** The payload bytes gathered once the next ones are taken. */
  function NextContent(c: RxConfig, mem: seq<byte>, s: RxState): seq<byte>
    requires Readable(c, mem, s) && s.input != [] && s.input[0].offset < s.input[0].size
    requires s.payloadProgress < SizeOf(s.header)
  {
    hide SizeOf;
    var r := NextRef(c, s);
    Content(c.pool, mem, s.frame) + c.pool.Window(mem, r.bid, s.input[0].offset, r.v.len)
  }

  lemma NextContentIs(c: RxConfig, mem: seq<byte>, s: RxState)
    requires Readable(c, mem, s) && s.input != [] && s.input[0].offset < s.input[0].size
    requires s.payloadProgress < SizeOf(s.header) && TotalLength(s.frame.segments) == s.payloadProgress
    ensures FrameShape(c.pool, Extend(s.frame, NextRef(c, s)))
    ensures Content(c.pool, mem, Extend(s.frame, NextRef(c, s))) == NextContent(c, mem, s)
    ensures |NextContent(c, mem, s)| == s.payloadProgress + NextRef(c, s).v.len
  {
    assert s.input[0].bid < c.pool.count && s.input[0].size <= c.pool.size;
    hide InputOk, SizeOf, Shape, Content, Pool.Window;
    var r := NextRef(c, s);
    ExtendContent(c.pool, mem, s.frame, r.bid, s.input[0].offset, r.v.len);
  }

  lemma PartialPayload(c: RxConfig, mem: seq<byte>, s: RxState, s': RxState)
    requires Readable(c, mem, s) && s.input != [] && s.input[0].offset < s.input[0].size
    requires s.state.ParsingPayload? && s.headerProgress == 0
    requires s.payloadProgress < SizeOf(s.header) && TotalLength(s.frame.segments) == s.payloadProgress
    requires Shape(c, s') && Appended(s, s', NextRef(c, s)) && s'.state.ParsingPayload?
    ensures Readable(c, mem, s') && Total(c, mem, s') == Total(c, mem, s) && s'.output == s.output
  {
    hide SizeOf, Content, Unparsed, Pool.Window;
    var r := NextRef(c, s);
    NextContentIs(c, mem, s);
    assert r.v.len <= s.input[0].size - s.input[0].offset;
    Associative(s.header, Content(c.pool, mem, s.frame), c.pool.Window(mem, r.bid, s.input[0].offset, r.v.len));
    AdvanceSuffix(c, mem, s, s', r.v.len);
    SameSuffix(c, mem, s, s');
  }

  /** The suffix once the payload is complete: the frame, then what is still unparsed. */
  lemma FullSuffix(c: RxConfig, mem: seq<byte>, s: RxState)
    requires Readable(c, mem, s) && s.input != [] && s.input[0].offset < s.input[0].size
    requires s.state.ParsingPayload? && s.payloadProgress < SizeOf(s.header)
    ensures InputOk(c, Advance(s.input, NextRef(c, s).v.len))
    ensures Suffix(c, mem, s)
         == s.header + NextContent(c, mem, s) + Unparsed(c, mem, Advance(s.input, NextRef(c, s).v.len))
  {
    assert s.input[0].bid < c.pool.count && s.input[0].size <= c.pool.size;
    hide SizeOf, Content, InputOk, Unparsed, Pool.Window, FrameShape;
    var r := NextRef(c, s);
    assert r.v.len <= s.input[0].size - s.input[0].offset;
    AdvanceUnparsed(c, mem, s.input, r.v.len);
    Regroup(s.header, Content(c.pool, mem, s.frame), c.pool.Window(mem, r.bid, s.input[0].offset, r.v.len),
            Unparsed(c, mem, Advance(s.input, r.v.len)));
  }

  lemma Regroup<T>(a: seq<T>, b: seq<T>, x: seq<T>, y: seq<T>)
    ensures a + b + (x + y) == a + (b + x) + y
  {
  }

  /** Decoding a complete frame. */
  lemma DecodeOne(mtu: nat, h: seq<byte>, p: Packet, rest: seq<byte>)
    requires |h| == WIRE_SIZE && HeaderOk(mtu, h) && |p| == SizeOf(h)
    ensures CrcAgrees(h, p) ==>
              var d := Decode(mtu, rest);
              Decode(mtu, h + p + rest) == Decoded([p] + d.packets, d.ending)
    ensures !CrcAgrees(h, p) ==> Decode(mtu, h + p + rest) == Decoded([], Broken(FrameCrcMismatch))
  {
    hide SizeOf, HeaderOk, CrcOf, CrcField;
    var s := h + p + rest;
    assert s[..WIRE_SIZE] == h && s[WIRE_SIZE..WIRE_SIZE + |p|] == p && s[WIRE_SIZE + |p|..] == rest;
  }

  /** Accepting a frame moves it from the undecoded suffix to the packets. */
  lemma AcceptTotal(c: RxConfig, mem: seq<byte>, s: RxState, s': RxState, p: Packet, rest: seq<byte>)
    requires Readable(c, mem, s) && Readable(c, mem, s') && HeaderOk(c.mtu, s.header) && |p| == SizeOf(s.header)
    requires CrcAgrees(s.header, p)
    requires Suffix(c, mem, s) == s.header + p + rest && Suffix(c, mem, s') == rest
    requires Packets(c, mem, s'.output) == Packets(c, mem, s.output) + [p]
    ensures Total(c, mem, s') == Total(c, mem, s)
  {
    assert |s.header| == WIRE_SIZE;
    hide SizeOf, HeaderOk, CrcAgrees, Decode, Readable, Suffix, Packets;
    DecodeOne(c.mtu, s.header, p, rest);
    Associative(Packets(c, mem, s.output), [p], Decode(c.mtu, rest).packets);
  }

  lemma PacketsSnoc(c: RxConfig, mem: seq<byte>, output: seq<OutputFrame>, f: OutputFrame)
    requires |mem| == c.pool.Bytes() && forall i | 0 <= i < |output| :: FrameShape(c.pool, output[i])
    requires FrameShape(c.pool, f)
    ensures forall i | 0 <= i < |output + [f]| :: FrameShape(c.pool, (output + [f])[i])
    ensures Packets(c, mem, output + [f]) == Packets(c, mem, output) + [Content(c.pool, mem, f)]
  {
    hide Content, FrameShape;
  }

  lemma CompletePayload(c: RxConfig, mem: seq<byte>, s: RxState, s': RxState)
    requires Readable(c, mem, s) && s.input != [] && s.input[0].offset < s.input[0].size
    requires s.state.ParsingPayload? && s.headerProgress == 0 && HeaderOk(c.mtu, s.header)
    requires s.payloadProgress < SizeOf(s.header) && TotalLength(s.frame.segments) == s.payloadProgress
    requires Shape(c, s') && Appended(s, s', NextRef(c, s)) && s'.state.ParsingHeader?
    requires CrcAgrees(s.header, NextContent(c, mem, s))
    ensures Readable(c, mem, s') && Total(c, mem, s') == Total(c, mem, s)
  {
    hide SizeOf, HeaderOk, CrcAgrees, NextContent, Content, Pool.Window;
    FullSuffix(c, mem, s);
    NextContentIs(c, mem, s);
    var rest := Unparsed(c, mem, s'.input);
    hide Unparsed, InputOk;
    assert Suffix(c, mem, s') == rest;
    PacketsSnoc(c, mem, s.output, Extend(s.frame, NextRef(c, s)));
    AcceptTotal(c, mem, s, s', NextContent(c, mem, s), rest);
  }

  // --- Refusals ---------------------------------------------------------------------------------

  /** A header step fails only on a complete header that is refused. */
  lemma HeaderFailure(c: RxConfig, mem: seq<byte>, s: RxState, e: ErrorCode, take: nat)
    requires CanTake(c, mem, s) && s.headerProgress < WIRE_SIZE
    requires s.input[0].bid < c.pool.count && s.input[0].size <= c.pool.size
    requires take == Min(s.input[0].size - s.input[0].offset, WIRE_SIZE - s.headerProgress)
    requires TakeHeader(c, mem, s).1 == Failed(e)
    ensures s.headerProgress + take == WIRE_SIZE
    ensures var h := FilledHeader(c, mem, s, take);
      !HeaderOk(c.mtu, h) && e == HeaderError(c.mtu, h)
    ensures TakeHeader(c, mem, s).0.output == s.output
  {
    hide MagicValid, SizeOf, FilledHeader, CanTake;
  }

  lemma FilledUp(c: RxConfig, mem: seq<byte>, s: RxState, take: nat)
    requires CanTake(c, mem, s) && s.headerProgress + take == WIRE_SIZE
    requires s.input[0].bid < c.pool.count && s.input[0].offset + take <= c.pool.size
    ensures FilledHeader(c, mem, s, take)
         == s.header[..s.headerProgress] + c.pool.Window(mem, s.input[0].bid, s.input[0].offset, take)
  {
    hide Pool.Window;
  }

  lemma HeaderRefused(c: RxConfig, mem: seq<byte>, s: RxState, e: ErrorCode)
    requires Readable(c, mem, s) && CanTake(c, mem, s) && s.state.ParsingHeader? && s.headerProgress < WIRE_SIZE
    requires TakeHeader(c, mem, s).1 == Failed(e)
    ensures Decode(c.mtu, Suffix(c, mem, s)) == Decoded([], Broken(e))
    ensures TakeHeader(c, mem, s).0.output == s.output
  {
    assert s.input[0].bid < c.pool.count && s.input[0].size <= c.pool.size;
    hide TakeHeader, HeaderOk, HeaderError, Content, FilledHeader, Pool.Window;
    var take := Min(s.input[0].size - s.input[0].offset, WIRE_SIZE - s.headerProgress);
    HeaderFailure(c, mem, s, e, take);
    FilledUp(c, mem, s, take);
    var h := FilledHeader(c, mem, s, take);
    AdvanceUnparsed(c, mem, s.input, take);
    var rest := Unparsed(c, mem, Advance(s.input, take));
    hide Unparsed, InputOk, Shape;
    Associative(s.header[..s.headerProgress], c.pool.Window(mem, s.input[0].bid, s.input[0].offset, take), rest);
    assert Suffix(c, mem, s) == h + rest;
    assert (h + rest)[..WIRE_SIZE] == h;
  }

  /** A payload step fails only on a complete payload with the wrong checksum. */
  lemma PayloadFailure(c: RxConfig, mem: seq<byte>, s: RxState, e: ErrorCode)
    requires CanTake(c, mem, s) && InputOk(c, s.input) && s.payloadProgress < SizeOf(s.header)
    requires TakePayload(c, mem, s).1 == Failed(e)
    ensures e == FrameCrcMismatch && s.payloadProgress + NextRef(c, s).v.len == SizeOf(s.header)
    ensures FrameShape(c.pool, Extend(s.frame, NextRef(c, s)))
    ensures !CrcAgrees(s.header, Content(c.pool, mem, Extend(s.frame, NextRef(c, s))))
    ensures TakePayload(c, mem, s).0.output == s.output
  {
    assert s.input[0].bid < c.pool.count && s.input[0].size <= c.pool.size;
    assert |s.header| == WIRE_SIZE && s.input[0].offset < s.input[0].size;
    ExtendShape(c, s);
    hide CrcAgrees, SizeOf, InputOk, Content, FrameShape, Shape, CanTake;
  }

  lemma ExtendShape(c: RxConfig, s: RxState)
    requires Shape(c, s) && s.input != [] && InputOk(c, s.input)
    requires s.input[0].offset < s.input[0].size && s.payloadProgress < SizeOf(s.header)
    ensures FrameShape(c.pool, Extend(s.frame, NextRef(c, s)))
  {
    hide SizeOf;
  }

  lemma PayloadRefused(c: RxConfig, mem: seq<byte>, s: RxState, e: ErrorCode)
    requires Readable(c, mem, s) && CanTake(c, mem, s) && s.state.ParsingPayload? && s.headerProgress == 0
    requires HeaderOk(c.mtu, s.header)
    requires s.payloadProgress < SizeOf(s.header) && TotalLength(s.frame.segments) == s.payloadProgress
    requires TakePayload(c, mem, s).1 == Failed(e)
    ensures Decode(c.mtu, Suffix(c, mem, s)) == Decoded([], Broken(e))
    ensures TakePayload(c, mem, s).0.output == s.output
  {
    hide TakePayload, HeaderOk, CrcAgrees, SizeOf, Content, NextContent, Pool.Window;
    PayloadFailure(c, mem, s, e);
    NextContentIs(c, mem, s);
    FullSuffix(c, mem, s);
    hide Suffix, Unparsed, Decode, InputOk;
    DecodeOne(c.mtu, s.header, NextContent(c, mem, s), Unparsed(c, mem, Advance(s.input, NextRef(c, s).v.len)));
  }

  // --- The refinement ---------------------------------------------------------------------------

  lemma ParseInvReadable(c: RxConfig, mem: seq<byte>, s: RxState)
    requires ParseInv(c, s) && |mem| == c.pool.Bytes()
    ensures Readable(c, mem, s)
    ensures s.input != [] ==> CanTake(c, mem, s)
  {
  }

  lemma HeaderStepTotal(c: RxConfig, mem: seq<byte>, s: RxState, s1: RxState)
    requires ParseInv(c, s) && HeaderTo(c, mem, s, s1)
    ensures Readable(c, mem, s) && Readable(c, mem, s1) && Total(c, mem, s1) == Total(c, mem, s)
  {
    assert s.headerProgress < WIRE_SIZE && s.frame == NO_FRAME;
    ParseInvReadable(c, mem, s);
    hide ParseInv, HeaderTo, Total;
    HeaderTotal(c, mem, s, s1);
  }

  lemma PayloadAgrees(c: RxConfig, mem: seq<byte>, s: RxState, s1: RxState)
    requires PayloadTo(c, mem, s, s1) && s.payloadProgress < SizeOf(s.header)
    requires FrameShape(c.pool, Extend(s.frame, NextRef(c, s)))
    ensures s1.state.ParsingHeader? ==> CrcAgrees(s.header, Content(c.pool, mem, Extend(s.frame, NextRef(c, s))))
    ensures s1.state.ParsingHeader? || s1.state.ParsingPayload?
  {
    hide CrcAgrees, SizeOf, Content;
  }

  lemma PayloadStepTotal(c: RxConfig, mem: seq<byte>, s: RxState, s1: RxState)
    requires ParseInv(c, s) && PayloadTo(c, mem, s, s1)
    ensures Readable(c, mem, s) && Readable(c, mem, s1) && Total(c, mem, s1) == Total(c, mem, s)
  {
    assert s.payloadProgress < SizeOf(s.header) && s.headerProgress == 0 && HeaderOk(c.mtu, s.header);
    assert TotalLength(s.frame.segments) == s.payloadProgress && s.input[0].offset < s.input[0].size;
    ParseInvReadable(c, mem, s);
    assert s.state.ParsingPayload?;
    hide ParseInv, Total, Readable, CrcAgrees, SizeOf, HeaderOk, TakePayload, Content, NextContent, NextRef;
    PayloadEffect(c, mem, s, s1);
    NextContentIs(c, mem, s);
    PayloadAgrees(c, mem, s, s1);
    hide PayloadTo, Appended;
    if s1.state.ParsingPayload? {
      PartialPayload(c, mem, s, s1);
    } else {
      CompletePayload(c, mem, s, s1);
    }
  }

  lemma StepTotal(c: RxConfig, mem: seq<byte>, s: RxState, s': RxState)
    requires ParseInv(c, s) && StepTo(c, mem, s, s')
    ensures Readable(c, mem, s) && Readable(c, mem, s') && Total(c, mem, s') == Total(c, mem, s)
  {
    var s1 := StepSplits(c, mem, s, s');
    hide StepTo, ParseInv, Total, Readable, Retire;
    if HeaderTo(c, mem, s, s1) {
      hide HeaderTo, PayloadTo;
      HeaderStepTotal(c, mem, s, s1);
    } else {
      hide HeaderTo, PayloadTo;
      PayloadStepTotal(c, mem, s, s1);
    }
    RetireTotal(c, mem, s1, s');
  }

  /** A step that fails does so where, and as, the whole-stream decoder does. */
  lemma StepRefused(c: RxConfig, mem: seq<byte>, s: RxState, s': RxState, e: ErrorCode)
    requires ParseInv(c, s) && |mem| == c.pool.Bytes() && s.input != [] && ParseStep(c, mem, s) == (s', Failed(e))
    ensures Readable(c, mem, s) && s'.output == s.output
    ensures Decode(c.mtu, Suffix(c, mem, s)) == Decoded([], Broken(e))
  {
    ParseInvReadable(c, mem, s);
    assert s.input[0].offset < s.input[0].size;
    hide TakeHeader, TakePayload, Decode, Suffix, Readable, SizeOf, HeaderOk;
    if s.state.ParsingHeader? {
      HeaderRefused(c, mem, s, e);
    } else {
      assert s.state.ParsingPayload?;
      PayloadRefused(c, mem, s, e);
    }
  }

  /** With nothing left to parse, the saved progress is an incomplete frame. */
  lemma PendingWaits(c: RxConfig, mem: seq<byte>, s: RxState)
    requires ParseInv(c, s) && |mem| == c.pool.Bytes() && s.input == []
    ensures Readable(c, mem, s) && Suffix(c, mem, s) == Pending(c, mem, s)
    ensures Decode(c.mtu, Suffix(c, mem, s)) == Decoded([], Waiting(Pending(c, mem, s)))
  {
    ParseInvReadable(c, mem, s);
    var t := Suffix(c, mem, s);
    assert Unparsed(c, mem, s.input) == [];
    assert t == Pending(c, mem, s);
    if s.state.ParsingPayload? {
      PayloadWaits(c, mem, s);
    } else {
      assert |t| < WIRE_SIZE;
    }
  }

  lemma PayloadWaits(c: RxConfig, mem: seq<byte>, s: RxState)
    requires Shape(c, s) && |mem| == c.pool.Bytes() && Progress(c, s) && s.state.ParsingPayload?
    ensures Decode(c.mtu, s.header + Content(c.pool, mem, s.frame))
         == Decoded([], Waiting(s.header + Content(c.pool, mem, s.frame)))
  {
    hide SizeOf, MagicValid, FrameShape;
    ShapeInBounds(c.pool, mem, s.frame);
    GatherLength(mem, s.frame.segments);
    var t := s.header + Content(c.pool, mem, s.frame);
    assert t[..WIRE_SIZE] == s.header;
  }

  /** Parsing refines decoding: same packets, same ending, and the saved progress is the undecoded rest. */
  lemma {:induction false} ParseRefines(c: RxConfig, mem: seq<byte>, s: RxState, s': RxState, r: Outcome)
    requires ParseInv(c, s) && |mem| == c.pool.Bytes() && Parse(c, mem, s) == (s', r)
    ensures Readable(c, mem, s) && Shape(c, s')
    ensures r.Done? ==> ParseInv(c, s') && s'.input == []
                        && Total(c, mem, s) == Decoded(Packets(c, mem, s'.output), Waiting(Pending(c, mem, s')))
    ensures r.Failed? ==> Total(c, mem, s) == Decoded(Packets(c, mem, s'.output), Broken(r.error))
    decreases Unread(s.input)
  {
    ParseInvReadable(c, mem, s);
    assert Shape(c, s);
    hide ParseInv, ParseStep, Readable, Suffix, Pending, Packets, Decode, Shape;
    if s.input == [] {
      PendingWaits(c, mem, s);
      assert Packets(c, mem, s.output) + [] == Packets(c, mem, s.output);
    } else {
      var next := ParseStep(c, mem, s);
      if next.1.Failed? {
        StepRefused(c, mem, s, next.0, next.1.error);
        FailedShape(c, mem, s, next.0, next.1.error);
        assert Packets(c, mem, s.output) + [] == Packets(c, mem, s.output);
      } else {
        assert StepTo(c, mem, s, next.0);
        hide StepTo, Total;
        StepKeeps(c, mem, s, next.0);
        StepConsumes(c, mem, s, next.0);
        StepTotal(c, mem, s, next.0);
        ParseRefines(c, mem, next.0, s', r);
      }
    }
  }

  lemma HeaderFailedShape(c: RxConfig, mem: seq<byte>, s: RxState)
    requires CanTake(c, mem, s) && s.input[0].bid < c.pool.count && TakeHeader(c, mem, s).1.Failed?
    ensures Shape(c, TakeHeader(c, mem, s).0)
  {
    hide MagicValid, SizeOf, FilledHeader, FrameShape;
  }

  lemma PayloadFailedShape(c: RxConfig, mem: seq<byte>, s: RxState)
    requires CanTake(c, mem, s) && s.input[0].bid < c.pool.count && TakePayload(c, mem, s).1.Failed?
    ensures Shape(c, TakePayload(c, mem, s).0)
  {
    hide CrcAgrees, SizeOf, Content;
  }

  lemma FailedShape(c: RxConfig, mem: seq<byte>, s: RxState, s': RxState, e: ErrorCode)
    requires ParseInv(c, s) && |mem| == c.pool.Bytes() && s.input != [] && ParseStep(c, mem, s) == (s', Failed(e))
    ensures Shape(c, s')
  {
    ParseInvReadable(c, mem, s);
    assert s.input[0].offset < s.input[0].size && s.input[0].bid < c.pool.count;
    assert Shape(c, s);
    hide ParseInv, Shape, CanTake, TakeHeader, TakePayload;
    if s.state.ParsingHeader? {
      HeaderFailedShape(c, mem, s);
    } else if s.state.ParsingPayload? {
      PayloadFailedShape(c, mem, s);
    }
  }
}
