/** What the receiver's bookkeeping keeps through every parsing step and every write. */
module ReceiverInvariant {
  import opened ByteStreams
  import opened Outcomes
  import opened BufferGroups
  import opened FrameHeaders
  import opened FrameCodec
  import opened ReceiverSpec

  // --- The log: every reference from a pending frame into a buffer, oldest first ----------------

  datatype Ref = Ref(bid: nat, v: IoVec) {
    function End(): nat {
      v.base + v.len
    }
  }

  function FrameLog(f: OutputFrame): (log: seq<Ref>) {
    seq(|f.bid|, i requires 0 <= i < |f.bid| =>
      Ref(f.bid[i], if i < |f.segments| then f.segments[i] else IoVec(0, 0)))
  }

  function OutLog(output: seq<OutputFrame>): seq<Ref> {
    if output == [] then [] else FrameLog(output[0]) + OutLog(output[1..])
  }

  function Log(s: RxState): seq<Ref> {
    OutLog(s.output) + FrameLog(s.frame)
  }

  /** How many pending references buffer `b` has. */
  function Occurrences(log: seq<Ref>, b: nat): nat {
    if log == [] then 0 else (if log[0].bid == b then 1 else 0) + Occurrences(log[1..], b)
  }

  lemma {:induction false} OccurrencesConcat(x: seq<Ref>, y: seq<Ref>, b: nat)
    ensures Occurrences(x + y, b) == Occurrences(x, b) + Occurrences(y, b)
  {
    if x == [] {
      assert x + y == y;
    } else {
      assert (x + y)[1..] == x[1..] + y;
      OccurrencesConcat(x[1..], y, b);
    }
  }

  lemma OccurrencesSnoc(log: seq<Ref>, r: Ref, b: nat)
    ensures Occurrences(log + [r], b) == Occurrences(log, b) + if r.bid == b then 1 else 0
  {
    OccurrencesConcat(log, [r], b);
    assert [r][1..] == [];
  }

  lemma {:induction false} OccurrencesNone(log: seq<Ref>, b: nat)
    ensures Occurrences(log, b) == 0 <==> forall i | 0 <= i < |log| :: log[i].bid != b
  {
    if log != [] {
      OccurrencesNone(log[1..], b);
      assert forall i | 0 < i < |log| :: log[i] == log[1..][i - 1];
      assert forall i | 0 <= i < |log| - 1 :: log[1..][i] == log[i + 1];
    }
  }

  lemma {:induction false} OutLogSnoc(output: seq<OutputFrame>, f: OutputFrame)
    ensures OutLog(output + [f]) == OutLog(output) + FrameLog(f)
  {
    if output == [] {
      assert output + [f] == [f];
      assert OutLog([f][1..]) == [];
    } else {
      assert (output + [f])[1..] == output[1..] + [f];
      OutLogSnoc(output[1..], f);
    }
  }

  // --- The invariant ----------------------------------------------------------------------------

  predicate InInput(input: seq<InputBuffer>, b: nat) {
    exists i | 0 <= i < |input| :: input[i].bid == b
  }

  /** A buffer the receiver holds: some pending frame needs it, or it is still to be parsed. */
  predicate Held(s: RxState, b: nat)
  {
    Occurrences(Log(s), b) > 0 || InInput(s.input, b)
  }

  function HeldCount(s: RxState, b: nat): nat
  {
    if Held(s, b) then 1 else 0
  }

  function HeldSet(c: RxConfig, s: RxState): set<nat>
  {
    set b: nat | b < c.pool.count && Held(s, b)
  }

  /** The input queue: whole buffers of the pool, each once, only the front one partly read. */
  predicate InputOk(c: RxConfig, input: seq<InputBuffer>) {
    && (forall i | 0 <= i < |input| ::
          input[i].bid < c.pool.count && 1 <= input[i].size <= c.pool.size && input[i].offset <= input[i].size)
    && (forall i | 0 < i < |input| :: input[i].offset == 0)
    && (forall i, j | 0 <= i < j < |input| :: input[i].bid != input[j].bid)
  }

  /** Where the parser stands. */
  predicate Progress(c: RxConfig, s: RxState) {
    |s.header| == WIRE_SIZE &&
    match s.state
    case ParsingHeader => s.headerProgress < WIRE_SIZE && s.payloadProgress == 0 && s.frame == NO_FRAME
    case ParsingPayload =>
      && s.headerProgress == 0
      && HeaderOk(c.mtu, s.header)
      && s.payloadProgress < SizeOf(s.header)
      && TotalLength(s.frame.segments) == s.payloadProgress
      && (s.payloadProgress == 0 ==> s.frame == NO_FRAME)
    case OtherState => false
  }

  /** The reference counts count references, and every buffer is at most one party's. */
  ghost predicate Owned(c: RxConfig, s: RxState) {
    && |s.refs| == c.pool.count
    && (forall b: nat | b < c.pool.count :: s.refs[b] == Occurrences(Log(s), b))
    && (forall b: nat | b < c.pool.count :: s.avail[b] + HeldCount(s, b) <= 1)
    && (forall b: nat | b >= c.pool.count :: s.avail[b] == 0)
    && s.used == |HeldSet(c, s)|
  }

  /** References into one buffer are in order, at least a header apart. */
  predicate SpacedLog(log: seq<Ref>) {
    && (forall i | 0 <= i < |log| :: 1 <= log[i].v.len)
    && (forall i, j | 0 <= i < j < |log| && log[i].bid == log[j].bid :: log[i].End() + WIRE_SIZE <= log[j].v.base)
  }

  /** References into the front input buffer end before the header bytes now being read. */
  predicate FrontGap(c: RxConfig, s: RxState)
  {
    s.input != [] && s.input[0].offset < s.input[0].size ==>
      forall i | 0 <= i < |Log(s)| && Log(s)[i].bid == s.input[0].bid ::
        && s.payloadProgress == 0
        && Log(s)[i].End() + (if s.state.ParsingHeader? then s.headerProgress else WIRE_SIZE)
           <= c.pool.Base(s.input[0].bid) + s.input[0].offset
  }

  predicate Spaced(c: RxConfig, s: RxState)
  {
    && SpacedLog(Log(s))
    && (forall i | 0 < i < |s.input| :: Occurrences(Log(s), s.input[i].bid) == 0)
    && FrontGap(c, s)
  }

  predicate Distinct(bids: seq<nat>) {
    forall i, j | 0 <= i < j < |bids| :: bids[i] != bids[j]
  }

  predicate FramesDistinct(s: RxState) {
    Distinct(s.frame.bid) && forall i | 0 <= i < |s.output| :: Distinct(s.output[i].bid)
  }

  /** What holds before and after every parsing step; between the halves of a step the front buffer may be used up. */
  ghost predicate Midway(c: RxConfig, s: RxState) {
    Shape(c, s) && Progress(c, s) && InputOk(c, s.input) && Owned(c, s) && Spaced(c, s) && FramesDistinct(s)
  }

  predicate Unfinished(input: seq<InputBuffer>) {
    forall i | 0 <= i < |input| :: input[i].offset < input[i].size
  }

  ghost predicate ParseInv(c: RxConfig, s: RxState) {
    Midway(c, s) && Unfinished(s.input)
  }

  /** Each buffer changes hands only between the receiver and the kernel. */
  predicate Conserved(c: RxConfig, s: RxState, s': RxState)
  {
    forall b: nat | b < c.pool.count :: s'.avail[b] + HeldCount(s', b) == s.avail[b] + HeldCount(s, b)
  }

  // --- Taking header bytes ----------------------------------------------------------------------

  /** Nothing but the parser's position changed. */
  predicate SameHoldings(s: RxState, s': RxState) {
    && s'.refs == s.refs && s'.avail == s.avail && s'.used == s.used
    && s'.output == s.output && s'.frame == s.frame
    && |s'.input| == |s.input| && forall i | 0 <= i < |s.input| :: s'.input[i].bid == s.input[i].bid
  }

  lemma SameHoldingsOwned(c: RxConfig, s: RxState, s': RxState)
    requires Shape(c, s) && Shape(c, s') && Owned(c, s) && SameHoldings(s, s')
    ensures Owned(c, s') && Conserved(c, s, s')
  {
    assert Log(s') == Log(s);
    hide Log, Occurrences;
    forall b: nat ensures InInput(s'.input, b) == InInput(s.input, b) {
      if i :| 0 <= i < |s.input| && s.input[i].bid == b { assert s'.input[i].bid == b; }
      if i :| 0 <= i < |s'.input| && s'.input[i].bid == b { assert s.input[i].bid == b; }
    }
    hide InInput;
    assert HeldSet(c, s') == HeldSet(c, s);
  }

  /** How far the next header byte lies from the last payload byte in the same buffer, at least. */
  function Gap(s: RxState): nat {
    if s.state.ParsingHeader? then s.headerProgress else WIRE_SIZE
  }

  lemma AdvanceInput(c: RxConfig, input: seq<InputBuffer>, take: nat)
    requires InputOk(c, input) && input != [] && take <= input[0].size - input[0].offset
    ensures InputOk(c, Advance(input, take))
  {
  }

  /** The header, its progress and the front buffer's offset moved on by `take` bytes. */
  predicate HeaderMoved(c: RxConfig, s: RxState, s': RxState, take: nat) {
    && s.input != [] && |s'.header| == WIRE_SIZE
    && s' == s.(header := s'.header, headerProgress := s'.headerProgress, state := s'.state,
                input := Advance(s.input, take))
    && if s.headerProgress + take < WIRE_SIZE
       then s'.headerProgress == s.headerProgress + take && s'.state == s.state
       else s.headerProgress + take == WIRE_SIZE && s'.headerProgress == 0 && s'.state.ParsingPayload?
            && HeaderOk(c.mtu, s'.header)
  }

  lemma HeaderEffect(c: RxConfig, mem: seq<byte>, s: RxState, s': RxState, take: nat)
    requires HeaderTo(c, mem, s, s') && s.headerProgress < WIRE_SIZE
    requires take == Min(s.input[0].size - s.input[0].offset, WIRE_SIZE - s.headerProgress)
    ensures HeaderMoved(c, s, s', take) && Shape(c, s')
  {
    hide MagicValid, SizeOf;
  }

  lemma MovedProgress(c: RxConfig, s: RxState, s': RxState, take: nat)
    requires HeaderMoved(c, s, s', take) && Progress(c, s) && s.state.ParsingHeader? && 1 <= take
    ensures Progress(c, s') && SameHoldings(s, s') && Gap(s') == Gap(s) + take && s'.payloadProgress == 0
    ensures s'.input == Advance(s.input, take)
  {
    hide HeaderOk;
    EmptyLength();
    LengthPositive(c, s');
  }

  lemma EmptyLength()
    ensures TotalLength(NO_FRAME.segments) == 0
  {
  }

  lemma LengthPositive(c: RxConfig, s: RxState)
    requires |s.header| == WIRE_SIZE && (s.state.ParsingPayload? ==> HeaderOk(c.mtu, s.header))
    ensures s.state.ParsingPayload? ==> SizeOf(s.header) > 0
  {
    hide SizeOf, MagicValid;
  }

  lemma AdvanceSpaced(c: RxConfig, s: RxState, s': RxState, take: nat)
    requires Spaced(c, s) && SameHoldings(s, s') && s.input != []
    requires s'.input == Advance(s.input, take) && Gap(s') == Gap(s) + take && s'.payloadProgress == 0
    ensures Spaced(c, s')
  {
    assert Log(s') == Log(s);
    hide Log, Occurrences, SpacedLog;
  }

  lemma HeaderKeeps(c: RxConfig, mem: seq<byte>, s: RxState, s': RxState)
    requires ParseInv(c, s)
    requires HeaderTo(c, mem, s, s')
    ensures Midway(c, s') && Conserved(c, s, s')
  {
    var take := Min(s.input[0].size - s.input[0].offset, WIRE_SIZE - s.headerProgress);
    HeaderEffect(c, mem, s, s', take);
    assert s.input[0].offset < s.input[0].size;
    hide HeaderTo;
    AdvanceInput(c, s.input, take);
    MovedProgress(c, s, s', take);
    hide HeaderMoved, Progress, InputOk, Owned, Spaced;
    SameHoldingsOwned(c, s, s');
    AdvanceSpaced(c, s, s', take);
  }

  // --- Taking payload bytes ---------------------------------------------------------------------

  function Extend(f: OutputFrame, r: Ref): OutputFrame {
    OutputFrame(f.bid + [r.bid], f.segments + [r.v])
  }

  /** The reference the next payload step adds. */
  function NextRef(c: RxConfig, s: RxState): Ref
    requires s.input != [] && |s.header| == WIRE_SIZE
    requires s.input[0].offset < s.input[0].size && s.payloadProgress < SizeOf(s.header)
  {
    var ib := s.input[0];
    Ref(ib.bid, IoVec(c.pool.Base(ib.bid) + ib.offset, Min(ib.size - ib.offset, SizeOf(s.header) - s.payloadProgress)))
  }

  /** Exactly one reference `r` was added, completing the frame or using up the front buffer. */
  predicate Appended(s: RxState, s': RxState, r: Ref) {
    && s.input != [] && r.bid < |s.refs| && |s.header| == WIRE_SIZE
    && var s1 := s.(refs := s.refs[r.bid := s.refs[r.bid] + 1], input := Advance(s.input, r.v.len));
       var progress := s.payloadProgress + r.v.len;
       if progress < SizeOf(s.header) then
         && s' == s1.(frame := Extend(s.frame, r), payloadProgress := progress)
         && s'.input[0].offset == s'.input[0].size
       else
         && progress == SizeOf(s.header)
         && s' == s1.(output := s.output + [Extend(s.frame, r)], frame := NO_FRAME, payloadProgress := 0,
                      state := ParsingHeader)
  }

  lemma PayloadEffect(c: RxConfig, mem: seq<byte>, s: RxState, s': RxState)
    requires PayloadTo(c, mem, s, s') && s.payloadProgress < SizeOf(s.header)
    ensures Appended(s, s', NextRef(c, s)) && s.input[0].bid < c.pool.count
    ensures Shape(c, s')
  {
    hide SizeOf, CrcAgrees, Content;
  }

  lemma AppendedProgress(c: RxConfig, s: RxState, s': RxState, r: Ref)
    requires Progress(c, s) && s.state.ParsingPayload? && Appended(s, s', r) && 1 <= r.v.len
    ensures Progress(c, s') && Gap(s') == (if s'.state.ParsingHeader? then 0 else WIRE_SIZE)
  {
    hide SizeOf, HeaderOk;
    TotalLengthSnoc(s.frame.segments, r.v);
  }

  /** Exactly one reference was added, to the front input buffer. */
  ghost predicate OneMore(c: RxConfig, s: RxState, s': RxState, r: Ref) {
    && |s.refs| == c.pool.count
    && Log(s') == Log(s) + [r]
    && s.input != [] && r.bid == s.input[0].bid < c.pool.count
    && s'.input == Advance(s.input, r.v.len)
    && s'.refs == s.refs[r.bid := s.refs[r.bid] + 1] && s'.avail == s.avail && s'.used == s.used
  }

  lemma PayloadLog(c: RxConfig, s: RxState, s': RxState, r: Ref)
    requires Appended(s, s', r) && r.bid == s.input[0].bid < c.pool.count == |s.refs|
    requires |s.frame.bid| == |s.frame.segments|
    ensures OneMore(c, s, s', r)
  {
    hide SizeOf, OutLog;
    var f := Extend(s.frame, r);
    assert FrameLog(f) == FrameLog(s.frame) + [r];
    assert FrameLog(NO_FRAME) == [];
    OutLogSnoc(s.output, f);
  }

  lemma AdvanceInInput(input: seq<InputBuffer>, take: nat, b: nat)
    requires input != []
    ensures InInput(Advance(input, take), b) == InInput(input, b)
  {
    var input' := Advance(input, take);
    if i :| 0 <= i < |input| && input[i].bid == b { assert input'[i].bid == b; }
    if i :| 0 <= i < |input'| && input'[i].bid == b { assert input[i].bid == b; }
  }

  lemma OneMoreOwned(c: RxConfig, s: RxState, s': RxState, r: Ref)
    requires OneMore(c, s, s', r) && Owned(c, s)
    ensures Owned(c, s') && Conserved(c, s, s')
  {
    hide Log, Occurrences, Advance;
    assert InInput(s.input, r.bid) by { assert s.input[0].bid == r.bid; }
    forall b: nat
      ensures Held(s', b) == Held(s, b)
      ensures Occurrences(Log(s'), b) == Occurrences(Log(s), b) + if r.bid == b then 1 else 0
    {
      OccurrencesSnoc(Log(s), r, b);
      AdvanceInInput(s.input, r.v.len, b);
    }
    hide InInput, Held;
    assert HeldSet(c, s') == HeldSet(c, s);
  }

  lemma OneMoreSpaced(c: RxConfig, s: RxState, s': RxState, r: Ref)
    requires OneMore(c, s, s', r) && Spaced(c, s) && InputOk(c, s.input) && Unfinished(s.input)
    requires s.state.ParsingPayload?
    requires 1 <= r.v.len && r.v.base == c.pool.Base(r.bid) + s.input[0].offset
    requires s'.state.ParsingHeader? ==> Gap(s') == 0 && s'.payloadProgress == 0
    requires !s'.state.ParsingHeader? ==> s'.input[0].offset == s'.input[0].size
    ensures Spaced(c, s')
  {
    var log, log' := Log(s), Log(s');
    hide Log, Occurrences;
    forall i | 0 < i < |s'.input| ensures Occurrences(log', s'.input[i].bid) == 0 {
      OccurrencesSnoc(log, r, s.input[i].bid);
    }
    forall i, j | 0 <= i < j < |log'| && log'[i].bid == log'[j].bid
      ensures log'[i].End() + WIRE_SIZE <= log'[j].v.base
    {
      assert log'[i] == log[i];
      if j < |log| { assert log'[j] == log[j]; }
    }
    assert forall i | 0 <= i < |log'| && log'[i].bid == r.bid :: i < |log| ==> log'[i] == log[i];
  }

  lemma FrameInLog(s: RxState, i: nat)
    requires i < |s.frame.bid|
    ensures |OutLog(s.output)| + i < |Log(s)| && Log(s)[|OutLog(s.output)| + i].bid == s.frame.bid[i]
  {
    hide OutLog;
  }

  /** The front buffer has no part in an unfinished frame yet. */
  lemma OneMoreDistinct(c: RxConfig, s: RxState, r: Ref)
    requires FrontGap(c, s) && Unfinished(s.input) && s.input != [] && r.bid == s.input[0].bid
    requires s.payloadProgress == 0 ==> s.frame == NO_FRAME
    requires Distinct(s.frame.bid)
    ensures Distinct(s.frame.bid + [r.bid])
  {
    hide Log, OutLog;
    if s.payloadProgress != 0 {
      forall i | 0 <= i < |s.frame.bid| ensures s.frame.bid[i] != r.bid {
        FrameInLog(s, i);
      }
    }
  }

  lemma AppendedDistinct(s: RxState, s': RxState, r: Ref)
    requires FramesDistinct(s) && Appended(s, s', r) && Distinct(s.frame.bid + [r.bid])
    ensures FramesDistinct(s')
  {
    hide SizeOf, Distinct;
    assert Distinct([]) by { NoneDistinct(); }
  }

  lemma NoneDistinct()
    ensures Distinct([])
  {
  }

  lemma PayloadKeeps(c: RxConfig, mem: seq<byte>, s: RxState, s': RxState)
    requires ParseInv(c, s)
    requires PayloadTo(c, mem, s, s')
    ensures Midway(c, s') && Conserved(c, s, s')
  {
    assert s.payloadProgress < SizeOf(s.header) && s.input[0].offset < s.input[0].size;
    assert |s.frame.bid| == |s.frame.segments|;
    hide SizeOf;
    var r := NextRef(c, s);
    PayloadEffect(c, mem, s, s');
    assert 1 <= r.v.len <= s.input[0].size - s.input[0].offset;
    hide PayloadTo;
    AdvanceInput(c, s.input, r.v.len);
    OneMoreDistinct(c, s, r);
    AppendedDistinct(s, s', r);
    PayloadLog(c, s, s', r);
    AppendedProgress(c, s, s', r);
    hide Progress, InputOk, Owned, Spaced, Log, Distinct, FramesDistinct, Shape;
    OneMoreOwned(c, s, s', r);
    OneMoreSpaced(c, s, s', r);
  }

  // --- Retiring the front buffer ----------------------------------------------------------------

  lemma RestInInput(input: seq<InputBuffer>, b: nat)
    requires input != []
    ensures InInput(input, b) == (input[0].bid == b || InInput(input[1..], b))
  {
    if i :| 0 <= i < |input| && input[i].bid == b {
      if i > 0 { assert input[1..][i - 1].bid == b; }
    }
    if i :| 0 <= i < |input[1..]| && input[1..][i].bid == b { assert input[i + 1].bid == b; }
  }

  lemma FrontOnce(c: RxConfig, input: seq<InputBuffer>)
    requires InputOk(c, input) && input != []
    ensures !InInput(input[1..], input[0].bid)
    ensures InputOk(c, input[1..]) && Unfinished(input[1..])
  {
  }

  lemma PopOwned(c: RxConfig, s: RxState, s': RxState)
    requires Owned(c, s) && InputOk(c, s.input) && s.input != []
    requires s' == if s.refs[s.input[0].bid] == 0
                   then s.(avail := s.avail + multiset{s.input[0].bid}, used := s.used - 1, input := s.input[1..])
                   else s.(input := s.input[1..])
    ensures Owned(c, s') && Conserved(c, s, s')
  {
    var bid := s.input[0].bid;
    FrontOnce(c, s.input);
    assert bid < c.pool.count;
    assert Log(s') == Log(s);
    hide Log, Occurrences, InputOk;
    forall b: nat ensures b != bid ==> Held(s', b) == Held(s, b) {
      RestInInput(s.input, b);
    }
    RestInInput(s.input, bid);
    assert Held(s, bid) && (Held(s', bid) <==> s.refs[bid] != 0);
    hide InInput, Held;
    if s.refs[bid] == 0 {
      assert HeldSet(c, s') == HeldSet(c, s) - {bid};
    } else {
      assert HeldSet(c, s') == HeldSet(c, s);
    }
  }

  lemma PopSpaced(c: RxConfig, s: RxState, s': RxState)
    requires Spaced(c, s) && s.input != [] && s'.input == s.input[1..]
    requires Log(s') == Log(s)
    ensures Spaced(c, s')
  {
    hide Log, Occurrences, SpacedLog;
    if s'.input != [] {
      OccurrencesNone(Log(s), s.input[1].bid);
    }
  }

  lemma RetireKeeps(c: RxConfig, s: RxState, s': RxState)
    requires Midway(c, s) && s.input != [] && s.input[0].bid < c.pool.count && Retire(c, s) == (s', Done)
    ensures ParseInv(c, s') && Conserved(c, s, s')
  {
    FrontOnce(c, s.input);
    if s.input[0].offset != s.input[0].size {
      assert s' == s;
    } else {
      PopOwned(c, s, s');
      assert Log(s') == Log(s);
      hide Log;
      PopSpaced(c, s, s');
      hide Owned, Spaced, InputOk, Unfinished;
    }
  }

  // --- The whole loop ---------------------------------------------------------------------------

  lemma ConservedTrans(c: RxConfig, s: RxState, t: RxState, u: RxState)
    requires Conserved(c, s, t) && Conserved(c, t, u)
    ensures Conserved(c, s, u)
  {
  }

  lemma StepKeeps(c: RxConfig, mem: seq<byte>, s: RxState, s': RxState)
    requires ParseInv(c, s) && StepTo(c, mem, s, s')
    ensures ParseInv(c, s') && Conserved(c, s, s')
  {
    var s1 := StepSplits(c, mem, s, s');
    hide StepTo, ParseInv, Midway, Conserved, Retire;
    if HeaderTo(c, mem, s, s1) {
      hide HeaderTo, PayloadTo;
      HeaderKeeps(c, mem, s, s1);
    } else {
      hide HeaderTo, PayloadTo;
      PayloadKeeps(c, mem, s, s1);
    }
    RetireKeeps(c, s1, s');
    ConservedTrans(c, s, s1, s');
  }

  /** A successful parse drains the input queue and keeps the books. */
  lemma {:induction false} ParseKeeps(c: RxConfig, mem: seq<byte>, s: RxState, s': RxState)
    requires ParseInv(c, s) && |mem| == c.pool.Bytes() && Parse(c, mem, s) == (s', Done)
    ensures ParseInv(c, s') && s'.input == [] && Conserved(c, s, s')
    decreases Unread(s.input)
  {
    assert Shape(c, s);
    hide ParseInv, Midway, Conserved, ParseStep, Shape;
    if s.input == [] {
      ConservedRefl(c, s);
    } else {
      var next := ParseStep(c, mem, s).0;
      assert StepTo(c, mem, s, next);
      hide StepTo;
      StepKeeps(c, mem, s, next);
      StepConsumes(c, mem, s, next);
      ParseKeeps(c, mem, next, s');
      ConservedTrans(c, s, next, s');
    }
  }

  lemma ConservedRefl(c: RxConfig, s: RxState)
    ensures Conserved(c, s, s)
  {
  }

  // --- Releasing a written frame ----------------------------------------------------------------

  function Count(bids: seq<nat>, b: nat): nat {
    if bids == [] then 0 else (if bids[0] == b then 1 else 0) + Count(bids[1..], b)
  }

  lemma {:induction false} CountIsOccurrences(f: OutputFrame, b: nat)
    ensures Occurrences(FrameLog(f), b) == Count(f.bid, b)
    decreases |f.bid|
  {
    if f.bid != [] {
      var rest := OutputFrame(f.bid[1..], if f.segments == [] then [] else f.segments[1..]);
      assert FrameLog(f)[1..] == FrameLog(rest);
      CountIsOccurrences(rest, b);
    }
  }

  function PositiveSet(s: RxState): set<nat> {
    set b: nat | b < |s.refs| && s.refs[b] > 0
  }

  function Positive(s: RxState, b: nat): nat
    requires b < |s.refs|
  {
    if s.refs[b] > 0 then 1 else 0
  }

  /** The books half way through a release: references still to be dropped, and those in `kept`. */
  ghost predicate Releasing(s: RxState, bids: seq<nat>, kept: seq<Ref>) {
    && (forall i | 0 <= i < |bids| :: bids[i] < |s.refs|)
    && (forall b: nat | b < |s.refs| :: s.refs[b] == Count(bids, b) + Occurrences(kept, b))
    && s.used == |PositiveSet(s)|
  }

  lemma DropOne(s: RxState, bids: seq<nat>, kept: seq<Ref>)
    requires Releasing(s, bids, kept) && bids != []
    ensures DropRef(s, bids[0]).1 == Done
    ensures var s1 := DropRef(s, bids[0]).0;
      && Releasing(s1, bids[1..], kept)
      && (forall b: nat | b < |s.refs| :: s1.avail[b] + Positive(s1, b) == s.avail[b] + Positive(s, b))
      && (forall b: nat | b >= |s.refs| :: s1.avail[b] == s.avail[b])
  {
    var b, s1 := bids[0], DropRef(s, bids[0]).0;
    assert s.refs[b] > 0;
    hide Occurrences;
    assert forall x: nat | x < |s.refs| :: x != b ==> s1.refs[x] == s.refs[x];
    if s1.refs[b] > 0 {
      assert PositiveSet(s1) == PositiveSet(s);
    } else {
      assert PositiveSet(s1) == PositiveSet(s) - {b};
    }
  }

  lemma {:induction false} ReleaseKeeps(s: RxState, bids: seq<nat>, kept: seq<Ref>)
    requires Releasing(s, bids, kept)
    ensures var r := ReleaseAll(s, bids);
      && r.1 == Done && Releasing(r.0, [], kept)
      && (forall b: nat | b < |s.refs| :: r.0.avail[b] + Positive(r.0, b) == s.avail[b] + Positive(s, b))
      && (forall b: nat | b >= |s.refs| :: r.0.avail[b] == s.avail[b])
    decreases |bids|
  {
    if bids != [] {
      DropOne(s, bids, kept);
      hide Releasing, Positive, DropRef;
      ReleaseKeeps(DropRef(s, bids[0]).0, bids[1..], kept);
    }
  }

  lemma OwnedReleasing(c: RxConfig, s: RxState, kept: seq<Ref>)
    requires Shape(c, s) && Owned(c, s) && s.input == [] && s.output != []
    requires kept == OutLog(s.output[1..]) + FrameLog(s.frame)
    ensures Releasing(s, s.output[0].bid, kept)
    ensures forall b: nat | b < c.pool.count :: HeldCount(s, b) == Positive(s, b)
  {
    var f := s.output[0];
    assert Log(s) == FrameLog(f) + kept;
    hide Log, OutLog, FrameLog;
    forall b: nat ensures Occurrences(Log(s), b) == Count(f.bid, b) + Occurrences(kept, b) {
      OccurrencesConcat(FrameLog(f), kept, b);
      CountIsOccurrences(f, b);
    }
    hide Occurrences, Count;
    forall b: nat ensures !InInput(s.input, b) {}
    hide InInput;
    assert PositiveSet(s) == HeldSet(c, s);
  }

  lemma ReleasedOwned(c: RxConfig, s: RxState)
    requires |s.refs| == c.pool.count && s.input == [] && Releasing(s, [], Log(s))
    requires forall b: nat | b < c.pool.count :: s.avail[b] + Positive(s, b) <= 1
    requires forall b: nat | b >= c.pool.count :: s.avail[b] == 0
    ensures Owned(c, s)
    ensures forall b: nat | b < c.pool.count :: HeldCount(s, b) == Positive(s, b)
  {
    hide Log, Occurrences;
    forall b: nat ensures !InInput(s.input, b) {}
    hide InInput;
    assert PositiveSet(s) == HeldSet(c, s);
  }

  lemma DropPrefixSpaced(x: seq<Ref>, y: seq<Ref>)
    requires SpacedLog(x + y)
    ensures SpacedLog(y)
  {
    var log := x + y;
    assert forall i | 0 <= i < |y| :: y[i] == log[|x| + i];
  }

  /** The state after the front frame's references are dropped and the frame is popped. */
  function Popped(s: RxState): RxState
    requires s.output != [] && forall i | 0 <= i < |s.output[0].bid| :: s.output[0].bid[i] < |s.refs|
  {
    var r := ReleaseAll(s, s.output[0].bid).0;
    r.(output := r.output[1..])
  }

  lemma PoppedLog(s: RxState)
    requires s.output != [] && forall i | 0 <= i < |s.output[0].bid| :: s.output[0].bid[i] < |s.refs|
    ensures Log(Popped(s)) == OutLog(s.output[1..]) + FrameLog(s.frame)
  {
    hide OutLog, FrameLog, ReleaseAll;
  }

  /** Popping the frame leaves the counts as the release left them. */
  lemma PoppedCounts(s: RxState, kept: seq<Ref>)
    requires s.output != [] && forall i | 0 <= i < |s.output[0].bid| :: s.output[0].bid[i] < |s.refs|
    ensures var r := ReleaseAll(s, s.output[0].bid).0;
      && |Popped(s).refs| == |s.refs| && Popped(s).input == s.input && Popped(s).avail == r.avail
      && (Releasing(r, [], kept) ==> Releasing(Popped(s), [], kept))
      && forall b: nat | b < |s.refs| :: Positive(Popped(s), b) == Positive(r, b)
  {
    hide Occurrences, ReleaseAll, Count;
    var r := ReleaseAll(s, s.output[0].bid).0;
    assert PositiveSet(Popped(s)) == PositiveSet(r);
  }

  lemma PopReleases(c: RxConfig, s: RxState, kept: seq<Ref>)
    requires Shape(c, s) && Owned(c, s) && s.input == [] && s.output != []
    requires kept == OutLog(s.output[1..]) + FrameLog(s.frame)
    ensures ReleaseAll(s, s.output[0].bid).1 == Done
    ensures Owned(c, Popped(s)) && Conserved(c, s, Popped(s)) && Log(Popped(s)) == kept
  {
    hide Log, Occurrences, OutLog, FrameLog, Releasing, ReleaseAll, Popped, HeldSet, Held, HeldCount, Positive,
         FrameShape;
    ShapeReleasable(c, s);
    OwnedReleasing(c, s, kept);
    ReleaseKeeps(s, s.output[0].bid, kept);
    PoppedLog(s);
    PoppedCounts(s, kept);
    ReleasedOwned(c, Popped(s));
  }

  lemma PopRest(c: RxConfig, s: RxState, s': RxState, kept: seq<Ref>)
    requires Shape(c, s) && Progress(c, s) && FramesDistinct(s) && SpacedLog(Log(s)) && s.input == [] && s.output != []
    requires s' == s.(refs := s'.refs, avail := s'.avail, used := s'.used, output := s.output[1..])
    requires |s'.refs| == |s.refs| && Log(s') == kept && Log(s) == FrameLog(s.output[0]) + kept
    ensures Shape(c, s') && Progress(c, s') && FramesDistinct(s') && Spaced(c, s')
  {
    hide Log, OutLog, FrameLog;
    DropPrefixSpaced(FrameLog(s.output[0]), kept);
    hide SpacedLog, Distinct, FrameShape;
  }

  lemma FrontOfLog(s: RxState)
    requires s.output != []
    ensures Log(s) == FrameLog(s.output[0]) + (OutLog(s.output[1..]) + FrameLog(s.frame))
  {
    hide FrameLog;
  }

  lemma ShapeReleasable(c: RxConfig, s: RxState)
    requires Shape(c, s) && s.output != []
    ensures forall i | 0 <= i < |s.output[0].bid| :: s.output[0].bid[i] < |s.refs|
  {
  }

  /** Completing a write releases exactly the front frame, never fails, and keeps the books. */
  lemma PopKeeps(c: RxConfig, s: RxState)
    requires ParseInv(c, s) && s.input == [] && s.output != []
    ensures ReleaseAll(s, s.output[0].bid).1 == Done
    ensures ParseInv(c, Popped(s)) && Conserved(c, s, Popped(s))
  {
    hide Log, OutLog, FrameLog, ReleaseAll, Shape, Progress, Owned, SpacedLog, FrontGap, FramesDistinct, Conserved;
    var kept := OutLog(s.output[1..]) + FrameLog(s.frame);
    FrontOfLog(s);
    ShapeReleasable(c, s);
    PopReleases(c, s, kept);
    PopRest(c, s, Popped(s), kept);
    hide Popped;
  }

  // --- How many references one buffer can have --------------------------------------------------

  /** Every reference into `b` lies inside the buffer. */
  predicate LogInside(p: Pool, log: seq<Ref>) {
    forall i | 0 <= i < |log| :: p.Holds(log[i].bid, log[i].v)
  }

  /** The references into one buffer, spaced as they are, need room. */
  lemma {:induction false} SpanNeeded(log: seq<Ref>, b: nat, base: nat) returns (last: nat)
    requires SpacedLog(log) && Occurrences(log, b) > 0
    requires forall i | 0 <= i < |log| && log[i].bid == b :: base <= log[i].v.base
    ensures last < |log| && log[last].bid == b
    ensures log[last].End() >= base + 17 * Occurrences(log, b) - 16
    decreases |log|
  {
    var init, r := log[..|log| - 1], log[|log| - 1];
    assert log == init + [r];
    OccurrencesSnoc(init, r, b);
    assert SpacedLog(init);
    if Occurrences(init, b) == 0 {
      last := |log| - 1;
    } else {
      last := SpanNeeded(init, b, base);
      if r.bid == b {
        assert log[last].End() + WIRE_SIZE <= r.v.base;
        last := |log| - 1;
      }
    }
  }

  lemma {:induction false} OutLogInside(p: Pool, output: seq<OutputFrame>)
    requires forall i | 0 <= i < |output| :: FrameShape(p, output[i])
    ensures LogInside(p, OutLog(output))
  {
    if output != [] {
      OutLogInside(p, output[1..]);
      assert LogInside(p, FrameLog(output[0]));
    }
  }

  /** A buffer of `size` bytes backs at most `(size + 16) / 17` pending frame parts, so 32-bit counts never overflow. */
  lemma RefcountBound(c: RxConfig, s: RxState, b: nat)
    requires ParseInv(c, s) && b < c.pool.count && s.refs[b] > 0
    ensures (WIRE_SIZE + 1) * s.refs[b] - WIRE_SIZE <= c.pool.size
    ensures c.pool.size < U32_LIMIT ==> s.refs[b] < 0x8000_0000
  {
    OutLogInside(c.pool, s.output);
    assert LogInside(c.pool, FrameLog(s.frame));
    assert LogInside(c.pool, Log(s));
    assert s.refs[b] == Occurrences(Log(s), b) && SpacedLog(Log(s));
    hide ParseInv, Log, Occurrences, SpacedLog;
    var last := SpanNeeded(Log(s), b, c.pool.Base(b));
  }
}
