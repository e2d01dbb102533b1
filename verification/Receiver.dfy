/** The receiving half of a session, updating its fields in place. */
module Receivers {
  import opened ByteStreams
  import opened Outcomes
  import opened Completions
  import opened BufferGroups
  import opened FrameHeaders
  import opened ReceiverSpec
  import Crc32c

  class Receiver {
    const ring: IoUring
    const bg: BufferGroup
    const mtu: nat
    /** Which checksum path the processor supports. */
    const sse4: bool
    const is64Bit: bool

    var coolingDown: bool
    var used: int
    var input: seq<InputBuffer>
    const refs: array<int>
    var state: ParseState
    const header: FrameHeader
    var headerProgress: nat
    var frame: OutputFrame
    var payloadProgress: nat
    var output: seq<OutputFrame>
    var writeInProgress: bool

    ghost predicate Valid()
      reads this, header
    {
      && header.Valid()
      && bg.data.Length == bg.pool.Bytes()
      && refs.Length == bg.pool.count
      && header.data != bg.data
      && {refs as object} !! {header.data, bg.data}
    }

    ghost function Config(): RxConfig {
      RxConfig(bg.pool, mtu)
    }

    ghost function Mem(): (mem: seq<byte>)
      reads bg.data
    {
      bg.data[..]
    }

    /** The receiver's fields, with what it has handed to the kernel, as a value. */
    ghost function View(): (s: RxState)
      requires Valid()
      reads this, ring, bg, refs, header, header.data
    {
      RxState(coolingDown, used, input, refs[..], state, header.Bytes(), headerProgress, frame, payloadProgress,
              output, writeInProgress, bg.avail, ring.pending[RECV], ring.pending[WRITE])
    }

    constructor (ring: IoUring, bg: BufferGroup, mtu: nat, sse4: bool, is64Bit: bool)
      requires bg.data.Length == bg.pool.Bytes()
      ensures this.ring == ring && this.bg == bg && this.mtu == mtu
      ensures Valid() && fresh(refs) && fresh(header) && fresh(header.data)
      ensures View() == RxState(false, 0, [], seq(bg.pool.count, _ => 0), ParsingHeader,
                                BLANK_HEADER, 0, NO_FRAME, 0, [], false,
                                bg.avail, ring.pending[RECV], ring.pending[WRITE])
    {
      this.ring, this.bg, this.mtu, this.sse4, this.is64Bit := ring, bg, mtu, sse4, is64Bit;
      coolingDown, used, input, state := false, 0, [], ParsingHeader;
      refs := new int[bg.pool.count](_ => 0);
      header := new FrameHeader();
      headerProgress, frame, payloadProgress, output, writeInProgress := 0, NO_FRAME, 0, [], false;
    }

    /** A receiver with a buffer group of its own, whose buffers all belong to the kernel. */
    static method CreateReceiver(ring: IoUring, mtu: nat, queueLength: nat, bufferSize: nat, setupFails: bool,
                                 sse4: bool, is64Bit: bool)
      returns (r: Result<Receiver>)
      modifies ring`groups, ring`nextBgid
      ensures r.Fail? <==> queueLength == 0 || bufferSize == 0 || setupFails
      ensures queueLength == 0 || bufferSize == 0 ==> r == Fail(InvalidArgument)
      ensures queueLength != 0 && bufferSize != 0 && setupFails ==> r == Fail(RingBufferRingSetupFailed)
      ensures r.Ok? ==>
                && r.value.Valid() && r.value.ring == ring
                && fresh(r.value) && fresh(r.value.bg) && fresh(r.value.bg.data)
                && fresh(r.value.refs) && fresh(r.value.header) && fresh(r.value.header.data)
                && r.value.Config() == RxConfig(Pool(queueLength, bufferSize), mtu)
                && r.value.View() == RxState(false, 0, [], seq(queueLength, _ => 0), ParsingHeader, BLANK_HEADER, 0,
                                             NO_FRAME, 0, [], false, r.value.View().avail,
                                             ring.pending[RECV], ring.pending[WRITE])
                && forall b: nat :: r.value.View().avail[b] == if b < queueLength then 1 else 0
    {
      if queueLength == 0 || bufferSize == 0 {
        return Fail(InvalidArgument);
      }
      var bg := ring.CreateBufferGroup(queueLength, bufferSize, setupFails);
      if bg.Fail? {
        return Fail(bg.error);
      }
      var receiver := new Receiver(ring, bg.value, mtu, sse4, is64Bit);
      return Ok(receiver);
    }

    method ArmRecv()
      requires Valid()
      modifies ring`pending
      ensures Valid() && View() == ReceiverSpec.ArmRecv(old(View()))
      ensures forall op | op != RECV :: ring.pending[op] == old(ring.pending[op])
    {
      ring.Submit(RECV);
    }

    method KickWrite()
      requires Valid()
      modifies this`writeInProgress, ring`pending
      ensures Valid() && View() == ReceiverSpec.KickWrite(old(View()))
      ensures forall op | op != WRITE :: ring.pending[op] == old(ring.pending[op])
    {
      if writeInProgress {
        return;
      }
      if output == [] {
        return;
      }
      ring.Submit(WRITE);
      writeInProgress := true;
    }

    /** The header branch of the parsing loop. */
    method TakeHeader() returns (r: Outcome)
      requires Valid() && CanTake(Config(), Mem(), View())
      modifies this, header.data
      ensures Valid() && (View(), r) == ReceiverSpec.TakeHeader(Config(), Mem(), old(View()))
    {
      hide MagicValid, SizeOf, FilledHeader, FrameShape;
      if headerProgress >= WIRE_SIZE {
        return Failed(InvalidState);
      }
      var ib := input[0];
      var span := bg.pool.GetBuffer(ib.bid, Some(ib.size));
      if span.Fail? {
        return Failed(span.error);
      }
      var take := Min(ib.size - ib.offset, WIRE_SIZE - headerProgress);
      CopyHeaderBytes(ib, take);
      input := Advance(input, take);
      headerProgress := headerProgress + take;
      if headerProgress == WIRE_SIZE {
        headerProgress := 0;
        if !MagicValid(header.Bytes()) {
          return Failed(InvalidMagic);
        }
        if SizeOf(header.Bytes()) == 0 || SizeOf(header.Bytes()) > mtu {
          return Failed(InvalidSize);
        }
        state := ParsingPayload;
      }
      return Done;
    }

    /** Copies `take` bytes of the input buffer into the header, behind those already there. */
    method CopyHeaderBytes(ib: InputBuffer, take: nat)
      requires Valid() && CanTake(Config(), Mem(), View()) && ib == input[0]
      requires headerProgress + take <= WIRE_SIZE && ib.bid < bg.pool.count && ib.offset + take <= bg.pool.size
      modifies header.data
      ensures Valid() && header.Bytes() == FilledHeader(Config(), Mem(), old(View()), take)
    {
      BufferInside(bg.pool, ib.bid);
      var from := bg.pool.Base(ib.bid) + ib.offset;
      hide Pool.Base, Pool.Bytes;
      ghost var was := header.data[..];
      ghost var bytes := bg.pool.Window(bg.data[..], ib.bid, ib.offset, take);
      for i := 0 to take
        invariant forall k | 0 <= k < WIRE_SIZE ::
                    header.data[k] == if headerProgress <= k < headerProgress + i then bytes[k - headerProgress]
                                      else was[k]
      {
        header.data[headerProgress + i] := bg.data[from + i];
      }
    }

    /** Compares the header's checksum with that of the frame's segments. */
    method FrameCrcAgrees() returns (agrees: bool)
      requires Valid() && FrameShape(bg.pool, frame)
      ensures agrees == CrcAgrees(header.Bytes(), Content(bg.pool, Mem(), frame))
    {
      hide Crc32c.Checksum, WordValue;
      ShapeInBounds(bg.pool, bg.data[..], frame);
      var crc := Crc32c.OfIoVecs(bg.data[..], frame.segments, sse4, is64Bit);
      agrees := CrcOf(header.Bytes()) == WordValue(crc);
    }

    /** The payload branch of the parsing loop. */
    method TakePayload() returns (r: Outcome)
      requires Valid() && CanTake(Config(), Mem(), View())
      modifies this, refs
      ensures Valid() && (View(), r) == ReceiverSpec.TakePayload(Config(), Mem(), old(View()))
    {
      hide SizeOf, CrcAgrees, Content, MagicValid;
      ghost var s := View();
      var payloadSize := SizeOf(header.Bytes());
      if payloadProgress >= payloadSize {
        return Failed(InvalidState);
      }
      var ib := input[0];
      var span := bg.pool.GetBuffer(ib.bid, Some(ib.size));
      if span.Fail? {
        return Failed(span.error);
      }
      var take := Min(ib.size - ib.offset, payloadSize - payloadProgress);
      refs[ib.bid] := refs[ib.bid] + 1;
      assert refs[..] == s.refs[ib.bid := s.refs[ib.bid] + 1];
      frame := OutputFrame(frame.bid + [ib.bid], frame.segments + [IoVec(span.value.base + ib.offset, take)]);
      input := Advance(input, take);
      payloadProgress := payloadProgress + take;
      if payloadProgress == payloadSize {
        r := FinishFrame();
        return r;
      }
      return Done;
    }

    /** Queues the assembled frame if its checksum is right. */
    method FinishFrame() returns (r: Outcome)
      requires Valid() && FrameShape(bg.pool, frame)
      modifies this
      ensures Valid() && r == if CrcAgrees(old(View()).header, Content(bg.pool, Mem(), old(frame))) then Done
                              else Failed(FrameCrcMismatch)
      ensures r.Done? ==> View() == old(View()).(payloadProgress := 0, output := old(output) + [old(frame)],
                                                 frame := NO_FRAME, state := ParsingHeader)
      ensures r.Failed? ==> View() == old(View()).(payloadProgress := 0)
    {
      hide CrcAgrees, Content, FrameShape;
      payloadProgress := 0;
      var agrees := FrameCrcAgrees();
      if !agrees {
        return Failed(FrameCrcMismatch);
      }
      output := output + [frame];
      frame := NO_FRAME;
      state := ParsingHeader;
      return Done;
    }

    /** The end of the parsing loop's body: a used-up buffer leaves the input queue. */
    method RetireFront() returns (r: Outcome)
      requires Valid() && input != [] && input[0].bid < bg.pool.count
      modifies this, bg`avail
      ensures Valid() && (View(), r) == Retire(Config(), old(View()))
    {
      var ib := input[0];
      if ib.offset == ib.size {
        if refs[ib.bid] == 0 {
          r := bg.ReturnBuffer(ib.bid);
          assert r.Done?;
          used := used - 1;
        }
        input := input[1..];
      }
      return Done;
    }

    method KickParse() returns (r: Outcome)
      requires Valid() && Shape(Config(), View())
      modifies this, bg`avail, refs, header.data
      ensures Valid() && (View(), r) == Parse(Config(), Mem(), old(View()))
    {
      hide ReceiverSpec.TakeHeader, ReceiverSpec.TakePayload, Retire, Shape, Unread;
      ghost var c, mem, goal := Config(), Mem(), Parse(Config(), Mem(), View());
      while input != []
        invariant Valid() && Shape(c, View()) && Parse(c, mem, View()) == goal
        decreases Unread(input)
      {
        ghost var s := View();
        ParseUnfolds(c, mem, s);
        if input[0].offset >= input[0].size {
          return Failed(InvalidState);
        }
        if state == ParsingHeader {
          r := TakeHeader();
        } else if state == ParsingPayload {
          r := TakePayload();
        } else {
          r := Failed(InvalidEnumValue);
        }
        if r.Failed? {
          return r;
        }
        r := RetireFront();
        assert (View(), r) == ParseStep(c, mem, s);
        if r.Failed? {
          return r;
        }
        StepConsumes(c, mem, s, View());
      }
      ParseUnfolds(c, mem, View());
      return Done;
    }

    /** Drops one reference. */
    method DropReference(b: nat) returns (r: Outcome)
      requires Valid() && b < refs.Length
      modifies this`used, refs, bg`avail
      ensures Valid() && (View(), r) == DropRef(old(View()), b)
    {
      ghost var s := View();
      refs[b] := refs[b] - 1;
      assert refs[..] == s.refs[b := s.refs[b] - 1];
      if refs[b] <= 0 {
        if refs[b] != 0 {
          return Failed(AssertionFailed);
        }
        r := bg.ReturnBuffer(b);
        assert r.Done?;
        used := used - 1;
      }
      return Done;
    }

    /** Drops the front frame's references, returning the buffers nobody needs any more. */
    method ReleaseFront() returns (r: Outcome)
      requires Valid() && Shape(Config(), View()) && output != []
      modifies this`used, refs, bg`avail
      ensures Valid() && (View(), r) == ReleaseAll(old(View()), output[0].bid)
    {
      var bids := output[0].bid;
      assert forall i | 0 <= i < |bids| :: bids[i] < refs.Length;
      hide Shape, DropRef;
      assert bids[0..] == bids;
      for i := 0 to |bids|
        invariant Valid() && ReleaseAll(View(), bids[i..]) == ReleaseAll(old(View()), bids)
      {
        assert bids[i..][0] == bids[i] && bids[i..][1..] == bids[i + 1..];
        r := DropReference(bids[i]);
        if r.Failed? {
          return r;
        }
      }
      assert bids[|bids|..] == [];
      return Done;
    }

    method HandleWriteCqe(cqe: Cqe) returns (r: Outcome)
      requires Valid() && Shape(Config(), View())
      modifies this, bg`avail, refs, ring`pending
      ensures Valid() && (View(), r) == HandleWrite(Config(), old(View()), cqe)
      ensures forall op | op != RECV && op != WRITE :: ring.pending[op] == old(ring.pending[op])
    {
      hide ReleaseAll, WriteDone, FrameShape;
      if cqe.op != WRITE {
        return Failed(WrongOperationType);
      }
      writeInProgress := false;
      if output == [] {
        return Failed(WriteUnknownFrame);
      }
      if !cqe.IsOk() {
        return Failed(TunWriteFailed);
      }
      var frameSize := TotalLength(output[0].segments);
      if cqe.result != frameSize {
        return Failed(TunPartialWrite);
      }
      r := ReleaseFront();
      if r.Failed? {
        return r;
      }
      FinishWrite();
      return Done;
    }

    /** The end of a successful write. */
    method FinishWrite()
      requires Valid() && output != []
      modifies this, ring`pending
      ensures Valid() && View() == WriteDone(Config(), old(View()))
      ensures forall op | op != RECV && op != WRITE :: ring.pending[op] == old(ring.pending[op])
    {
      output := output[1..];
      if coolingDown && used < bg.pool.count / 2 {
        ArmRecv();
        coolingDown := false;
      }
      KickWrite();
    }

    method HandleRecvCqe(cqe: Cqe) returns (r: Outcome)
      requires Valid() && Shape(Config(), View())
      modifies this, bg`avail, refs, header.data, ring`pending
      ensures Valid() && (View(), r) == HandleRecv(Config(), Mem(), old(View()), cqe)
      ensures forall op | op != RECV && op != WRITE :: ring.pending[op] == old(ring.pending[op])
    {
      hide Parse;
      if cqe.op != RECV {
        return Failed(WrongOperationType);
      }
      if !cqe.IsOk() {
        if cqe.Error() == ENOBUFS && !cqe.more {
          coolingDown := true;
          KickWrite();
          return Done;
        }
        return Failed(RecvFailed);
      }
      used := used + 1;
      if cqe.result == 0 {
        return Failed(PeerClosed);
      }
      if cqe.bid.None? {
        return Failed(RecvCqeMissingBid);
      }
      input := input + [InputBuffer(cqe.bid.value, cqe.result, 0)];
      r := KickParse();
      if r.Failed? {
        return r;
      }
      if !cqe.more && !coolingDown {
        ArmRecv();
      }
      KickWrite();
      return Done;
    }

    method HandleCqe(cqe: Cqe) returns (r: Outcome)
      requires Valid() && Shape(Config(), View())
      modifies this, bg`avail, refs, header.data, ring`pending
      ensures Valid() && (View(), r) == ReceiverSpec.HandleCqe(Config(), Mem(), old(View()), cqe)
      ensures forall op | op != RECV && op != WRITE :: ring.pending[op] == old(ring.pending[op])
    {
      hide HandleRecv, HandleWrite;
      if cqe.op != RECV && cqe.op != WRITE {
        return Failed(WrongOperationType);
      }
      if cqe.op == RECV {
        r := HandleRecvCqe(cqe);
      } else {
        r := HandleWriteCqe(cqe);
      }
    }
  }
}
