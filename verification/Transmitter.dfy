/** The transmitting half of a session, updating its fields in place. */
module Transmitters {
  import opened ByteStreams
  import opened Outcomes
  import opened Completions
  import opened BufferGroups
  import opened FrameHeaders
  import opened TransmitterSpec
  import Crc32c

  class Transmitter {
    const ring: IoUring
    const bg: BufferGroup
    /** Which checksum path the processor supports. */
    const sse4: bool
    const is64Bit: bool

    var queue: seq<OutFrame>
    var coolingDown: bool
    var sendInProgress: bool
    var current: Option<CurrentFrame>

    ghost predicate Valid()
      reads this
    {
      && bg.data.Length == bg.pool.Bytes()
      && bg.pool.size < U32_LIMIT
    }

    ghost function Mem(): (mem: seq<byte>)
      reads bg.data
    {
      bg.data[..]
    }

    /** The transmitter's fields, with what it has handed to the kernel, as a value. */
    ghost function View(): (s: TxState)
      reads this, ring, bg
    {
      TxState(queue, coolingDown, sendInProgress, current, bg.avail, ring.pending[READ], ring.pending[SEND])
    }

    constructor (ring: IoUring, bg: BufferGroup, sse4: bool, is64Bit: bool)
      requires bg.data.Length == bg.pool.Bytes() && bg.pool.size < U32_LIMIT
      ensures this.ring == ring && this.bg == bg && Valid()
      ensures View() == TxState([], false, false, None, bg.avail, ring.pending[READ], ring.pending[SEND])
    {
      this.ring, this.bg, this.sse4, this.is64Bit := ring, bg, sse4, is64Bit;
      queue, coolingDown, sendInProgress, current := [], false, false, None;
    }

    /** A transmitter with one buffer per packet, each as large as the TUN device's MTU. */
    static method CreateTransmitter(ring: IoUring, mtu: nat, queueLength: nat, setupFails: bool,
                                    sse4: bool, is64Bit: bool)
      returns (r: Result<Transmitter>)
      requires mtu < U32_LIMIT
      modifies ring`groups, ring`nextBgid
      ensures r.Fail? <==> queueLength == 0 || mtu == 0 || setupFails
      ensures queueLength == 0 || mtu == 0 ==> r == Fail(InvalidArgument)
      ensures queueLength != 0 && mtu != 0 && setupFails ==> r == Fail(RingBufferRingSetupFailed)
      ensures r.Ok? ==>
                && r.value.Valid() && r.value.ring == ring && r.value.bg.pool == Pool(queueLength, mtu)
                && fresh(r.value) && fresh(r.value.bg) && fresh(r.value.bg.data)
                && r.value.View() == TxState([], false, false, None, r.value.View().avail,
                                             ring.pending[READ], ring.pending[SEND])
                && forall b: nat :: r.value.View().avail[b] == if b < queueLength then 1 else 0
    {
      var bg := ring.CreateBufferGroup(queueLength, mtu, setupFails);
      if bg.Fail? {
        return Fail(bg.error);
      }
      var transmitter := new Transmitter(ring, bg.value, sse4, is64Bit);
      return Ok(transmitter);
    }

    method ArmRead()
      requires Valid()
      modifies ring`pending
      ensures Valid() && View() == TransmitterSpec.ArmRead(old(View()))
      ensures forall op | op != READ :: ring.pending[op] == old(ring.pending[op])
    {
      ring.Submit(READ);
    }

    /** The header of a frame: its size and checksum filled into a fresh header object. */
    method CreateFrameHeader(f: OutFrame) returns (r: Result<seq<byte>>)
      requires Valid()
      ensures r == TransmitterSpec.CreateFrameHeader(bg.pool, Mem(), f)
    {
      var buffer := bg.pool.GetBuffer(f.bid, Some(f.size));
      if buffer.Fail? {
        return Fail(buffer.error);
      }
      BufferInside(bg.pool, f.bid);
      hide Pool.Base, Pool.Bytes, Encode, Crc32c.Checksum, WordValue;
      var packet := bg.data[buffer.value.base..buffer.value.base + buffer.value.len];
      var crc := Crc32c.OfSpan(Crc32c.Span(buffer.value.base, packet), sse4, is64Bit);
      var header := FillHeader(f.size, WordValue(crc));
      return Ok(header);
    }

    static method FillHeader(size: nat, crc: nat) returns (bytes: seq<byte>)
      requires size < U32_LIMIT && crc < U32_LIMIT
      ensures bytes == Encode(size, crc)
    {
      hide PutU32;
      var header := new FrameHeader();
      header.SetSize(size);
      header.SetCrc(crc);
      return header.Bytes();
    }

    method KickSend() returns (r: Outcome)
      requires Valid()
      modifies this`sendInProgress, this`current, ring`pending
      ensures Valid() && (View(), r) == TransmitterSpec.KickSend(bg.pool, Mem(), old(View()))
      ensures forall op | op != SEND :: ring.pending[op] == old(ring.pending[op])
    {
      hide TransmitterSpec.CreateFrameHeader;
      if sendInProgress {
        return Done;
      }
      if queue == [] {
        return Done;
      }
      if current.None? {
        var frame := queue[0];
        var header := CreateFrameHeader(frame);
        if header.Fail? {
          return Failed(header.error);
        }
        current := Some(CurrentFrame(frame, header.value, 0, []));
      }
      var state := current.value;
      var payload := bg.pool.GetBuffer(state.frame.bid, Some(state.frame.size));
      if payload.Fail? {
        return Failed(payload.error);
      }
      if state.bytesSent >= WIRE_SIZE + state.frame.size {
        return Failed(InvalidState);
      }
      var segments: seq<Segment> := [];
      if state.bytesSent < WIRE_SIZE {
        segments := segments + [HeaderSegment(state.bytesSent, WIRE_SIZE - state.bytesSent)];
        segments := segments + [PoolSegment(payload.value)];
      } else {
        var done := state.bytesSent - WIRE_SIZE;
        segments := segments + [PoolSegment(IoVec(payload.value.base + done, payload.value.len - done))];
      }
      assert segments == Remaining(payload.value, state.bytesSent);
      current := Some(state.(segments := segments));
      ring.Submit(SEND);
      sendInProgress := true;
      return Done;
    }

    method HandleReadCqe(cqe: Cqe) returns (r: Outcome)
      requires Valid()
      modifies this, ring`pending
      ensures Valid() && (View(), r) == HandleRead(bg.pool, Mem(), old(View()), cqe)
      ensures forall op | op != READ && op != SEND :: ring.pending[op] == old(ring.pending[op])
    {
      hide TransmitterSpec.KickSend;
      if cqe.op != READ {
        return Failed(WrongOperationType);
      }
      if !cqe.IsOk() {
        if cqe.Error() == ENOBUFS && !cqe.more {
          coolingDown := true;
          r := KickSend();
          return r;
        }
        return Failed(TunReadFailed);
      }
      if cqe.bid.None? {
        return Failed(ReadCqeMissingBid);
      }
      queue := queue + [OutFrame(cqe.bid.value, cqe.result)];
      if !cqe.more && !coolingDown {
        ArmRead();
      }
      r := KickSend();
    }

    method HandleSendCqe(cqe: Cqe) returns (r: Outcome)
      requires Valid()
      modifies this, bg`avail, ring`pending
      ensures Valid() && (View(), r) == HandleSend(bg.pool, Mem(), old(View()), cqe)
      ensures forall op | op != READ && op != SEND :: ring.pending[op] == old(ring.pending[op])
    {
      hide TransmitterSpec.KickSend, FrameSent;
      if cqe.op != SEND {
        return Failed(WrongOperationType);
      }
      sendInProgress := false;
      if !cqe.IsOk() {
        return Failed(SendFailed);
      }
      var sent := cqe.result;
      if sent == 0 {
        return Failed(SendReturnedZero);
      }
      if current.None? {
        return Failed(InvalidState);
      }
      var state := current.value;
      var total := WIRE_SIZE + state.frame.size;
      if state.bytesSent + sent > total {
        return Failed(InvalidState);
      }
      current := Some(state.(bytesSent := state.bytesSent + sent));
      if state.bytesSent + sent == total {
        r := PopSent();
        if r.Failed? {
          return r;
        }
      }
      if coolingDown {
        if |queue| <= bg.pool.count / 2 {
          ArmRead();
          coolingDown := false;
        }
      }
      r := KickSend();
    }

    /** The frame sent to the end leaves the queue, and its buffer goes back to the kernel. */
    method PopSent() returns (r: Outcome)
      requires Valid() && current.Some?
      modifies this`current, this`queue, bg`avail
      ensures Valid() && (View(), r) == FrameSent(bg.pool, old(View()))
    {
      var bid := current.value.frame.bid;
      current := None;
      if queue == [] {
        return Failed(AssertionFailed);
      }
      queue := queue[1..];
      r := bg.ReturnBuffer(bid);
    }

    method HandleCqe(cqe: Cqe) returns (r: Outcome)
      requires Valid()
      modifies this, bg`avail, ring`pending
      ensures Valid() && (View(), r) == TransmitterSpec.HandleCqe(bg.pool, Mem(), old(View()), cqe)
      ensures forall op | op != READ && op != SEND :: ring.pending[op] == old(ring.pending[op])
    {
      hide HandleRead, HandleSend;
      if cqe.op != SEND && cqe.op != READ {
        return Failed(WrongOperationType);
      }
      if cqe.op == SEND {
        r := HandleSendCqe(cqe);
      } else {
        r := HandleReadCqe(cqe);
      }
    }
  }
}
