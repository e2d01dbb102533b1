/** A tunnel session: one ring, one receiver, one transmitter, and the loop that serves them. */
module Sessions {
  import opened Outcomes
  import opened Completions
  import opened BufferGroups
  import opened FrameHeaders
  import opened Receivers
  import opened Transmitters
  import ReceiverSpec
  import TransmitterSpec
  import opened SessionSystem
  import opened KernelMemory

  lemma AllOwned(avail: multiset<nat>, n: nat)
    requires forall b: nat :: avail[b] == if b < n then 1 else 0
    ensures avail == Everything(n)
  {
    hide Everything;
  }

  class TunnelSession {
    const ring: IoUring
    const receiver: Receiver
    const transmitter: Transmitter
    const monitorMode: bool

    /** The halves share the ring and nothing else. */
    ghost predicate Valid()
      reads this, receiver, receiver.header, transmitter
    {
      && receiver.Valid() && transmitter.Valid()
      && receiver.ring == ring && transmitter.ring == ring
      && receiver.bg != transmitter.bg && receiver.bg.data != transmitter.bg.data
      && receiver.header.data != transmitter.bg.data
      && {receiver.refs as object} !! {transmitter.bg.data}
    }

    ghost function Settings(): Config {
      Config(receiver.Config(), transmitter.bg.pool, monitorMode)
    }

    /** The session stands where the state machine stands in `s`. */
    ghost predicate Represents(s: Session)
      reads this, ring, receiver, receiver.bg, receiver.bg.data, receiver.refs, receiver.header, receiver.header.data,
            transmitter, transmitter.bg, transmitter.bg.data
    {
      && Valid()
      && s.rx.rx == receiver.View() && s.rx.mem == receiver.Mem()
      && s.tx.tx == transmitter.View() && s.tx.mem == transmitter.Mem()
    }

    /** Both halves as they are created, on a ring with nothing submitted. */
    ghost predicate New()
      reads this, ring, receiver, receiver.bg, receiver.refs, receiver.header, receiver.header.data,
            transmitter, transmitter.bg
    {
      && Valid()
      && receiver.View() == ReceiverSpec.RxState(
           false, 0, [], seq(receiver.bg.pool.count, _ => 0), ReceiverSpec.ParsingHeader, BLANK_HEADER, 0,
           ReceiverSpec.NO_FRAME, 0, [], false, Everything(receiver.bg.pool.count), 0, 0)
      && transmitter.View() == TransmitterSpec.TxState(
           [], false, false, None, Everything(transmitter.bg.pool.count), 0, 0)
    }

    constructor (ring: IoUring, receiver: Receiver, transmitter: Transmitter, monitorMode: bool)
      ensures this.ring == ring && this.receiver == receiver && this.transmitter == transmitter
      ensures this.monitorMode == monitorMode
    {
      this.ring, this.receiver, this.transmitter, this.monitorMode := ring, receiver, transmitter, monitorMode;
    }

    /** Both halves with groups of their own; the first failure is reported. */
    static method CreateSession(ring: IoUring, mtu: nat, txQueueLength: nat, rxQueueLength: nat, rxBufferSize: nat,
                                rxSetupFails: bool, txSetupFails: bool, sse4: bool, is64Bit: bool, monitorMode: bool)
      returns (r: Result<TunnelSession>)
      requires mtu < U32_LIMIT
      modifies ring`groups, ring`nextBgid
      ensures rxQueueLength == 0 || rxBufferSize == 0 ==> r == Fail(InvalidArgument)
      ensures rxQueueLength != 0 && rxBufferSize != 0 && rxSetupFails ==> r == Fail(RingBufferRingSetupFailed)
      ensures rxQueueLength != 0 && rxBufferSize != 0 && !rxSetupFails ==>
                && (txQueueLength == 0 || mtu == 0 ==> r == Fail(InvalidArgument))
                && (txQueueLength != 0 && mtu != 0 && txSetupFails ==> r == Fail(RingBufferRingSetupFailed))
                && (txQueueLength != 0 && mtu != 0 && !txSetupFails ==> r.Ok?)
      ensures r.Ok? ==>
                && r.value.Valid() && r.value.ring == ring && r.value.monitorMode == monitorMode
                && r.value.Settings() == Config(ReceiverSpec.RxConfig(Pool(rxQueueLength, rxBufferSize), mtu),
                                                Pool(txQueueLength, mtu), monitorMode)
                && Sound(r.value.Settings())
                && (ring.pending == multiset{} ==> r.value.New())
                && (forall b: nat :: r.value.receiver.View().avail[b] == if b < rxQueueLength then 1 else 0)
                && (forall b: nat :: r.value.transmitter.View().avail[b] == if b < txQueueLength then 1 else 0)
    {
      var receiver := Receiver.CreateReceiver(ring, mtu, rxQueueLength, rxBufferSize, rxSetupFails, sse4, is64Bit);
      if receiver.Fail? {
        return Fail(receiver.error);
      }
      var transmitter := Transmitter.CreateTransmitter(ring, mtu, txQueueLength, txSetupFails, sse4, is64Bit);
      if transmitter.Fail? {
        return Fail(transmitter.error);
      }
      AllOwned(receiver.value.bg.avail, rxQueueLength);
      AllOwned(transmitter.value.bg.avail, txQueueLength);
      var session := new TunnelSession(ring, receiver.value, transmitter.value, monitorMode);
      return Ok(session);
    }

    /** The first receive, the first read, and the monitor's timer: a new session becomes a started one. */
    method Arm()
      requires Valid()
      modifies ring`pending
      ensures Valid()
      ensures receiver.View() == ReceiverSpec.ArmRecv(old(receiver.View()))
      ensures transmitter.View() == TransmitterSpec.ArmRead(old(transmitter.View()))
      ensures ring.pending[TIMEOUT] == old(ring.pending[TIMEOUT]) + if monitorMode then 1 else 0
      ensures old(New()) ==> Represents(Start(Settings(), receiver.Mem(), transmitter.Mem()))
    {
      receiver.ArmRecv();
      transmitter.ArmRead();
      if monitorMode {
        ring.Submit(TIMEOUT);
      }
    }

    /** One round of the loop: what the session does with the oldest completion is the state machine's `Wait`. */
    method Serve(cqe: Cqe, ghost s: Session) returns (r: Outcome)
      requires s.cq != [] && s.cq[0] == cqe
      requires Represents(s) && Consistent(Settings(), s)
      modifies receiver, receiver.bg`avail, receiver.refs, receiver.header.data, transmitter, transmitter.bg`avail,
               ring`pending
      ensures Enabled(Settings(), s, Wait) && Represents(After(Settings(), s, Wait))
      ensures After(Settings(), s, Wait).failure == if r.Failed? then Some(r.error) else None
      ensures r.Done? ==> Consistent(Settings(), After(Settings(), s, Wait))
    {
      hide ReceiverSpec.HandleCqe, TransmitterSpec.HandleCqe, ReceiverSpec.Shape, Only, Consistent;
      WaitReady(Settings(), s);
      r := Dispatch(cqe);
    }

    /** The body of the loop: a completion goes to the half it belongs to, and leaves the other alone. */
    method Dispatch(cqe: Cqe) returns (r: Outcome)
      requires Valid() && ReceiverSpec.Shape(receiver.Config(), receiver.View())
      modifies receiver, receiver.bg`avail, receiver.refs, receiver.header.data, transmitter, transmitter.bg`avail,
               ring`pending
      ensures Valid()
      ensures HalfOf(cqe.op) == Transmitting ==>
                && receiver.View() == old(receiver.View())
                && (transmitter.View(), r) == TransmitterSpec.HandleCqe(transmitter.bg.pool, transmitter.Mem(),
                                                                        old(transmitter.View()), cqe)
      ensures HalfOf(cqe.op) == Receiving ==>
                && transmitter.View() == old(transmitter.View())
                && (receiver.View(), r) == ReceiverSpec.HandleCqe(receiver.Config(), receiver.Mem(),
                                                                  old(receiver.View()), cqe)
      ensures HalfOf(cqe.op) == Neither ==>
                && receiver.View() == old(receiver.View()) && transmitter.View() == old(transmitter.View())
                && r == if PassedOver(monitorMode, cqe.op) then Done else Failed(InvalidEnumValue)
      ensures cqe.op == NONE ==> r == Done
      ensures cqe.op == TIMEOUT ==> r == if monitorMode then Done else Failed(InvalidEnumValue)
      ensures cqe.op == SIGNAL ==> r == Failed(InvalidEnumValue)
    {
      hide ReceiverSpec.HandleCqe, TransmitterSpec.HandleCqe, ReceiverSpec.Shape;
      if cqe.op == NONE {
        return Done;
      }
      if cqe.op == READ || cqe.op == SEND {
        r := transmitter.HandleCqe(cqe);
      } else if cqe.op == RECV || cqe.op == WRITE {
        r := receiver.HandleCqe(cqe);
      } else if cqe.op == TIMEOUT && monitorMode {
        // The monitor prints, and its timer repeats by itself; neither half is concerned.
        return Done;
      } else {
        return Failed(InvalidEnumValue);
      }
    }
  }
}
