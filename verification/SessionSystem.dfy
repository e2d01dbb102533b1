/** A session: both halves served from one queue of completions. */
module SessionSystem {
  import opened ByteStreams
  import opened Outcomes
  import opened Completions
  import opened BufferGroups
  import opened FrameHeaders
  import opened FrameCodec
  import R = ReceiveSystem
  import RR = ReceiveRuns
  import RS = ReceiveSafety
  import T = TransmitSystem
  import TR = TransmitRuns
  import TS = TransmitSafety
  import RT = ReceiveTheorems
  import TT = TransmitTheorems
  import KernelMemory
  import ReceiverSpec

  /** The pools of the two halves, which both use the MTU of the session's TUN device; and whether a monitor runs. */
  datatype Config = Config(rx: ReceiverSpec.RxConfig, tx: Pool, monitorMode: bool)

  predicate Sound(c: Config) {
    c.rx.mtu == c.tx.size < U32_LIMIT
  }

  /** Which half a completion belongs to. */
  datatype Half = Transmitting | Receiving | Neither

  /** The dispatch of the session's loop. */
  function HalfOf(op: OperationType): Half {
    match op
    case READ => Transmitting
    case SEND => Transmitting
    case RECV => Receiving
    case WRITE => Receiving
    case _ => Neither
  }

  /** The loop passes over such a completion, or lets the monitor print; neither half is concerned. */
  predicate PassedOver(monitorMode: bool, op: OperationType) {
    op == NONE || (op == TIMEOUT && monitorMode)
  }

  /** The completions the loop can dispatch: those of the two halves, and those it passes over. */
  predicate Dispatchable(monitorMode: bool, cq: seq<Cqe>) {
    forall i | 0 <= i < |cq| :: HalfOf(cq[i].op) == Neither ==> PassedOver(monitorMode, cq[i].op)
  }

  function Only(half: Half, cq: seq<Cqe>): seq<Cqe> {
    if cq == [] then []
    else if HalfOf(cq[0].op) == half then [cq[0]] + Only(half, cq[1..])
    else Only(half, cq[1..])
  }

  lemma {:induction false} OnlyConcat(half: Half, cq: seq<Cqe>, more: seq<Cqe>)
    ensures Only(half, cq + more) == Only(half, cq) + Only(half, more)
  {
    hide HalfOf;
    if cq == [] {
      assert cq + more == more;
    } else {
      assert (cq + more)[1..] == cq[1..] + more;
      OnlyConcat(half, cq[1..], more);
    }
  }

  /** Both halves, with the one queue their completions are posted to. */
  datatype Session = Session(rx: R.RxSystem, tx: T.TxSystem, cq: seq<Cqe>, failure: Option<ErrorCode>)

  datatype Event =
    /** The kernel works for the receiver, or for the transmitter. */
    | RxKernel(rx: R.Event)
    | TxKernel(tx: T.Event)
    /** The monitor's timer expires, or an operation without a type completes. */
    | Other(cqe: Cqe)
    /** The loop waits for a completion and dispatches it. */
    | Wait

  predicate Enabled(c: Config, s: Session, e: Event) {
    && s.failure.None?
    && match e
       case RxKernel(e) => !e.Handle? && R.Enabled(c.rx, s.rx, e)
       case TxKernel(e) => !e.Handle? && T.Enabled(c.tx, s.tx, e)
       case Other(cqe) => PassedOver(c.monitorMode, cqe.op)
       case Wait =>
         && s.cq != []
         && ReceiverSpec.Shape(c.rx, s.rx.rx) && |s.rx.mem| == c.rx.pool.Bytes()
         && c.tx.size < U32_LIMIT && |s.tx.mem| == c.tx.Bytes()
  }

  /** The completions a step appended to a half's queue. */
  function Posted(before: seq<Cqe>, after: seq<Cqe>): seq<Cqe> {
    if |before| <= |after| then after[|before|..] else []
  }

  /** Takes the oldest completion and lets the half it belongs to handle it. */
  function Dispatch(c: Config, s: Session): Session
    requires Enabled(c, s, Wait)
  {
    var cqe := s.cq[0];
    var rest := s.cq[1..];
    match HalfOf(cqe.op)
    case Transmitting =>
      var tx := T.Deliver(c.tx, s.tx, cqe);
      s.(tx := tx.(cq := Only(Transmitting, rest)), cq := rest, failure := tx.failure)
    case Receiving =>
      var rx := R.Deliver(c.rx, s.rx, cqe);
      s.(rx := rx.(cq := Only(Receiving, rest)), cq := rest, failure := rx.failure)
    case Neither =>
      s.(cq := rest, failure := if PassedOver(c.monitorMode, cqe.op) then None else Some(InvalidEnumValue))
  }

  function After(c: Config, s: Session, e: Event): Session
    requires Enabled(c, s, e)
  {
    match e
    case RxKernel(e) =>
      var rx := R.After(c.rx, s.rx, e);
      s.(rx := rx, cq := s.cq + Posted(s.rx.cq, rx.cq))
    case TxKernel(e) =>
      var tx := T.After(c.tx, s.tx, e);
      s.(tx := tx, cq := s.cq + Posted(s.tx.cq, tx.cq))
    case Other(cqe) => s.(cq := s.cq + [cqe])
    case Wait => Dispatch(c, s)
  }

  /** A session just created, with the first receive and the first read armed. */
  function Start(c: Config, rxMem: seq<byte>, txMem: seq<byte>): Session {
    Session(R.Start(c.rx, rxMem), T.Start(c.tx, txMem), [], None)
  }

  predicate Run(c: Config, s: Session, events: seq<Event>, t: Session)
    decreases |events|
  {
    if events == [] then t == s
    else Enabled(c, s, events[0]) && Run(c, After(c, s, events[0]), events[1..], t)
  }

  // --- Each half runs on its own ----------------------------------------------------------------

  /** Each half's queue is the part of the session's queue that belongs to it, and the loop can dispatch the rest. */
  ghost predicate Consistent(c: Config, s: Session) {
    && Sound(c)
    && s.rx.cq == Only(Receiving, s.cq)
    && s.tx.cq == Only(Transmitting, s.cq)
    && Dispatchable(c.monitorMode, s.cq)
    && s.failure.None?
    && RR.Inv(c.rx, s.rx) && TR.Inv(c.tx, s.tx)
  }

  lemma StartConsistent(c: Config, rxMem: seq<byte>, txMem: seq<byte>)
    requires Sound(c) && |rxMem| == c.rx.pool.Bytes() && |txMem| == c.tx.Bytes()
    ensures Consistent(c, Start(c, rxMem, txMem))
    ensures var s := Start(c, rxMem, txMem);
      s.rx == R.Start(c.rx, rxMem) && s.tx == T.Start(c.tx, txMem) && s.rx.arrived == [] && s.tx.sent == []
  {
    hide RR.Inv, TR.Inv;
    RT.StartInv(c.rx, rxMem);
    TT.StartInv(c.tx, txMem);
  }

  lemma RxPosted(c: ReceiverSpec.RxConfig, s: R.RxSystem, e: R.Event, t: R.RxSystem)
    requires RS.StepTo(c, s, e, t) && !e.Handle?
    ensures s.cq <= t.cq && t.cq == s.cq + Posted(s.cq, t.cq)
    ensures Only(Receiving, Posted(s.cq, t.cq)) == Posted(s.cq, t.cq)
    ensures Only(Transmitting, Posted(s.cq, t.cq)) == [] && Dispatchable(false, Posted(s.cq, t.cq))
    ensures t.failure.None?
  {
    hide ReceiverSpec.Shape, KernelMemory.OnlyAvailChanges, KernelMemory.Fill, R.HandleNext, ReceiverSpec.Content;
    var more := Posted(s.cq, t.cq);
    assert more == [] || (|more| == 1 && HalfOf(more[0].op) == Receiving && more[1..] == []);
  }

  lemma TxPosted(p: Pool, s: T.TxSystem, e: T.Event, t: T.TxSystem)
    requires T.StepTo(p, s, e, t) && !e.Handle?
    ensures s.cq <= t.cq && t.cq == s.cq + Posted(s.cq, t.cq)
    ensures Only(Transmitting, Posted(s.cq, t.cq)) == Posted(s.cq, t.cq)
    ensures Only(Receiving, Posted(s.cq, t.cq)) == [] && Dispatchable(false, Posted(s.cq, t.cq))
    ensures t.failure.None?
  {
    hide KernelMemory.OnlyAvailChanges, KernelMemory.Fill, T.HandleNext, T.Offered;
    var more := Posted(s.cq, t.cq);
    assert more == [] || (|more| == 1 && HalfOf(more[0].op) == Transmitting && more[1..] == []);
  }

  ghost predicate StepTo(c: Config, s: Session, e: Event, t: Session) {
    Enabled(c, s, e) && After(c, s, e) == t
  }

  /** One half steps as `rx` or `tx` says, and the other stands still; or both do. */
  ghost predicate HalfSteps(c: Config, s: Session, t: Session, rx: seq<R.Event>, tx: seq<T.Event>) {
    || (|rx| == 1 && RS.StepTo(c.rx, s.rx, rx[0], t.rx) && t.tx == s.tx && tx == [] && t.failure == t.rx.failure)
    || (|tx| == 1 && T.StepTo(c.tx, s.tx, tx[0], t.tx) && t.rx == s.rx && rx == [] && t.failure == t.tx.failure)
    || (rx == [] && tx == [] && t.rx == s.rx && t.tx == s.tx && t.failure.None?)
  }

  lemma RxKernelStep(c: Config, s: Session, e: Event, t: Session)
    requires Consistent(c, s) && StepTo(c, s, e, t) && e.RxKernel?
    ensures HalfSteps(c, s, t, [e.rx], []) && t.failure.None?
    ensures t.rx.cq == Only(Receiving, t.cq) && t.tx.cq == Only(Transmitting, t.cq)
    ensures Dispatchable(c.monitorMode, t.cq)
  {
    hide RR.Inv, TR.Inv, R.Enabled, R.After, T.Enabled, Only;
    assert RS.StepTo(c.rx, s.rx, e.rx, t.rx);
    RxPosted(c.rx, s.rx, e.rx, t.rx);
    OnlyConcat(Receiving, s.cq, Posted(s.rx.cq, t.rx.cq));
    OnlyConcat(Transmitting, s.cq, Posted(s.rx.cq, t.rx.cq));
    DispatchableConcat(c.monitorMode, s.cq, Posted(s.rx.cq, t.rx.cq));
  }

  lemma TxKernelStep(c: Config, s: Session, e: Event, t: Session)
    requires Consistent(c, s) && StepTo(c, s, e, t) && e.TxKernel?
    ensures HalfSteps(c, s, t, [], [e.tx]) && t.failure.None?
    ensures t.rx.cq == Only(Receiving, t.cq) && t.tx.cq == Only(Transmitting, t.cq)
    ensures Dispatchable(c.monitorMode, t.cq)
  {
    hide RR.Inv, TR.Inv, R.Enabled, R.After, T.Enabled, T.After, Only;
    assert T.StepTo(c.tx, s.tx, e.tx, t.tx);
    TxPosted(c.tx, s.tx, e.tx, t.tx);
    OnlyConcat(Receiving, s.cq, Posted(s.tx.cq, t.tx.cq));
    OnlyConcat(Transmitting, s.cq, Posted(s.tx.cq, t.tx.cq));
    DispatchableConcat(c.monitorMode, s.cq, Posted(s.tx.cq, t.tx.cq));
  }

  lemma DispatchableConcat(monitorMode: bool, cq: seq<Cqe>, more: seq<Cqe>)
    requires Dispatchable(monitorMode, cq) && (Dispatchable(monitorMode, more) || Dispatchable(false, more))
    ensures Dispatchable(monitorMode, cq + more)
  {
  }

  lemma OtherStep(c: Config, s: Session, e: Event, t: Session)
    requires Consistent(c, s) && StepTo(c, s, e, t) && e.Other?
    ensures HalfSteps(c, s, t, [], []) && t.failure.None?
    ensures t.rx.cq == Only(Receiving, t.cq) && t.tx.cq == Only(Transmitting, t.cq)
    ensures Dispatchable(c.monitorMode, t.cq)
  {
    hide RR.Inv, TR.Inv, R.Enabled, T.Enabled, Only;
    OnlyConcat(Receiving, s.cq, [e.cqe]);
    OnlyConcat(Transmitting, s.cq, [e.cqe]);
    OnlyOne(e.cqe);
  }

  lemma OnlyOne(cqe: Cqe)
    requires HalfOf(cqe.op) == Neither
    ensures Only(Receiving, [cqe]) == [] && Only(Transmitting, [cqe]) == []
  {
    assert [cqe][1..] == [];
  }

  lemma OnlyFront(half: Half, cq: seq<Cqe>)
    requires cq != []
    ensures HalfOf(cq[0].op) == half ==> Only(half, cq) == [cq[0]] + Only(half, cq[1..])
                                         && Only(half, cq) != [] && Only(half, cq)[1..] == Only(half, cq[1..])
    ensures HalfOf(cq[0].op) != half ==> Only(half, cq) == Only(half, cq[1..])
  {
    hide HalfOf;
  }

  lemma RxWait(c: Config, s: Session, t: Session)
    requires s.cq != [] && s.rx.cq != [] && s.rx.cq[0] == s.cq[0] && s.rx.failure.None?
    requires StepTo(c, s, Wait, t) && HalfOf(s.cq[0].op) == Receiving && s.rx.cq[1..] == Only(Receiving, s.cq[1..])
    ensures RS.StepTo(c.rx, s.rx, R.Handle, t.rx)
    ensures t.tx == s.tx && t.failure == t.rx.failure && t.cq == s.cq[1..] && t.rx.cq == s.rx.cq[1..]
  {
    hide R.Deliver, T.Deliver, ReceiverSpec.Shape, Only;
  }

  lemma TxWait(c: Config, s: Session, t: Session)
    requires s.cq != [] && s.tx.cq != [] && s.tx.cq[0] == s.cq[0] && s.tx.failure.None?
    requires StepTo(c, s, Wait, t) && HalfOf(s.cq[0].op) == Transmitting
    requires s.tx.cq[1..] == Only(Transmitting, s.cq[1..])
    ensures T.StepTo(c.tx, s.tx, T.Handle, t.tx)
    ensures t.rx == s.rx && t.failure == t.tx.failure && t.cq == s.cq[1..] && t.tx.cq == s.tx.cq[1..]
  {
    hide R.Deliver, T.Deliver, ReceiverSpec.Shape, Only;
  }

  lemma PassedWait(c: Config, s: Session, t: Session)
    requires s.cq != [] && StepTo(c, s, Wait, t) && PassedOver(c.monitorMode, s.cq[0].op)
    ensures t == s.(cq := s.cq[1..])
  {
    hide R.Deliver, T.Deliver, ReceiverSpec.Shape, Only;
  }

  lemma DispatchableFront(monitorMode: bool, cq: seq<Cqe>)
    requires cq != [] && Dispatchable(monitorMode, cq)
    ensures HalfOf(cq[0].op) == Neither ==> PassedOver(monitorMode, cq[0].op)
    ensures Dispatchable(monitorMode, cq[1..])
  {
  }

  /** The loop's dispatch hands every completion to the half that is waiting for it. */
  lemma WaitStep(c: Config, s: Session, t: Session) returns (rx: seq<R.Event>, tx: seq<T.Event>)
    requires Consistent(c, s) && StepTo(c, s, Wait, t)
    ensures HalfSteps(c, s, t, rx, tx) && (rx == [] || rx == [R.Handle]) && (tx == [] || tx == [T.Handle])
    ensures t.rx.cq == Only(Receiving, t.cq) && t.tx.cq == Only(Transmitting, t.cq)
    ensures Dispatchable(c.monitorMode, t.cq)
  {
    hide RR.Inv, TR.Inv, Only, After, R.Enabled, R.After, T.Enabled, T.After, ReceiverSpec.Shape, PassedOver,
         Dispatchable;
    DispatchableFront(c.monitorMode, s.cq);
    RS.InvMemory(c.rx, s.rx);
    TS.InvMemory(c.tx, s.tx);
    hide RS.StepTo, T.StepTo;
    OnlyFront(Receiving, s.cq);
    OnlyFront(Transmitting, s.cq);
    rx, tx := [], [];
    if HalfOf(s.cq[0].op) == Receiving {
      rx := [R.Handle];
      RxWait(c, s, t);
    } else if HalfOf(s.cq[0].op) == Transmitting {
      tx := [T.Handle];
      TxWait(c, s, t);
    } else {
      PassedWait(c, s, t);
    }
  }

  lemma StepProjects(c: Config, s: Session, e: Event, t: Session) returns (rx: seq<R.Event>, tx: seq<T.Event>)
    requires Consistent(c, s) && StepTo(c, s, e, t)
    ensures HalfSteps(c, s, t, rx, tx)
    ensures t.failure.None? ==> Consistent(c, t)
    ensures e.RxKernel? ==> rx == [e.rx]
    ensures !e.RxKernel? ==> rx == [] || rx == [R.Handle]
    ensures e.TxKernel? ==> tx == [e.tx]
    ensures !e.TxKernel? ==> tx == [] || tx == [T.Handle]
  {
    hide RR.Inv, TR.Inv, Enabled, After, R.Enabled, R.After, T.Enabled, T.After, Only;
    match e {
      case RxKernel(e') => RxKernelStep(c, s, e, t); rx, tx := [e'], [];
      case TxKernel(e') => TxKernelStep(c, s, e, t); rx, tx := [], [e'];
      case Other(_) => OtherStep(c, s, e, t); rx, tx := [], [];
      case Wait => rx, tx := WaitStep(c, s, t);
    }
    if |rx| == 1 {
      RS.EventKeeps(c.rx, s.rx, rx[0], t.rx);
    } else if |tx| == 1 {
      TS.EventKeeps(c.tx, s.tx, tx[0], t.tx);
    }
  }

  /** A consistent session with a completion to handle can handle it. */
  lemma WaitReady(c: Config, s: Session)
    requires s.cq != [] && Consistent(c, s)
    ensures Enabled(c, s, Wait) && |s.rx.mem| == c.rx.pool.Bytes() && ReceiverSpec.Shape(c.rx, s.rx.rx)
    ensures After(c, s, Wait).failure.None? ==> Consistent(c, After(c, s, Wait))
  {
    hide RR.Inv, TR.Inv, After, Only, ReceiverSpec.Shape;
    RS.InvMemory(c.rx, s.rx);
    TS.InvMemory(c.tx, s.tx);
    hide Consistent;
    var rx, tx := StepProjects(c, s, Wait, After(c, s, Wait));
  }

  lemma ConsistentLives(c: Config, s: Session)
    requires Consistent(c, s)
    ensures s.failure.None?
  {
    hide RR.Inv, TR.Inv, Only;
  }

  /** A failed session does nothing more. */
  lemma FailedStops(c: Config, s: Session, events: seq<Event>, t: Session)
    requires s.failure.Some? && Run(c, s, events, t)
    ensures t == s
  {
    hide R.Enabled, T.Enabled, After;
  }

  lemma {:induction false} RunProjects(c: Config, s: Session, events: seq<Event>, t: Session)
    returns (rx: seq<R.Event>, tx: seq<T.Event>)
    requires Consistent(c, s) && Run(c, s, events, t)
    ensures R.Run(c.rx, s.rx, rx, t.rx) && T.Run(c.tx, s.tx, tx, t.tx)
    ensures t.failure.None? ==> Consistent(c, t)
    ensures t.failure.Some? ==> t.failure == t.rx.failure || t.failure == t.tx.failure
    decreases |events|
  {
    hide Consistent, Enabled, After, R.Enabled, R.After, T.Enabled, T.After;
    ConsistentLives(c, s);
    rx, tx := [], [];
    if events != [] {
      var s1 := After(c, s, events[0]);
      assert StepTo(c, s, events[0], s1);
      var rx1, tx1 := StepProjects(c, s, events[0], s1);
      if s1.failure.Some? {
        FailedStops(c, s1, events[1..], t);
      } else {
        rx, tx := RunProjects(c, s1, events[1..], t);
      }
      if |rx1| == 1 {
        assert ([rx1[0]] + rx)[1..] == rx;
        rx := [rx1[0]] + rx;
      } else if |tx1| == 1 {
        assert ([tx1[0]] + tx)[1..] == tx;
        tx := [tx1[0]] + tx;
      }
    }
  }

  /**
   * Every run of a session is a run of its receiver and a run of its transmitter: sharing the queue and the loop
   * adds no behaviour, and whatever error ends it is one of theirs, so the loop never meets a completion it cannot
   * dispatch.
   */
  lemma SessionProjects(c: Config, rxMem: seq<byte>, txMem: seq<byte>, events: seq<Event>, t: Session)
    returns (rx: seq<R.Event>, tx: seq<T.Event>)
    requires Sound(c) && |rxMem| == c.rx.pool.Bytes() && |txMem| == c.tx.Bytes()
    requires Run(c, Start(c, rxMem, txMem), events, t)
    ensures R.Run(c.rx, R.Start(c.rx, rxMem), rx, t.rx) && T.Run(c.tx, T.Start(c.tx, txMem), tx, t.tx)
    ensures t.failure.Some? ==> t.failure == t.rx.failure || t.failure == t.tx.failure
    ensures t.failure.None? ==> t.rx.failure.None? && t.tx.failure.None?
  {
    hide RR.Inv, TR.Inv, Start, R.Start, T.Start, Run, R.Run, T.Run, Only;
    StartConsistent(c, rxMem, txMem);
    rx, tx := RunProjects(c, Start(c, rxMem, txMem), events, t);
    if t.failure.None? {
      RS.InvMemory(c.rx, t.rx);
      TS.InvMemory(c.tx, t.tx);
    }
  }

  /** What the outside can do to a session: errors of the kernel, and a stream that is not a stream of frames. */
  const OUTSIDE_ERRORS: set<ErrorCode> :=
    {TunReadFailed, TunWriteFailed, TunPartialWrite, RecvFailed, PeerClosed, SendFailed, SendReturnedZero,
     InvalidMagic, InvalidSize, FrameCrcMismatch}

  /** Every other error branch of the handlers and of the loop is dead. */
  lemma InternalErrorsAreDead(c: Config, rxMem: seq<byte>, txMem: seq<byte>, events: seq<Event>, t: Session)
    requires Sound(c) && |rxMem| == c.rx.pool.Bytes() && |txMem| == c.tx.Bytes()
    requires Run(c, Start(c, rxMem, txMem), events, t)
    ensures t.failure.Some? ==> t.failure.value in OUTSIDE_ERRORS
  {
    hide Start, R.Start, T.Start, Run, R.Run, T.Run, Decode;
    var rx, tx := SessionProjects(c, rxMem, txMem, events, t);
    RT.FailureExplained(c.rx, rxMem, rx, t.rx);
    TT.FailureExplained(c.tx, txMem, tx, t.tx);
  }
}
