/** Two sessions connected by a byte stream in each direction. */
module EndToEnd {
  import opened ByteStreams
  import opened Outcomes
  import opened FrameCodec
  import R = ReceiveSystem
  import RT = ReceiveTheorems
  import RR = ReceiveRuns
  import RS = ReceiveSafety
  import T = TransmitSystem
  import TT = TransmitTheorems
  import KernelMemory
  import ReceiverSpec
  import TransmitterSpec
  import opened SessionSystem

  /** The peers of a tunnel. */
  datatype Tunnel = Tunnel(a: Session, b: Session)

  datatype Step = AtA(e: Event) | AtB(e: Event)

  /** A stream delivers what was sent into it, in order: received bytes continue what arrived, within what was sent. */
  predicate StreamAllows(s: Session, peer: Session, e: Event) {
    e.RxKernel? && e.rx.Receive? ==> s.rx.arrived + e.rx.bytes <= peer.tx.sent
  }

  predicate TunnelEnabled(ca: Config, cb: Config, w: Tunnel, step: Step) {
    match step
    case AtA(e) => Enabled(ca, w.a, e) && StreamAllows(w.a, w.b, e)
    case AtB(e) => Enabled(cb, w.b, e) && StreamAllows(w.b, w.a, e)
  }

  function TunnelAfter(ca: Config, cb: Config, w: Tunnel, step: Step): Tunnel
    requires TunnelEnabled(ca, cb, w, step)
  {
    match step
    case AtA(e) => w.(a := After(ca, w.a, e))
    case AtB(e) => w.(b := After(cb, w.b, e))
  }

  predicate TunnelRun(ca: Config, cb: Config, w: Tunnel, steps: seq<Step>, t: Tunnel)
    decreases |steps|
  {
    if steps == [] then t == w
    else TunnelEnabled(ca, cb, w, steps[0]) && TunnelRun(ca, cb, TunnelAfter(ca, cb, w, steps[0]), steps[1..], t)
  }

  /** What one step of a session does to its streams. */
  lemma StepStreams(c: Config, s: Session, e: Event, t: Session)
    requires Consistent(c, s) && SessionSystem.StepTo(c, s, e, t)
    ensures s.tx.sent <= t.tx.sent
    ensures t.rx.arrived == s.rx.arrived + if e.RxKernel? && e.rx.Receive? then e.rx.bytes else []
  {
    hide Consistent, SessionSystem.StepTo, R.Enabled, R.After, T.Enabled, T.After;
    var rx, tx := StepProjects(c, s, e, t);
    if |rx| == 1 {
      RxStreams(c.rx, s.rx, rx[0], t.rx);
    } else if |tx| == 1 {
      TxStreams(c, s, tx[0], t);
    }
  }

  lemma RxStreams(c: ReceiverSpec.RxConfig, s: R.RxSystem, e: R.Event, t: R.RxSystem)
    requires RS.StepTo(c, s, e, t)
    ensures t.arrived == s.arrived + if e.Receive? then e.bytes else []
  {
    hide ReceiverSpec.HandleCqe, ReceiverSpec.Shape, ReceiverSpec.Content, R.BytesOf, KernelMemory.Fill,
         KernelMemory.OnlyAvailChanges;
  }

  lemma TxStreams(c: Config, s: Session, e: T.Event, t: Session)
    requires T.StepTo(c.tx, s.tx, e, t.tx)
    ensures s.tx.sent <= t.tx.sent
  {
    hide TransmitterSpec.HandleCqe, T.PacketsOf, T.Offered, KernelMemory.Fill, KernelMemory.OnlyAvailChanges;
  }

  // --- Every run of the tunnel ------------------------------------------------------------------

  /** What has arrived on either side was sent by the other. */
  predicate StreamsInOrder(w: Tunnel) {
    w.a.rx.arrived <= w.b.tx.sent && w.b.rx.arrived <= w.a.tx.sent
  }

  /** A live session is consistent. */
  ghost predicate Live(c: Config, s: Session) {
    s.failure.None? ==> Consistent(c, s)
  }

  lemma StepKeepsStreams(c: Config, s: Session, e: Event, t: Session, peer: Session)
    requires Live(c, s) && SessionSystem.StepTo(c, s, e, t) && StreamAllows(s, peer, e)
    requires s.rx.arrived <= peer.tx.sent && peer.rx.arrived <= s.tx.sent
    ensures t.rx.arrived <= peer.tx.sent && peer.rx.arrived <= t.tx.sent && Live(c, t)
  {
    hide Consistent, R.Enabled, T.Enabled, After;
    assert s.failure.None?;
    hide SessionSystem.StepTo, Enabled;
    StepStreams(c, s, e, t);
    var rx, tx := StepProjects(c, s, e, t);
    PrefixTrans(peer.rx.arrived, s.tx.sent, t.tx.sent);
  }

  /** The tunnel's run, seen from each session, is a run of that session. */
  lemma {:induction false} TunnelProjects(ca: Config, cb: Config, w: Tunnel, steps: seq<Step>, t: Tunnel)
    returns (ea: seq<Event>, eb: seq<Event>)
    requires Live(ca, w.a) && Live(cb, w.b) && StreamsInOrder(w) && TunnelRun(ca, cb, w, steps, t)
    ensures Run(ca, w.a, ea, t.a) && Run(cb, w.b, eb, t.b) && StreamsInOrder(t)
    decreases |steps|
  {
    hide Live, Enabled, After;
    ea, eb := [], [];
    if steps != [] {
      var w1 := TunnelAfter(ca, cb, w, steps[0]);
      match steps[0] {
        case AtA(e) =>
          StepKeepsStreams(ca, w.a, e, w1.a, w.b);
          ea, eb := TunnelProjects(ca, cb, w1, steps[1..], t);
          assert ([e] + ea)[1..] == ea;
          ea := [e] + ea;
        case AtB(e) =>
          StepKeepsStreams(cb, w.b, e, w1.b, w.a);
          ea, eb := TunnelProjects(ca, cb, w1, steps[1..], t);
          assert ([e] + eb)[1..] == eb;
          eb := [e] + eb;
      }
    }
  }

  // --- What gets through ------------------------------------------------------------------------

  /** The receiver's record of bytes handled never runs ahead of what arrived, even when it failed. */
  lemma HandledArrived(c: ReceiverSpec.RxConfig, mem: seq<byte>, events: seq<R.Event>, t: R.RxSystem)
    requires |mem| == c.pool.Bytes() && R.Run(c, R.Start(c, mem), events, t)
    ensures t.handled <= t.arrived
    ensures t.failure.None? && t.cq == [] && t.rx.output == [] ==> t.handled == t.arrived
  {
    hide RR.Inv, R.Run, R.Start, RS.HandledTo, RR.CarriedBytes;
    RT.StartInv(c, mem);
    var u := RT.RunKeeps(c, R.Start(c, mem), events, t);
    if t.failure.None? {
      RT.InvDelivers(c, t);
    } else {
      RT.InvArrived(c, u);
      RS.HandledArrived(c, u, t);
    }
  }

  /** Errors of the kernel, or of the peer, that a receiver reports. */
  const WRITING_OR_RECEIVING_FAILED: set<ErrorCode> := {TunWriteFailed, TunPartialWrite, RecvFailed, PeerClosed}

  /** Nothing is under way from `s` to `r`, and neither failed. */
  predicate Settled(s: T.TxSystem, r: R.RxSystem) {
    && s.failure.None? && s.tx.queue == [] && s.cq == []
    && r.arrived == s.sent
    && r.failure.None? && r.cq == [] && r.rx.output == []
  }

  /**
   * One direction of the tunnel: `s` sends, `r` receives what arrives of it. What is written is always an initial
   * part of what was read, up to the first packet that the receiver refuses; the refusal is the only error the stream
   * causes, and comes exactly when that packet's header has been handled.
   */
  lemma OneDirection(cs: Config, ms: seq<byte>, es: seq<T.Event>, s: T.TxSystem,
                     cr: Config, mr: seq<byte>, er: seq<R.Event>, r: R.RxSystem)
    requires Sound(cs) && |ms| == cs.tx.Bytes() && T.Run(cs.tx, T.Start(cs.tx, ms), es, s)
    requires Sound(cr) && |mr| == cr.rx.pool.Bytes() && R.Run(cr.rx, R.Start(cr.rx, mr), er, r)
    requires r.arrived <= s.sent
    ensures AllEncodable(s.read)
    ensures r.written <= s.read[..Leading(cr.rx.mtu, s.read)] <= s.read
    ensures r.failure.Some? ==> r.failure.value in WRITING_OR_RECEIVING_FAILED + {InvalidSize}
    ensures r.failure == Some(InvalidSize) <==> Refused(cr.rx.mtu, s.read, |r.handled|)
    ensures Settled(s, r) ==> r.written == s.read && AllSendable(cr.rx.mtu, s.read)
  {
    hide T.Run, T.Start, R.Run, R.Start, EncodeAll, Decode, AllSendable, Leading, Refused;
    TT.SentIsEncoded(cs.tx, ms, es, s);
    RT.WrittenIsDecoded(cr.rx, mr, er, r);
    RT.FailureExplained(cr.rx, mr, er, r);
    HandledArrived(cr.rx, mr, er, r);
    PrefixTrans(r.arrived, s.sent, EncodeAll(s.read));
    PrefixTrans(r.handled, r.arrived, EncodeAll(s.read));
    DecodePrefix(cr.rx.mtu, s.read, r.arrived);
    DecodePrefix(cr.rx.mtu, s.read, r.handled);
    PrefixTrans(r.written, Decode(cr.rx.mtu, r.arrived).packets, s.read[..Leading(cr.rx.mtu, s.read)]);
    DecodesIff(cr.rx.mtu, s.read);
  }

  /** The memory of a side's two pools. */
  predicate Fitting(c: Config, mem: (seq<byte>, seq<byte>)) {
    Sound(c) && |mem.0| == c.rx.pool.Bytes() && |mem.1| == c.tx.Bytes()
  }

  /** Both halves have a buffer of at least one byte: nothing else can be created. */
  predicate Creatable(c: Config) {
    c.rx.pool.count >= 1 && c.rx.pool.size >= 1 && c.tx.count >= 1 && c.tx.size >= 1
  }

  function TunnelStart(ca: Config, cb: Config, a: (seq<byte>, seq<byte>), b: (seq<byte>, seq<byte>)): Tunnel {
    Tunnel(Start(ca, a.0, a.1), Start(cb, b.0, b.1))
  }

  /** Each half of both sessions has run on its own, on streams in order. */
  lemma TunnelHalves(ca: Config, cb: Config, a: (seq<byte>, seq<byte>), b: (seq<byte>, seq<byte>),
                     steps: seq<Step>, t: Tunnel)
    returns (rxA: seq<R.Event>, txA: seq<T.Event>, rxB: seq<R.Event>, txB: seq<T.Event>)
    requires Fitting(ca, a) && Fitting(cb, b) && TunnelRun(ca, cb, TunnelStart(ca, cb, a, b), steps, t)
    ensures R.Run(ca.rx, R.Start(ca.rx, a.0), rxA, t.a.rx) && T.Run(ca.tx, T.Start(ca.tx, a.1), txA, t.a.tx)
    ensures R.Run(cb.rx, R.Start(cb.rx, b.0), rxB, t.b.rx) && T.Run(cb.tx, T.Start(cb.tx, b.1), txB, t.b.tx)
    ensures StreamsInOrder(t) && Live(ca, t.a) && Live(cb, t.b)
  {
    hide Consistent, TunnelRun, R.Run, T.Run, Run, Start;
    StartConsistent(ca, a.0, a.1);
    StartConsistent(cb, b.0, b.1);
    var w := TunnelStart(ca, cb, a, b);
    var ea, eb := TunnelProjects(ca, cb, w, steps, t);
    rxA, txA := RunProjects(ca, w.a, ea, t.a);
    rxB, txB := RunProjects(cb, w.b, eb, t.b);
  }

  /** A direction of the tunnel, in terms of the two sessions; `mtu` is the receiving one's. */
  ghost predicate GetsThrough(mtu: nat, s: Session, r: Session) {
    && AllEncodable(s.tx.read)
    && r.rx.written <= s.tx.read[..Leading(mtu, s.tx.read)] <= s.tx.read
    && (r.rx.failure.Some? ==> r.rx.failure.value in WRITING_OR_RECEIVING_FAILED + {InvalidSize})
    && (r.rx.failure == Some(InvalidSize) <==> Refused(mtu, s.tx.read, |r.rx.handled|))
    && (Settled(s.tx, r.rx) ==> r.rx.written == s.tx.read && AllSendable(mtu, s.tx.read))
  }

  /**
   * The law of the tunnel. However the two kernels schedule their work, split the sends, cut the stream into
   * buffers and overwrite the memory they own: the packets written to one side's TUN device are an initial part,
   * byte for byte and in order, of the packets read from the other's, and once everything under way has settled all
   * of them have got through. The receiver never meets a bad magic number or a bad checksum; it refuses a header
   * exactly if it is that of a packet which is empty or exceeds its own MTU, and whatever was written by then is
   * an initial part of the packets before that one.
   */
  lemma PacketsGetThrough(ca: Config, cb: Config, a: (seq<byte>, seq<byte>), b: (seq<byte>, seq<byte>),
                          steps: seq<Step>, t: Tunnel)
    requires Fitting(ca, a) && Fitting(cb, b) && TunnelRun(ca, cb, TunnelStart(ca, cb, a, b), steps, t)
    ensures GetsThrough(cb.rx.mtu, t.a, t.b) && GetsThrough(ca.rx.mtu, t.b, t.a)
  {
    hide Live, TunnelRun, R.Run, R.Start, T.Run, T.Start, AllSendable, Start, Refused, Leading, Settled;
    var rxA, txA, rxB, txB := TunnelHalves(ca, cb, a, b, steps, t);
    OneDirection(ca, a.1, txA, t.a.tx, cb, b.0, rxB, t.b.rx);
    OneDirection(cb, b.1, txB, t.b.tx, ca, a.0, rxA, t.a.rx);
  }
}
