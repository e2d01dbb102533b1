/** A tunnel that stops reading drains: what is under way always gets through. */
module TunnelProgress {
  import opened ByteStreams
  import opened Outcomes
  import opened Completions
  import opened CompletionQueues
  import opened BufferGroups
  import opened FrameHeaders
  import opened FrameCodec
  import opened KernelMemory
  import R = ReceiveSystem
  import RR = ReceiveRuns
  import RS = ReceiveSafety
  import RT = ReceiveTheorems
  import RC = ReceiveCooldown
  import RP = ReceiveProgress
  import ReceiveStall
  import T = TransmitSystem
  import TR = TransmitRuns
  import TS = TransmitSafety
  import TT = TransmitTheorems
  import TP = TransmitProgress
  import ReceiverSpec
  import ReceiverInvariant
  import TransmitterSpec
  import opened SessionSystem
  import opened EndToEnd
  import opened TunnelRuns

  // --- Useful steps, and what they use up -------------------------------------------------------

  /** Steps that carry on what is under way: nothing is read, and nothing fails. */
  predicate Useful(e: Event) {
    match e
    case RxKernel(e) => e.Receive? || e.Write?
    case TxKernel(e) => e.Send?
    case Other(_) => false
    case Wait => true
  }

  function EventOf(step: Step): Event {
    match step
    case AtA(e) => e
    case AtB(e) => e
  }

  predicate AllUseful(steps: seq<Step>) {
    forall i | 0 <= i < |steps| :: Useful(EventOf(steps[i]))
  }

  /** The bytes that packets take up on the wire. */
  function WireLength(ps: seq<Packet>): nat {
    if ps == [] then 0 else WIRE_SIZE + |ps[0]| + WireLength(ps[1..])
  }

  lemma {:induction false} EncodedLength(ps: seq<Packet>)
    requires AllEncodable(ps)
    ensures |EncodeAll(ps)| == WireLength(ps)
    decreases |ps|
  {
    if ps != [] {
      EncodedLength(ps[1..]);
    }
  }

  /** What is left to do for the packets `s` has read: bytes to send, to receive, packets to write, completions. */
  function Left(s: Session, peer: Session): int {
    4 * (WireLength(s.tx.read) - |s.tx.sent|)
    + 2 * (|s.tx.sent| - |peer.rx.arrived|)
    + 2 * (|s.tx.read| - |peer.rx.written|)
    + |s.cq|
  }

  function Measure(w: Tunnel): int {
    Left(w.a, w.b) + Left(w.b, w.a)
  }

  /** What a useful step of a session does to its record. */
  lemma UsefulRecord(c: Config, s: Session, e: Event, t: Session)
    requires Useful(e) && SessionSystem.StepTo(c, s, e, t)
    ensures t.tx.read == s.tx.read
    ensures 2 * |t.tx.sent| + 2 * |t.rx.arrived| + 2 * |t.rx.written| - |t.cq|
          > 2 * |s.tx.sent| + 2 * |s.rx.arrived| + 2 * |s.rx.written| - |s.cq|
  {
    hide ReceiverSpec.HandleCqe, TransmitterSpec.HandleCqe, ReceiverSpec.Shape, ReceiverSpec.Content, R.BytesOf,
         T.PacketsOf, T.Offered, Fill, OnlyAvailChanges, Only, TotalLength;
  }

  /** Every useful step lowers the measure, so useful steps come to an end. */
  lemma UsefulLowers(ca: Config, cb: Config, w: Tunnel, step: Step)
    requires TunnelEnabled(ca, cb, w, step) && Useful(EventOf(step))
    ensures Measure(TunnelAfter(ca, cb, w, step)) < Measure(w)
  {
    hide Enabled, After, Useful, WireLength;
    var t := TunnelAfter(ca, cb, w, step);
    match step {
      case AtA(e) => UsefulRecord(ca, w.a, e, t.a);
      case AtB(e) => UsefulRecord(cb, w.b, e, t.b);
    }
  }

  // --- The measure bounds every useful run ------------------------------------------------------

  lemma LeftToDo(mtu: nat, s: Session, peer: Session)
    requires GetsThrough(mtu, s, peer) && s.tx.sent <= EncodeAll(s.tx.read) && peer.rx.arrived <= s.tx.sent
    ensures Left(s, peer) >= 0
  {
    EncodedLength(s.tx.read);
    hide EncodeAll, WireLength, Leading, Refused, Settled;
  }

  /** Nothing is ever sent, received or written that was not read. */
  lemma MeasureBounded(ca: Config, cb: Config, a: (seq<byte>, seq<byte>), b: (seq<byte>, seq<byte>),
                       steps: seq<Step>, t: Tunnel)
    requires Fitting(ca, a) && Fitting(cb, b) && TunnelRun(ca, cb, TunnelStart(ca, cb, a, b), steps, t)
    ensures Measure(t) >= 0
  {
    hide Live, TunnelRun, TunnelStart, R.Run, R.Start, T.Run, T.Start, GetsThrough, EncodeAll, Left;
    var rxA, txA, rxB, txB := TunnelHalves(ca, cb, a, b, steps, t);
    PacketsGetThrough(ca, cb, a, b, steps, t);
    TT.SentIsEncoded(ca.tx, a.1, txA, t.a.tx);
    TT.SentIsEncoded(cb.tx, b.1, txB, t.b.tx);
    LeftToDo(cb.rx.mtu, t.a, t.b);
    LeftToDo(ca.rx.mtu, t.b, t.a);
  }

  lemma {:induction false} UsefulRunLowers(ca: Config, cb: Config, w: Tunnel, steps: seq<Step>, t: Tunnel)
    requires TunnelRun(ca, cb, w, steps, t) && AllUseful(steps)
    ensures |steps| <= Measure(w) - Measure(t)
    ensures t.a.tx.read == w.a.tx.read && t.b.tx.read == w.b.tx.read
    decreases |steps|
  {
    hide TunnelEnabled, TunnelAfter, Measure, Useful;
    if steps != [] {
      assert Useful(EventOf(steps[0]));
      UsefulLowers(ca, cb, w, steps[0]);
      UsefulReads(ca, cb, w, steps[0]);
      UsefulRunLowers(ca, cb, TunnelAfter(ca, cb, w, steps[0]), steps[1..], t);
    }
  }

  lemma UsefulReads(ca: Config, cb: Config, w: Tunnel, step: Step)
    requires TunnelEnabled(ca, cb, w, step) && Useful(EventOf(step))
    ensures var t := TunnelAfter(ca, cb, w, step);
      t.a.tx.read == w.a.tx.read && t.b.tx.read == w.b.tx.read
  {
    hide Enabled, After, Useful;
    var t := TunnelAfter(ca, cb, w, step);
    match step {
      case AtA(e) => UsefulRecord(ca, w.a, e, t.a);
      case AtB(e) => UsefulRecord(cb, w.b, e, t.b);
    }
  }

  /** From every reachable state, useful steps come to an end, however they are chosen. */
  lemma {:induction false} UsefulRunsEnd(ca: Config, cb: Config, a: (seq<byte>, seq<byte>),
                                         b: (seq<byte>, seq<byte>), before: seq<Step>, w: Tunnel,
                                         steps: seq<Step>, t: Tunnel)
    requires Fitting(ca, a) && Fitting(cb, b) && TunnelRun(ca, cb, TunnelStart(ca, cb, a, b), before, w)
    requires TunnelRun(ca, cb, w, steps, t) && AllUseful(steps)
    ensures |steps| <= Measure(w) && t.a.tx.read == w.a.tx.read && t.b.tx.read == w.b.tx.read
  {
    hide TunnelRun, TunnelStart, Measure, AllUseful;
    UsefulRunLowers(ca, cb, w, steps, t);
    TunnelConcat(ca, cb, TunnelStart(ca, cb, a, b), before, w, steps, t);
    MeasureBounded(ca, cb, a, b, before + steps, t);
  }

  // --- Only a settled tunnel has no useful step left --------------------------------------------

  /** The receive pool is large enough never to stall. */
  predicate Roomy(c: Config) {
    c.rx.pool.count >= 2 * c.rx.mtu + 16 && c.rx.pool.size >= 1
  }

  lemma HalfQueues(c: Config, s: Session)
    requires Consistent(c, s) && s.cq == []
    ensures s.rx.cq == [] && s.tx.cq == [] && RR.Inv(c.rx, s.rx) && TR.Inv(c.tx, s.tx)
    ensures s.failure.None? && s.rx.failure.None? && s.tx.failure.None?
  {
    hide RR.Inv, TR.Inv;
    BothLive(c, s);
  }

  /** With frames to send and nothing queued, a send is under way. */
  lemma CanSend(p: Pool, s: T.TxSystem)
    requires TR.Inv(p, s) && s.cq == [] && s.tx.queue != []
    ensures T.Enabled(p, s, T.Send(1))
  {
    hide TR.Inv, EncodeAll, EncodeFrame, T.Offered, OnlyAvailChanges;
    TS.InvMemory(p, s);
    TP.InvSize(p, s);
    TT.SendArmed(p, s);
    TT.InvOffers(p, s);
  }

  /** With frames to write and nothing queued, a write is under way. */
  lemma CanWrite(c: ReceiverSpec.RxConfig, s: R.RxSystem)
    requires RR.Inv(c, s) && s.cq == [] && s.rx.output != []
    ensures R.Enabled(c, s, R.Write)
  {
    hide RR.Inv, ReceiverSpec.Shape, OnlyAvailChanges;
    RS.InvMemory(c, s);
    RT.RecvArmed(c, s);
  }

  /** With nothing to write and nothing queued, a receiver with enough buffers can receive. */
  lemma CanReceive(c: ReceiverSpec.RxConfig, s: R.RxSystem, b: byte) returns (bid: nat)
    requires RR.Inv(c, s) && s.cq == [] && s.rx.output == [] && !s.rx.coolingDown
    requires c.pool.count >= 2 * c.mtu + 16 && c.pool.size >= 1
    ensures R.Enabled(c, s, R.Receive(bid, [b], true))
  {
    hide RR.Inv, ReceiverSpec.Shape, OnlyAvailChanges, RR.Carried, TotalLength, ReceiverInvariant.Log;
    RS.InvMemory(c, s);
    RT.RecvArmed(c, s);
    SomeFree(c, s);
    bid := ReceiveStall.SomeBuffer(c, s);
  }

  lemma SomeFree(c: ReceiverSpec.RxConfig, s: R.RxSystem)
    requires RR.Inv(c, s) && s.cq == [] && s.rx.output == [] && c.pool.count >= 2 * c.mtu + 16
    ensures s.rx.avail != multiset{}
  {
    hide RR.Inv, RR.Carried, TotalLength, ReceiverInvariant.Log;
    RP.BuffersAddUp(c, s);
    assert RP.CarriedBids(c, s.cq) == [];
    RC.PartialFrame(c, s);
    RP.PartialSize(c, s);
    ReceiveStall.NoneIsEmpty(s.rx.avail);
  }

  /** Unless a direction has settled, one of its two sides can take a useful step. */
  lemma OneCanGoOn(cs: Config, s: Session, cr: Config, r: Session) returns (atSender: bool, e: Event)
    requires Consistent(cs, s) && Consistent(cr, r) && r.rx.arrived <= s.tx.sent && Roomy(cr)
    requires r.rx.rx.coolingDown ==> r.rx.rx.output != []
    requires !Settled(s.tx, r.rx)
    ensures Useful(e)
    ensures if atSender then Enabled(cs, s, e) && StreamAllows(s, r, e) else Enabled(cr, r, e) && StreamAllows(r, s, e)
  {
    hide Consistent, RR.Inv, TR.Inv, Enabled, R.Enabled, T.Enabled;
    if s.cq != [] {
      WaitReady(cs, s);
      atSender, e := true, Wait;
    } else if r.cq != [] {
      WaitReady(cr, r);
      atSender, e := false, Wait;
    } else {
      HalfQueues(cs, s);
      HalfQueues(cr, r);
      if s.tx.tx.queue != [] {
        CanSend(cs.tx, s.tx);
        atSender, e := true, TxKernel(T.Send(1));
        KernelEnabled(cs, s, e);
      } else {
        atSender := false;
        if r.rx.rx.output != [] {
          CanWrite(cr.rx, r.rx);
          e := RxKernel(R.Write);
        } else {
          var n := |r.rx.arrived|;
          var bid := CanReceive(cr.rx, r.rx, s.tx.sent[n]);
          e := RxKernel(R.Receive(bid, [s.tx.sent[n]], true));
          assert s.tx.sent[..n + 1] == r.rx.arrived + [s.tx.sent[n]];
        }
        KernelEnabled(cr, r, e);
      }
    }
  }

  lemma KernelEnabled(c: Config, s: Session, e: Event)
    requires s.failure.None?
    requires (e.TxKernel? && !e.tx.Handle? && T.Enabled(c.tx, s.tx, e.tx))
          || (e.RxKernel? && !e.rx.Handle? && R.Enabled(c.rx, s.rx, e.rx))
    ensures Enabled(c, s, e)
  {
    hide R.Enabled, T.Enabled;
  }

  /** In every reachable state without a failure, a useful step can be taken unless both directions have settled. */
  lemma NextStep(ca: Config, cb: Config, a: (seq<byte>, seq<byte>), b: (seq<byte>, seq<byte>),
                 before: seq<Step>, w: Tunnel) returns (step: Step)
    requires Fitting(ca, a) && Fitting(cb, b) && TunnelRun(ca, cb, TunnelStart(ca, cb, a, b), before, w)
    requires w.a.failure.None? && w.b.failure.None? && Roomy(ca) && Roomy(cb)
    requires !(Settled(w.a.tx, w.b.rx) && Settled(w.b.tx, w.a.rx))
    ensures TunnelEnabled(ca, cb, w, step) && Useful(EventOf(step))
  {
    hide Consistent, TunnelRun, TunnelStart, R.Run, R.Start, T.Run, T.Start, Enabled, Useful, Settled;
    var rxA, txA, rxB, txB := TunnelHalves(ca, cb, a, b, before, w);
    BothLive(ca, w.a);
    BothLive(cb, w.b);
    RP.ReceiverNeverAsleep(ca.rx, a.0, rxA, w.a.rx);
    RP.ReceiverNeverAsleep(cb.rx, b.0, rxB, w.b.rx);
    if !Settled(w.a.tx, w.b.rx) {
      var atSender, e := OneCanGoOn(ca, w.a, cb, w.b);
      step := if atSender then AtA(e) else AtB(e);
    } else {
      var atSender, e := OneCanGoOn(cb, w.b, ca, w.a);
      step := if atSender then AtB(e) else AtA(e);
    }
  }

  // --- Nothing fails on the way -----------------------------------------------------------------

  /** Send completions took something, and read completions found a packet or no buffer. */
  predicate TxFine(cq: seq<Cqe>) {
    forall i | 0 <= i < |cq| :: TS.Expected(cq[i]) == None
  }

  predicate RxFine(c: ReceiverSpec.RxConfig, s: R.RxSystem) {
    ReceiveStall.AllFine(c, s.cq) && ReceiveStall.WritesHandled(s)
  }

  /** Nothing failed, and no queued completion reports an error. */
  predicate Healthy(c: Config, s: Session) {
    s.failure.None? && TxFine(s.tx.cq) && RxFine(c.rx, s.rx)
  }

  lemma TxStaysFine(p: Pool, s: T.TxSystem, e: T.Event, t: T.TxSystem)
    requires TR.Inv(p, s) && TxFine(s.cq) && T.StepTo(p, s, e, t) && (e.Send? || e.Handle?)
    ensures TxFine(t.cq) && t.failure.None?
  {
    if e.Handle? {
      TP.HandleStep(p, s, t);
      hide TR.Inv, T.StepTo, TS.Expected;
      TS.HandleKeeps(p, s, t);
      HandledQueue(p, s, t);
    } else {
      hide TR.Inv, T.HandleNext, T.Offered;
    }
  }

  lemma HandledQueue(p: Pool, s: T.TxSystem, t: T.TxSystem)
    requires T.HandledTo(p, s, t)
    ensures t.cq == s.cq[1..]
  {
    hide TransmitterSpec.HandleCqe, T.PacketsOf;
  }

  lemma RxStaysFine(c: ReceiverSpec.RxConfig, s: R.RxSystem, e: R.Event, t: R.RxSystem)
    requires RR.Inv(c, s) && RxFine(c, s) && RS.StepTo(c, s, e, t) && (e.Receive? || e.Write? || e.Handle?)
    requires Decode(c.mtu, s.arrived).ending.Waiting?
    ensures RxFine(c, t) && t.failure.None?
  {
    hide RR.Inv, Decode, RxFine, RS.StepTo;
    RS.InvMemory(c, s);
    if e.Handle? {
      RT.HandleStep(c, s, t);
      RxHandledFine(c, s, t);
    } else {
      RxPostedFine(c, s, e, t);
    }
  }

  lemma RxHandledFine(c: ReceiverSpec.RxConfig, s: R.RxSystem, t: R.RxSystem)
    requires s.cq != [] && |s.mem| == c.pool.Bytes()
    requires RR.Inv(c, s) && RxFine(c, s) && RS.HandledTo(c, s, t) && Decode(c.mtu, s.arrived).ending.Waiting?
    ensures RxFine(c, t) && t.failure.None?
  {
    hide RR.Inv, Decode, RS.Expected, RS.HandledTo;
    ReceiveStall.FineExpected(c, s);
    RS.HandleKeeps(c, s, t);
    RP.HandledRecord(c, s, t);
    RT.FailedRecord(c, s, t);
    FineRest(c, s, t);
  }

  lemma RxPostedFine(c: ReceiverSpec.RxConfig, s: R.RxSystem, e: R.Event, t: R.RxSystem)
    requires RxFine(c, s) && RS.StepTo(c, s, e, t) && (e.Receive? || e.Write?) && s.failure.None?
    ensures RxFine(c, t) && t.failure.None?
  {
    hide R.HandleNext, ReceiverSpec.Shape, ReceiverSpec.Content, Fill, OnlyAvailChanges, TotalLength;
    CountSnoc(WRITE, s.cq, t.cq[|s.cq|]);
  }

  lemma FineRest(c: ReceiverSpec.RxConfig, s: R.RxSystem, t: R.RxSystem)
    requires s.cq != [] && RxFine(c, s) && t.cq == s.cq[1..] && t.written == s.written
    requires t.acked == if s.cq[0].op == WRITE then s.acked + 1 else s.acked
    ensures RxFine(c, t)
  {
    hide R.CarriesBytes;
  }

  /** Useful steps of a healthy session keep it healthy, as long as the stream does not break. */
  lemma StaysHealthy(c: Config, s: Session, e: Event, t: Session)
    requires Consistent(c, s) && Healthy(c, s) && Useful(e) && SessionSystem.StepTo(c, s, e, t)
    requires Decode(c.rx.mtu, s.rx.arrived).ending.Waiting?
    ensures Healthy(c, t) && Consistent(c, t)
  {
    hide RR.Inv, TR.Inv, Only, Decode, SessionSystem.StepTo, RS.StepTo, T.StepTo, TxFine, RxFine;
    var rx, tx := StepProjects(c, s, e, t);
    if |rx| == 1 {
      RxStaysFine(c.rx, s.rx, rx[0], t.rx);
    } else if |tx| == 1 {
      TxStaysFine(c.tx, s.tx, tx[0], t.tx);
    }
  }

  /** What has arrived of packets that may be sent does not break. */
  lemma ArrivedWaits(ca: Config, cb: Config, a: (seq<byte>, seq<byte>), b: (seq<byte>, seq<byte>),
                     before: seq<Step>, w: Tunnel)
    requires Fitting(ca, a) && Fitting(cb, b) && TunnelRun(ca, cb, TunnelStart(ca, cb, a, b), before, w)
    ensures AllSendable(cb.rx.mtu, w.a.tx.read) ==> Decode(cb.rx.mtu, w.b.rx.arrived).ending.Waiting?
    ensures AllSendable(ca.rx.mtu, w.b.tx.read) ==> Decode(ca.rx.mtu, w.a.rx.arrived).ending.Waiting?
  {
    hide Live, TunnelRun, TunnelStart, R.Run, R.Start, T.Run, T.Start, EncodeAll, Decode, Leading, AllSendable;
    var rxA, txA, rxB, txB := TunnelHalves(ca, cb, a, b, before, w);
    TT.SentIsEncoded(ca.tx, a.1, txA, w.a.tx);
    TT.SentIsEncoded(cb.tx, b.1, txB, w.b.tx);
    PrefixTrans(w.b.rx.arrived, w.a.tx.sent, EncodeAll(w.a.tx.read));
    PrefixTrans(w.a.rx.arrived, w.b.tx.sent, EncodeAll(w.b.tx.read));
    DecodePrefix(cb.rx.mtu, w.a.tx.read, w.b.rx.arrived);
    DecodePrefix(ca.rx.mtu, w.b.tx.read, w.a.rx.arrived);
  }

  /** Both sides are healthy, and each has read only what the other accepts. */
  predicate AllWell(ca: Config, cb: Config, w: Tunnel) {
    && Healthy(ca, w.a) && Healthy(cb, w.b)
    && AllSendable(cb.rx.mtu, w.a.tx.read) && AllSendable(ca.rx.mtu, w.b.tx.read)
  }

  lemma StaysWell(ca: Config, cb: Config, a: (seq<byte>, seq<byte>), b: (seq<byte>, seq<byte>),
                  before: seq<Step>, w: Tunnel, step: Step)
    requires Fitting(ca, a) && Fitting(cb, b) && TunnelRun(ca, cb, TunnelStart(ca, cb, a, b), before, w)
    requires AllWell(ca, cb, w) && TunnelEnabled(ca, cb, w, step) && Useful(EventOf(step))
    ensures AllWell(ca, cb, TunnelAfter(ca, cb, w, step))
  {
    hide Consistent, TunnelRun, TunnelStart, R.Run, T.Run, Enabled, After, Useful, TxFine, RxFine, AllSendable, Decode;
    var rxA, txA, rxB, txB := TunnelHalves(ca, cb, a, b, before, w);
    ArrivedWaits(ca, cb, a, b, before, w);
    UsefulReads(ca, cb, w, step);
    var t := TunnelAfter(ca, cb, w, step);
    match step {
      case AtA(e) => StaysHealthy(ca, w.a, e, t.a);
      case AtB(e) => StaysHealthy(cb, w.b, e, t.b);
    }
  }

  lemma OneMore(ca: Config, cb: Config, w: Tunnel, before: seq<Step>, v: Tunnel, step: Step)
    requires TunnelRun(ca, cb, w, before, v) && TunnelEnabled(ca, cb, v, step)
    ensures TunnelRun(ca, cb, w, before + [step], TunnelAfter(ca, cb, v, step))
  {
    hide TunnelEnabled, TunnelAfter;
    var t := TunnelAfter(ca, cb, v, step);
    assert [step][1..] == [] && TunnelRun(ca, cb, t, [], t);
    TunnelConcat(ca, cb, w, before, v, [step], t);
  }

  /** However useful steps are chosen, nothing fails. */
  lemma {:induction false} UsefulRunsKeepWell(ca: Config, cb: Config, a: (seq<byte>, seq<byte>),
                                              b: (seq<byte>, seq<byte>), before: seq<Step>, w: Tunnel,
                                              steps: seq<Step>, t: Tunnel)
    requires Fitting(ca, a) && Fitting(cb, b) && TunnelRun(ca, cb, TunnelStart(ca, cb, a, b), before, w)
    requires AllWell(ca, cb, w) && TunnelRun(ca, cb, w, steps, t) && AllUseful(steps)
    ensures AllWell(ca, cb, t)
    decreases |steps|
  {
    hide TunnelEnabled, TunnelAfter, TunnelStart, AllWell, Useful, Fitting;
    if steps != [] {
      assert Useful(EventOf(steps[0]));
      OneMore(ca, cb, TunnelStart(ca, cb, a, b), before, w, steps[0]);
      StaysWell(ca, cb, a, b, before, w, steps[0]);
      UsefulRunsKeepWell(ca, cb, a, b, before + [steps[0]], TunnelAfter(ca, cb, w, steps[0]), steps[1..], t);
    }
  }

  /**
   * A tunnel that stops reading drains. From every healthy reachable state, with pools that cannot stall: useful steps
   * alone lead, within the measure, to a state in which everything read on either side has been written on the other.
   */
  lemma {:induction false} TunnelDrains(ca: Config, cb: Config, a: (seq<byte>, seq<byte>), b: (seq<byte>, seq<byte>),
                                        before: seq<Step>, w: Tunnel) returns (steps: seq<Step>, t: Tunnel)
    requires Fitting(ca, a) && Fitting(cb, b) && TunnelRun(ca, cb, TunnelStart(ca, cb, a, b), before, w)
    requires AllWell(ca, cb, w) && Roomy(ca) && Roomy(cb)
    ensures TunnelRun(ca, cb, w, steps, t) && AllUseful(steps) && |steps| <= Measure(w)
    ensures Settled(t.a.tx, t.b.rx) && Settled(t.b.tx, t.a.rx)
    ensures t.b.rx.written == t.a.tx.read == w.a.tx.read && t.a.rx.written == t.b.tx.read == w.b.tx.read
    decreases Measure(w)
  {
    hide TunnelEnabled, TunnelAfter, TunnelStart, AllWell, Useful, Fitting, Roomy, Settled, Measure;
    MeasureBounded(ca, cb, a, b, before, w);
    if Settled(w.a.tx, w.b.rx) && Settled(w.b.tx, w.a.rx) {
      steps, t := [], w;
      SettledWritten(ca, cb, a, b, before, w);
    } else {
      WellLives(ca, cb, w);
      var step := NextStep(ca, cb, a, b, before, w);
      OneMore(ca, cb, TunnelStart(ca, cb, a, b), before, w, step);
      StaysWell(ca, cb, a, b, before, w, step);
      UsefulLowers(ca, cb, w, step);
      UsefulReads(ca, cb, w, step);
      var w1 := TunnelAfter(ca, cb, w, step);
      MeasureBounded(ca, cb, a, b, before + [step], w1);
      steps, t := TunnelDrains(ca, cb, a, b, before + [step], w1);
      assert ([step] + steps)[1..] == steps;
      steps := [step] + steps;
    }
  }

  lemma WellLives(ca: Config, cb: Config, w: Tunnel)
    requires AllWell(ca, cb, w)
    ensures w.a.failure.None? && w.b.failure.None?
  {
    hide TxFine, RxFine, AllSendable;
  }

  lemma SettledWritten(ca: Config, cb: Config, a: (seq<byte>, seq<byte>), b: (seq<byte>, seq<byte>),
                       before: seq<Step>, w: Tunnel)
    requires Fitting(ca, a) && Fitting(cb, b) && TunnelRun(ca, cb, TunnelStart(ca, cb, a, b), before, w)
    requires Settled(w.a.tx, w.b.rx) && Settled(w.b.tx, w.a.rx)
    ensures w.b.rx.written == w.a.tx.read && w.a.rx.written == w.b.tx.read
  {
    hide TunnelRun, TunnelStart, Settled, Leading, Refused, AllSendable;
    PacketsGetThrough(ca, cb, a, b, before, w);
  }

  /** A transmitter with nothing left to do, and a second buffer, reads the next packet whatever it is. */
  lemma ReadsAgain(p: Pool, mem: seq<byte>, events: seq<T.Event>, s: T.TxSystem, packet: Packet)
    requires |mem| == p.Bytes() && p.size < U32_LIMIT && T.Run(p, T.Start(p, mem), events, s)
    requires s.failure.None? && s.tx.queue == [] && s.cq == [] && p.count >= 2 && |packet| <= p.size
    ensures T.Enabled(p, s, T.ReadPacket(0, packet, true))
  {
    hide T.Run, T.Start, TR.Inv, Everything, EncodeAll;
    TP.NeverAsleep(p, mem, events, s);
    TT.OneOutstanding(p, mem, events, s);
    TT.BuffersConserved(p, mem, events, s);
    assert TR.QueueBids(s.tx.queue) == [] && TR.CarriedBids(p, s.cq) == [];
    assert s.tx.avail == Everything(p.count);
  }

  /** A settled tunnel is ready for more: whatever packet there is, either side can read it. */
  lemma SettledReadsOn(ca: Config, cb: Config, a: (seq<byte>, seq<byte>), b: (seq<byte>, seq<byte>),
                       before: seq<Step>, w: Tunnel, packet: Packet)
    requires Fitting(ca, a) && Fitting(cb, b) && TunnelRun(ca, cb, TunnelStart(ca, cb, a, b), before, w)
    requires w.a.failure.None? && w.b.failure.None? && Settled(w.a.tx, w.b.rx) && Settled(w.b.tx, w.a.rx)
    ensures ca.tx.count >= 2 && |packet| <= ca.tx.size ==>
              TunnelEnabled(ca, cb, w, AtA(TxKernel(T.ReadPacket(0, packet, true))))
    ensures cb.tx.count >= 2 && |packet| <= cb.tx.size ==>
              TunnelEnabled(ca, cb, w, AtB(TxKernel(T.ReadPacket(0, packet, true))))
  {
    hide Live, TunnelRun, TunnelStart, R.Run, R.Start, T.Run, T.Start, T.Enabled, R.Enabled, ReceiverSpec.Shape;
    var rxA, txA, rxB, txB := TunnelHalves(ca, cb, a, b, before, w);
    if ca.tx.count >= 2 && |packet| <= ca.tx.size {
      ReadsAgain(ca.tx, a.1, txA, w.a.tx, packet);
    }
    if cb.tx.count >= 2 && |packet| <= cb.tx.size {
      ReadsAgain(cb.tx, b.1, txB, w.b.tx, packet);
    }
  }
}
