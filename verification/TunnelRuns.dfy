/** Runs of one half alone, as runs of the whole tunnel. */
module TunnelRuns {
  import opened ByteStreams
  import opened Completions
  import R = ReceiveSystem
  import RR = ReceiveRuns
  import RS = ReceiveSafety
  import RT = ReceiveTheorems
  import RC = ReceiveCooldown
  import T = TransmitSystem
  import TR = TransmitRuns
  import TS = TransmitSafety
  import TT = TransmitTheorems
  import TP = TransmitProgress
  import ReceiverSpec
  import opened SessionSystem
  import opened EndToEnd

  lemma {:induction false} TunnelConcat(ca: Config, cb: Config, w: Tunnel, before: seq<Step>, v: Tunnel,
                                        more: seq<Step>, t: Tunnel)
    requires TunnelRun(ca, cb, w, before, v) && TunnelRun(ca, cb, v, more, t)
    ensures TunnelRun(ca, cb, w, before + more, t)
    decreases |before|
  {
    hide TunnelEnabled, TunnelAfter;
    if before == [] {
      assert before + more == more;
    } else {
      assert (before + more)[1..] == before[1..] + more;
      TunnelConcat(ca, cb, TunnelAfter(ca, cb, w, before[0]), before[1..], v, more, t);
    }
  }

  // --- A half's run is the tunnel's ------------------------------------------------------------

  /** What a session does when its transmitter, or its receiver, takes a step. */
  function TxStep(e: T.Event): Event {
    if e.Handle? then Wait else TxKernel(e)
  }

  function RxStep(e: R.Event): Event {
    if e.Handle? then Wait else RxKernel(e)
  }

  lemma TxFront(c: Config, s: Session)
    requires Consistent(c, s) && s.cq == s.tx.cq && s.cq != []
    ensures HalfOf(s.cq[0].op) == Transmitting && Only(Transmitting, s.cq[1..]) == s.cq[1..]
  {
    hide RR.Inv, TR.Inv, HalfOf;
    TP.InvQueue(c.tx, s.tx);
    assert HalfOf(s.cq[0].op) == Transmitting by { assert s.cq[0].op == READ || s.cq[0].op == SEND; OpsHalf(); }
    OnlyFront(Transmitting, s.cq);
  }

  lemma OpsHalf()
    ensures HalfOf(READ) == HalfOf(SEND) == Transmitting && HalfOf(RECV) == HalfOf(WRITE) == Receiving
  {
  }

  lemma RxFront(c: Config, s: Session)
    requires Consistent(c, s) && s.cq == s.rx.cq && s.cq != []
    ensures HalfOf(s.cq[0].op) == Receiving && Only(Receiving, s.cq[1..]) == s.cq[1..]
  {
    hide RR.Inv, TR.Inv, HalfOf;
    RC.InvQueue(c.rx, s.rx);
    assert HalfOf(s.cq[0].op) == Receiving by { assert s.cq[0].op == RECV || s.cq[0].op == WRITE; OpsHalf(); }
    OnlyFront(Receiving, s.cq);
  }

  lemma TxHandles(c: Config, s: Session, u: T.TxSystem) returns (t: Session)
    requires s.cq != [] && Consistent(c, s) && s.cq == s.tx.cq && T.StepTo(c.tx, s.tx, T.Handle, u)
    ensures SessionSystem.StepTo(c, s, Wait, t)
    ensures t.tx == u && t.rx == s.rx && t.cq == u.cq && t.failure == u.failure
  {
    TxFront(c, s);
    WaitReady(c, s);
    BothLive(c, s);
    hide Consistent, Only, HalfOf, ReceiverSpec.Shape, Enabled, After, T.Enabled, T.After;
    t := After(c, s, Wait);
    TxWait(c, s, t);
  }

  lemma RxHandles(c: Config, s: Session, u: R.RxSystem) returns (t: Session)
    requires s.cq != [] && Consistent(c, s) && s.cq == s.rx.cq && RS.StepTo(c.rx, s.rx, R.Handle, u)
    ensures SessionSystem.StepTo(c, s, Wait, t)
    ensures t.rx == u && t.tx == s.tx && t.cq == u.cq && t.failure == u.failure
  {
    RxFront(c, s);
    WaitReady(c, s);
    BothLive(c, s);
    hide Consistent, Only, HalfOf, ReceiverSpec.Shape, Enabled, After, R.Enabled, R.After;
    t := After(c, s, Wait);
    RxWait(c, s, t);
  }

  lemma TxWorks(c: Config, s: Session, e: T.Event, u: T.TxSystem)
    requires s.failure.None? && s.cq == s.tx.cq && T.StepTo(c.tx, s.tx, e, u) && !e.Handle?
    ensures SessionSystem.StepTo(c, s, TxKernel(e), s.(tx := u, cq := u.cq)) && u.failure.None?
  {
    TxPosted(c.tx, s.tx, e, u);
    hide T.Enabled, T.After;
  }

  lemma RxWorks(c: Config, s: Session, e: R.Event, u: R.RxSystem)
    requires s.failure.None? && s.cq == s.rx.cq && RS.StepTo(c.rx, s.rx, e, u) && !e.Handle?
    ensures SessionSystem.StepTo(c, s, RxKernel(e), s.(rx := u, cq := u.cq)) && u.failure.None?
  {
    RxPosted(c.rx, s.rx, e, u);
    hide R.Enabled, R.After;
  }

  /** A session can take every step of its transmitter while nothing is queued for its receiver. */
  lemma TxSteps(c: Config, s: Session, e: T.Event, u: T.TxSystem) returns (t: Session)
    requires Consistent(c, s) && s.cq == s.tx.cq && T.StepTo(c.tx, s.tx, e, u)
    ensures SessionSystem.StepTo(c, s, TxStep(e), t) && t.tx == u && t.rx == s.rx && t.failure == u.failure
    ensures t.cq == u.cq && (u.failure.None? ==> Consistent(c, t))
  {
    hide Consistent, T.StepTo, T.Enabled, T.After, R.Enabled, R.After, ReceiverSpec.Shape, Enabled, After;
    ConsistentLives(c, s);
    if e.Handle? {
      TP.HandleStep(c.tx, s.tx, u);
      t := TxHandles(c, s, u);
    } else {
      TxWorks(c, s, e, u);
      t := s.(tx := u, cq := u.cq);
    }
    hide SessionSystem.StepTo;
    var rx, tx := StepProjects(c, s, TxStep(e), t);
  }

  /** And every step of its receiver while nothing is queued for its transmitter. */
  lemma RxSteps(c: Config, s: Session, e: R.Event, u: R.RxSystem) returns (t: Session)
    requires Consistent(c, s) && s.cq == s.rx.cq && RS.StepTo(c.rx, s.rx, e, u)
    ensures SessionSystem.StepTo(c, s, RxStep(e), t) && t.rx == u && t.tx == s.tx && t.failure == u.failure
    ensures t.cq == u.cq && (u.failure.None? ==> Consistent(c, t))
  {
    hide Consistent, RS.StepTo, T.Enabled, T.After, R.Enabled, R.After, ReceiverSpec.Shape, Enabled, After;
    ConsistentLives(c, s);
    if e.Handle? {
      RT.HandleStep(c.rx, s.rx, u);
      t := RxHandles(c, s, u);
    } else {
      RxWorks(c, s, e, u);
      t := s.(rx := u, cq := u.cq);
    }
    hide SessionSystem.StepTo;
    var rx, tx := StepProjects(c, s, RxStep(e), t);
  }

  /** The transmitter of one side runs alone. */
  lemma {:induction false} TunnelSends(ca: Config, cb: Config, w: Tunnel, events: seq<T.Event>, u: T.TxSystem)
    returns (steps: seq<Step>, t: Tunnel)
    requires Consistent(ca, w.a) && w.a.cq == w.a.tx.cq && T.Run(ca.tx, w.a.tx, events, u) && u.failure.None?
    ensures TunnelRun(ca, cb, w, steps, t) && t.b == w.b
    ensures t.a.tx == u && t.a.rx == w.a.rx && t.a.failure.None?
    decreases |events|
  {
    hide Consistent, T.Enabled, T.After, Enabled, After;
    steps, t := [], w;
    if events == [] {
      ConsistentLives(ca, w.a);
    } else {
      var u1 := T.After(ca.tx, w.a.tx, events[0]);
      assert T.StepTo(ca.tx, w.a.tx, events[0], u1);
      if u1.failure.Some? {
        TT.FailedStops(ca.tx, u1, events[1..], u);
        assert false;
      }
      var a1 := TxSteps(ca, w.a, events[0], u1);
      steps, t := TunnelSends(ca, cb, w.(a := a1), events[1..], u);
      assert ([AtA(TxStep(events[0]))] + steps)[1..] == steps;
      steps := [AtA(TxStep(events[0]))] + steps;
    }
  }

  lemma {:induction false} RunArrivals(c: ReceiverSpec.RxConfig, s: R.RxSystem, events: seq<R.Event>, t: R.RxSystem)
    requires R.Run(c, s, events, t)
    ensures s.arrived <= t.arrived
    decreases |events|
  {
    hide R.Enabled, R.After;
    if events != [] {
      var s1 := R.After(c, s, events[0]);
      assert RS.StepTo(c, s, events[0], s1);
      RxStreams(c, s, events[0], s1);
      RunArrivals(c, s1, events[1..], t);
      PrefixTrans(s.arrived, s1.arrived, t.arrived);
    }
  }

  /** The receiver of the other side runs alone, on what has been sent. */
  lemma {:induction false} TunnelReceives(ca: Config, cb: Config, w: Tunnel, events: seq<R.Event>, u: R.RxSystem)
    returns (steps: seq<Step>, t: Tunnel)
    requires Consistent(cb, w.b) && w.b.cq == w.b.rx.cq && R.Run(cb.rx, w.b.rx, events, u)
    requires u.arrived <= w.a.tx.sent
    ensures TunnelRun(ca, cb, w, steps, t) && t.a == w.a
    ensures t.b.rx == u && t.b.tx == w.b.tx && t.b.failure == u.failure
    decreases |events|
  {
    hide Consistent, R.Enabled, R.After, Enabled, After;
    steps, t := [], w;
    if events == [] {
      ConsistentLives(cb, w.b);
      BothLive(cb, w.b);
    } else {
      var u1 := R.After(cb.rx, w.b.rx, events[0]);
      assert RS.StepTo(cb.rx, w.b.rx, events[0], u1);
      var b1 := RxSteps(cb, w.b, events[0], u1);
      RxStreams(cb.rx, w.b.rx, events[0], u1);
      RunArrivals(cb.rx, u1, events[1..], u);
      PrefixTrans(u1.arrived, u.arrived, w.a.tx.sent);
      if u1.failure.Some? {
        RT.FailedStops(cb.rx, u1, events[1..], u);
        t := w.(b := b1);
        assert TunnelRun(ca, cb, t, [], t);
      } else {
        steps, t := TunnelReceives(ca, cb, w.(b := b1), events[1..], u);
      }
      assert ([AtB(RxStep(events[0]))] + steps)[1..] == steps;
      steps := [AtB(RxStep(events[0]))] + steps;
    }
  }

  lemma BothLive(c: Config, s: Session)
    requires Consistent(c, s)
    ensures s.rx.failure.None? && s.tx.failure.None?
  {
    hide RR.Inv, TR.Inv, Only;
    RS.InvMemory(c.rx, s.rx);
    TS.InvMemory(c.tx, s.tx);
  }
}
