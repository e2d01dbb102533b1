/** When a receiver that ran out of buffers receives again, and when it never does. */
module ReceiveCooldown {
  import opened ByteStreams
  import opened Completions
  import opened CompletionQueues
  import opened KernelMemory
  import opened ReceiverSpec
  import opened ReceiverInvariant
  import opened ReceiveSystem
  import opened ReceiveRuns
  import opened ReceiveSafety
  import opened ReceiveTheorems

  // --- Nothing outstanding ----------------------------------------------------------------------

  /** No operation is outstanding and no completion is queued: nothing will ever wake the receiver. */
  predicate Asleep(s: RxSystem) {
    s.rx.recvOps == 0 && s.rx.writeOps == 0 && s.cq == []
  }

  lemma AsleepIff(c: RxConfig, s: RxSystem)
    requires Inv(c, s)
    ensures Asleep(s) <==> s.rx.coolingDown && s.rx.output == []
  {
    InvOperations(c, s);
    InvQueue(c, s);
    hide Inv, CqeOk;
    FlowCounts(RECV, s.cq, s.rx.recvOps, s.rx.coolingDown);
    if s.rx.coolingDown && s.rx.output == [] {
      OnlyOf(WRITE, s.cq);
    }
  }

  /** In every reachable state the receiver is asleep exactly when it is cooling down with nothing left to write. */
  lemma AsleepExactly(c: RxConfig, mem: seq<byte>, events: seq<Event>, t: RxSystem)
    requires |mem| == c.pool.Bytes() && Run(c, Start(c, mem), events, t) && t.failure.None?
    ensures Asleep(t) <==> t.rx.coolingDown && t.rx.output == []
  {
    hide Inv, Run, Start;
    RunInv(c, mem, events, t);
    AsleepIff(c, t);
  }

  lemma InvQueue(c: RxConfig, s: RxSystem)
    requires Inv(c, s)
    ensures forall i | 0 <= i < |s.cq| :: s.cq[i].op == RECV || s.cq[i].op == WRITE
  {
    hide ParseInv, Partition, Operations, Accepted, Delivered, Arrived;
  }

  lemma AsleepStep(c: RxConfig, s: RxSystem, e: Event, t: RxSystem)
    requires Asleep(s) && ReceiveSafety.StepTo(c, s, e, t)
    ensures e.Scribble? && t == s.(mem := t.mem)
  {
    hide HandleNext, Shape, OnlyAvailChanges;
  }

  /** A receiver asleep sleeps for ever. */
  lemma {:induction false} AsleepForever(c: RxConfig, s: RxSystem, events: seq<Event>, t: RxSystem)
    requires Asleep(s) && Run(c, s, events, t)
    ensures t == s.(mem := t.mem)
    decreases |events|
  {
    hide Enabled, After;
    if events != [] {
      AsleepStep(c, s, events[0], After(c, s, events[0]));
      AsleepForever(c, After(c, s, events[0]), events[1..], t);
    }
  }

  // --- Buffers the partial frame holds ----------------------------------------------------------

  function BidSet(bids: seq<nat>): set<nat> {
    set i | 0 <= i < |bids| :: bids[i]
  }

  lemma {:induction false} DistinctSize(bids: seq<nat>)
    requires Distinct(bids)
    ensures |BidSet(bids)| == |bids|
    decreases |bids|
  {
    if bids != [] {
      hide BidSet;
      var init, last := bids[..|bids| - 1], bids[|bids| - 1];
      DistinctSize(init);
      BidSetSnoc(bids);
      assert |BidSet(init) + {last}| == |BidSet(init)| + 1;
    }
  }

  lemma BidSetSnoc(bids: seq<nat>)
    requires bids != [] && Distinct(bids)
    ensures var init, last := bids[..|bids| - 1], bids[|bids| - 1];
      BidSet(bids) == BidSet(init) + {last} && last !in BidSet(init)
  {
  }

  lemma SubsetSize<T>(a: set<T>, b: set<T>)
    requires a <= b
    ensures |a| <= |b|
  {
    assert b == a + (b - a);
  }

  /** The buffers in use include those of the partial frame; with nothing to write they are just these. */
  lemma PartialFrame(c: RxConfig, s: RxSystem)
    requires Inv(c, s)
    ensures |s.rx.frame.bid| <= s.rx.used
    ensures s.rx.output == [] ==> s.rx.used == |s.rx.frame.bid|
  {
    hide Log, OutLog, FrameLog, Occurrences, InInput, HeldSet, Distinct, FrameShape;
    PartialFacts(c, s);
    hide Inv;
    var bids := s.rx.frame.bid;
    DistinctSize(bids);
    FramesHeld(s.rx);
    PartialHeld(c, s.rx);
    SubsetSize(BidSet(bids), HeldSet(c, s.rx));
  }

  lemma PartialFacts(c: RxConfig, s: RxSystem)
    requires Inv(c, s)
    ensures Distinct(s.rx.frame.bid) && s.rx.used == |HeldSet(c, s.rx)| && s.rx.input == []
    ensures forall i | 0 <= i < |s.rx.frame.bid| :: s.rx.frame.bid[i] < c.pool.count
  {
    hide Accepted, Delivered, Arrived, Operations, Spaced, HeldSet, Partition, Progress, InputOk, Distinct;
  }

  lemma PartialHeld(c: RxConfig, rx: RxState)
    requires rx.input == [] && forall i | 0 <= i < |rx.frame.bid| :: rx.frame.bid[i] < c.pool.count
    ensures BidSet(rx.frame.bid) <= HeldSet(c, rx)
    ensures rx.output == [] ==> HeldSet(c, rx) == BidSet(rx.frame.bid)
  {
    FramesHeld(rx);
    hide Occurrences, InInput, OutLog;
    forall b: nat ensures !InInput(rx.input, b) { NotInInput(rx, b); }
    if rx.output == [] {
      NoOutLog();
      assert Log(rx) == FrameLog(rx.frame);
      forall b: nat | Occurrences(Log(rx), b) > 0 ensures b in BidSet(rx.frame.bid) {
        OccurrencesNone(Log(rx), b);
      }
    }
  }

  lemma NoOutLog()
    ensures OutLog([]) == []
  {
  }

  lemma NotInInput(rx: RxState, b: nat)
    requires rx.input == []
    ensures !InInput(rx.input, b)
  {
  }

  // --- Cooling down -----------------------------------------------------------------------------

  /** `t` comes after `s` in one stretch of cooling down. */
  ghost predicate CoolingSince(c: RxConfig, s: RxSystem, t: RxSystem) {
    && t.rx.coolingDown && t.rx.frame == s.rx.frame
    && s.acked <= t.acked <= s.acked + |s.rx.output|
    && t.rx.output == s.rx.output[t.acked - s.acked..]
    && (t.acked > s.acked ==> t.rx.used >= c.pool.count / 2)
  }

  /** What a write does to the cooldown. */
  lemma WriteCools(c: RxConfig, s: RxSystem, t: RxSystem)
    requires s.cq != [] && s.cq[0].op == WRITE && t.failure.None?
    requires Inv(c, s) && HandledTo(c, s, t)
    ensures t.rx.coolingDown == (s.rx.coolingDown && t.rx.used >= c.pool.count / 2)
    ensures t.rx.frame == s.rx.frame && s.rx.output != [] && t.rx.output == s.rx.output[1..] && t.acked == s.acked + 1
  {
    hide Inv, Books, HandleNext, Expected, HandleCqe, Enabled, ReleaseAll, Popped, KernelTook, HandledTo, WriteDone;
    WriteOutstanding(c, s);
    WriteBooks(c, s.rx, s.cq);
    WriteNext(c, s, t);
    WriteKeepsFrames(c, s, t);
    PoppedPosition(s.rx.(writeInProgress := false), t.rx);
    WriteDoneCools(c, ReleaseAll(s.rx.(writeInProgress := false), s.rx.output[0].bid).0);
  }

  lemma WriteDoneCools(c: RxConfig, s: RxState)
    requires s.output != []
    ensures var t := WriteDone(c, s);
      t.used == s.used && t.coolingDown == (s.coolingDown && s.used >= c.pool.count / 2)
  {
  }

  /** While cooling down, nothing happens but writes. */
  lemma CoolingStep(c: RxConfig, s: RxSystem, e: Event, t: RxSystem)
    requires Inv(c, s) && ReceiveSafety.StepTo(c, s, e, t) && s.rx.coolingDown && t.failure.None?
    ensures !e.Handle? ==> t.rx == s.rx.(avail := t.rx.avail, recvOps := t.rx.recvOps, writeOps := t.rx.writeOps)
                           && t.acked == s.acked
    ensures e.Handle? ==> s.cq != [] && s.cq[0].op == WRITE && HandledTo(c, s, t)
  {
    hide Inv, ReceiveSafety.StepTo, HandledTo;
    InvOperations(c, s);
    if e.Handle? {
      HandleStep(c, s, t);
      InvQueue(c, s);
      FlowCounts(RECV, s.cq, s.rx.recvOps, s.rx.coolingDown);
    } else {
      KernelTouches(c, s, e, t);
    }
  }

  lemma CoolingKeeps(c: RxConfig, s: RxSystem, t: RxSystem, e: Event, u: RxSystem)
    requires CoolingSince(c, s, t) && Inv(c, t) && ReceiveSafety.StepTo(c, t, e, u) && u.failure.None?
    ensures u.rx.coolingDown ==> CoolingSince(c, s, u)
    ensures |s.rx.frame.bid| >= c.pool.count / 2 || s.rx.output == [] ==> u.rx.coolingDown
    ensures Inv(c, u)
  {
    hide Inv, ReceiveSafety.StepTo, HandledTo;
    EventKeeps(c, t, e, u);
    PartialFrame(c, u);
    CoolingStep(c, t, e, u);
    if e.Handle? {
      WriteCools(c, t, u);
      assert s.rx.output[t.acked - s.acked..][1..] == s.rx.output[u.acked - s.acked..];
    }
  }

  /** Every state of the run is cooling down. */
  predicate CoolingThroughout(c: RxConfig, s: RxSystem, events: seq<Event>)
    decreases |events|
  {
    && s.rx.coolingDown
    && (events != [] ==> Enabled(c, s, events[0]) && CoolingThroughout(c, After(c, s, events[0]), events[1..]))
  }

  lemma {:induction false} CoolingRun(c: RxConfig, s: RxSystem, t: RxSystem, events: seq<Event>, u: RxSystem)
    requires CoolingSince(c, s, t) && Inv(c, t) && Run(c, t, events, u) && u.failure.None?
    ensures |s.rx.frame.bid| >= c.pool.count / 2 || s.rx.output == [] ==> CoolingThroughout(c, t, events)
    ensures CoolingThroughout(c, t, events) ==> CoolingSince(c, s, u) && Inv(c, u)
    decreases |events|
  {
    hide Inv, Enabled, After, CoolingSince;
    if events == [] {
      assert t.rx.coolingDown by { Cools(c, s, t); }
    } else {
      var t1 := After(c, t, events[0]);
      assert ReceiveSafety.StepTo(c, t, events[0], t1);
      if t1.failure.Some? {
        FailedStops(c, t1, events[1..], u);
      } else {
        assert t.rx.coolingDown by { Cools(c, s, t); }
        CoolingKeeps(c, s, t, events[0], t1);
        if t1.rx.coolingDown {
          CoolingRun(c, s, t1, events[1..], u);
        } else {
          assert !CoolingThroughout(c, t1, events[1..]);
        }
      }
    }
  }

  lemma Cools(c: RxConfig, s: RxSystem, t: RxSystem)
    requires CoolingSince(c, s, t)
    ensures t.rx.coolingDown
  {
  }

  /**
   * A receiver that is cooling down with frames to write and a partial frame in fewer than half the buffers
   * receives again no later than when the last of these frames is written.
   */
  lemma CooldownEnds(c: RxConfig, mem: seq<byte>, before: seq<Event>, s: RxSystem, events: seq<Event>, t: RxSystem)
    requires |mem| == c.pool.Bytes() && Run(c, Start(c, mem), before, s) && s.failure.None? && s.rx.coolingDown
    requires Run(c, s, events, t) && t.failure.None?
    requires s.rx.output != [] && |s.rx.frame.bid| < c.pool.count / 2
    requires t.acked >= s.acked + |s.rx.output|
    ensures !CoolingThroughout(c, s, events)
  {
    hide Inv, Run, Start, CoolingThroughout;
    RunInv(c, mem, before, s);
    assert s.rx.output[0..] == s.rx.output;
    CoolingRun(c, s, s, events, t);
    if CoolingThroughout(c, s, events) {
      PartialFrame(c, t);
    }
  }

  /** Otherwise it never receives again, whatever happens. */
  lemma CooldownLasts(c: RxConfig, mem: seq<byte>, before: seq<Event>, s: RxSystem, events: seq<Event>, t: RxSystem)
    requires |mem| == c.pool.Bytes() && Run(c, Start(c, mem), before, s) && s.failure.None? && s.rx.coolingDown
    requires Run(c, s, events, t) && t.failure.None?
    requires s.rx.output == [] || |s.rx.frame.bid| >= c.pool.count / 2
    ensures CoolingThroughout(c, s, events) && t.rx.coolingDown
    ensures t.arrived == s.arrived
  {
    hide Inv, Run, Start, CoolingThroughout;
    RunInv(c, mem, before, s);
    assert s.rx.output[0..] == s.rx.output;
    CoolingRun(c, s, s, events, t);
    NothingArrives(c, s, events, t);
  }

  lemma {:induction false} NothingArrives(c: RxConfig, s: RxSystem, events: seq<Event>, t: RxSystem)
    requires Inv(c, s) && Run(c, s, events, t) && CoolingThroughout(c, s, events) && t.failure.None?
    ensures t.arrived == s.arrived
    decreases |events|
  {
    hide Inv, Enabled, After;
    if events != [] {
      var s1 := After(c, s, events[0]);
      assert ReceiveSafety.StepTo(c, s, events[0], s1);
      InvOperations(c, s);
      FlowCounts(RECV, s.cq, s.rx.recvOps, s.rx.coolingDown);
      NoReceive(c, s, events[0], s1);
      EventKeeps(c, s, events[0], s1);
      if s1.failure.Some? {
        FailedStops(c, s1, events[1..], t);
      } else {
        NothingArrives(c, s1, events[1..], t);
      }
    }
  }

  lemma NoReceive(c: RxConfig, s: RxSystem, e: Event, t: RxSystem)
    requires s.rx.recvOps == 0 && ReceiveSafety.StepTo(c, s, e, t)
    ensures t.arrived == s.arrived
  {
    hide Shape, HandleCqe, OnlyAvailChanges, Content;
  }
}
