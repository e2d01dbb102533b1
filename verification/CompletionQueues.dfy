/** First-in first-out queues of completions, and the operations they report on. */
module CompletionQueues {
  import opened Completions

  /** How many queued completions report on operations of type `op`. */
  function CountOf(op: OperationType, cq: seq<Cqe>): nat {
    if cq == [] then 0 else (if cq[0].op == op then 1 else 0) + CountOf(op, cq[1..])
  }

  lemma {:induction false} CountSnoc(op: OperationType, cq: seq<Cqe>, cqe: Cqe)
    ensures CountOf(op, cq + [cqe]) == CountOf(op, cq) + if cqe.op == op then 1 else 0
  {
    if cq == [] {
      assert cq + [cqe] == [cqe];
      assert [cqe][1..] == [];
    } else {
      assert (cq + [cqe])[1..] == cq[1..] + [cqe];
      CountSnoc(op, cq[1..], cqe);
    }
  }

  lemma {:induction false} OnlyOf(op: OperationType, cq: seq<Cqe>)
    requires forall i | 0 <= i < |cq| :: cq[i].op == op
    ensures CountOf(op, cq) == |cq|
    decreases |cq|
  {
    if cq != [] {
      OnlyOf(op, cq[1..]);
    }
  }

  /**
   * With `armed` operations of type `op` in the kernel: after every queued completion is handled, one is armed
   * unless the handler is cooling down. A completion that found no buffers starts the cooldown; any other that
   * ends the operation arms the next one.
   */
  predicate Flow(op: OperationType, cq: seq<Cqe>, armed: nat, coolingDown: bool)
    decreases |cq|
  {
    if cq == [] then armed == if coolingDown then 0 else 1
    else if cq[0].op != op then Flow(op, cq[1..], armed, coolingDown)
    else
      && !coolingDown
      && if cq[0].more then Flow(op, cq[1..], armed, false)
         else if cq[0].IsNoBuffers() then Flow(op, cq[1..], armed, true)
         else Flow(op, cq[1..], armed + 1, false)
  }

  /** Posting a completion keeps the flow. */
  lemma {:induction false} FlowSnoc(op: OperationType, cq: seq<Cqe>, armed: nat, coolingDown: bool, cqe: Cqe)
    requires Flow(op, cq, armed, coolingDown)
    ensures cqe.op != op ==> Flow(op, cq + [cqe], armed, coolingDown)
    ensures cqe.op == op && armed > 0 ==> Flow(op, cq + [cqe], if cqe.more then armed else armed - 1, coolingDown)
    decreases |cq|
  {
    hide Cqe.IsNoBuffers;
    if cq == [] {
      assert cq + [cqe] == [cqe];
      assert [cqe][1..] == [];
    } else {
      assert (cq + [cqe])[1..] == cq[1..] + [cqe];
      if cq[0].op != op {
        FlowSnoc(op, cq[1..], armed, coolingDown, cqe);
      } else if cq[0].more {
        FlowSnoc(op, cq[1..], armed, false, cqe);
      } else if cq[0].IsNoBuffers() {
        FlowSnoc(op, cq[1..], armed, true, cqe);
      } else {
        FlowSnoc(op, cq[1..], armed + 1, false, cqe);
      }
    }
  }

  /** Arming the operation ends the cooldown. */
  lemma {:induction false} FlowRearm(op: OperationType, cq: seq<Cqe>, armed: nat)
    requires Flow(op, cq, armed, true)
    ensures armed == 0 && Flow(op, cq, 1, false)
    ensures forall i | 0 <= i < |cq| :: cq[i].op != op
    decreases |cq|
  {
    if cq != [] {
      FlowRearm(op, cq[1..], armed);
    }
  }

  /** Queued completions that ended an operation. */
  function Ended(op: OperationType, cq: seq<Cqe>): nat {
    if cq == [] then 0 else (if cq[0].op == op && !cq[0].more then 1 else 0) + Ended(op, cq[1..])
  }

  /** Exactly one operation is armed, or ended and about to be handled, or else the handler is cooling down. */
  lemma {:induction false} FlowCounts(op: OperationType, cq: seq<Cqe>, armed: nat, coolingDown: bool)
    requires Flow(op, cq, armed, coolingDown)
    ensures armed + Ended(op, cq) + (if coolingDown then 1 else 0) == 1
    ensures coolingDown ==> forall i | 0 <= i < |cq| :: cq[i].op != op
    decreases |cq|
  {
    hide Cqe.IsNoBuffers;
    if cq != [] {
      if cq[0].op != op {
        FlowCounts(op, cq[1..], armed, coolingDown);
      } else if cq[0].more {
        FlowCounts(op, cq[1..], armed, false);
      } else if cq[0].IsNoBuffers() {
        FlowCounts(op, cq[1..], armed, true);
      } else {
        FlowCounts(op, cq[1..], armed + 1, false);
      }
    }
  }
}
