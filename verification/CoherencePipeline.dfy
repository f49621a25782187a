/** One machine issues while its messages are still queued and the peer only snoops.  However
    issuing, snooping and receiving interleave, the end is the one reached by delivering each
    message at once. */
module CoherencePipeline {
  import opened Wrappers
  import opened Coherence
  import opened CoherenceBus
  import opened CoherenceProofs
  import opened Seqs

  // ----- delivering each message at once

  predicate OpsFit(ops: seq<Op>, pageCount: nat, pageSize: nat) {
    forall k :: 0 <= k < |ops| ==> ops[k].Fits(pageCount, pageSize)
  }

  function TransactRun(l: Link, ops: seq<Op>): (r: Link)
    requires l.WellFormed() && OpsFit(ops, l.x.temp.pageCount, l.x.pageSize)
    ensures r.WellFormed() && SameShape(l, r)
  {
    if ops == [] then l
    else
      var r := TransactRun(l, ops[..|ops| - 1]);
      if r.waiting.Some? then r else Transact(r, ops[|ops| - 1])
  }

  function SpecOps(specs: seq<PageSpec>, ops: seq<Op>): (r: seq<PageSpec>)
    requires forall k :: 0 <= k < |ops| ==> ops[k].ViewPages? || ops[k].page < |specs|
    ensures |r| == |specs|
  {
    if ops == [] then specs else SpecAll(SpecOps(specs, ops[..|ops| - 1]), ops[|ops| - 1])
  }

  lemma {:induction false} TransactRunSimulates(l: Link, ops: seq<Op>, specs: seq<PageSpec>)
    requires l.WellFormed() && l.Quiet() && Rel(l.x, l.y, specs)
    requires OpsFit(ops, l.x.temp.pageCount, l.x.pageSize)
    ensures TransactRun(l, ops).Quiet()
    ensures Rel(TransactRun(l, ops).x, TransactRun(l, ops).y, SpecOps(specs, ops))
  {
    if ops != [] {
      var n := |ops| - 1;
      TransactRunSimulates(l, ops[..n], specs);
      TransactSimulates(TransactRun(l, ops[..n]), ops[n], SpecOps(specs, ops[..n]));
    }
  }

  // ----- messages in flight

  datatype Step = DoIssue(op: Op) | DoDeliver | DoReceive

  predicate Enabled(l: Link, step: Step) {
    && l.WellFormed()
    && match step
       case DoIssue(op) => CanIssue(l, op)
       case DoDeliver => l.queue != []
       case DoReceive => l.waiting.Some? && l.replies != [] && l.replies[0] != ""
  }

  function Exec(l: Link, step: Step): (r: Link)
    requires Enabled(l, step)
    ensures r.WellFormed() && SameShape(l, r)
  {
    match step
    case DoIssue(op) => IssueStep(l, op)
    case DoDeliver => DeliverStep(l)
    case DoReceive => ReceiveStep(l)
  }

  /** The state after a schedule, or None when some step of it was not possible. */
  function Run(l: Link, steps: seq<Step>): (r: Option<Link>)
    requires l.WellFormed()
    ensures r.Some? ==> r.value.WellFormed() && SameShape(l, r.value)
  {
    if steps == [] then Some(l)
    else
      match Run(l, steps[..|steps| - 1])
      case None => None
      case Some(mid) =>
        if Enabled(mid, steps[|steps| - 1]) then Some(Exec(mid, steps[|steps| - 1])) else None
  }

  function Issued(steps: seq<Step>): (ops: seq<Op>) {
    if steps == [] then []
    else
      var last := steps[|steps| - 1];
      Issued(steps[..|steps| - 1]) + if last.DoIssue? then [last.op] else []
  }

  lemma {:induction false} IssuedFits(l: Link, steps: seq<Step>)
    requires l.WellFormed() && Run(l, steps).Some?
    ensures OpsFit(Issued(steps), l.x.temp.pageCount, l.x.pageSize)
  {
    if steps != [] {
      IssuedFits(l, steps[..|steps| - 1]);
    }
  }

  predicate AllDeliverable(y: State, queue: seq<ProcInfo>) {
    y.WellFormed() && forall k :: 0 <= k < |queue| ==> Deliverable(y, queue[k])
  }

  /** The peer once everything queued has arrived, and what it answers on the way. */
  function Drain(y: State, queue: seq<ProcInfo>): (r: State)
    requires AllDeliverable(y, queue)
    ensures r.WellFormed() && r.temp.pageCount == y.temp.pageCount && r.pageSize == y.pageSize
    decreases |queue|
  {
    if queue == [] then y else Drain(Snoop(y, queue[0]), queue[1..])
  }

  function DrainReplies(y: State, queue: seq<ProcInfo>): seq<string>
    requires AllDeliverable(y, queue)
    decreases |queue|
  {
    if queue == [] then []
    else SnoopReply(y, queue[0]) + DrainReplies(Snoop(y, queue[0]), queue[1..])
  }

  lemma {:induction false} DrainAppend(y: State, queue: seq<ProcInfo>, m: ProcInfo)
    requires AllDeliverable(y, queue) && Deliverable(y, m)
    ensures AllDeliverable(y, queue + [m]) && Deliverable(Drain(y, queue), m)
    ensures Drain(y, queue + [m]) == Snoop(Drain(y, queue), m)
    ensures DrainReplies(y, queue + [m]) == DrainReplies(y, queue) + SnoopReply(Drain(y, queue), m)
    decreases |queue|
  {
    if queue == [] {
      assert [] + [m] == [m] && [m][1..] == [];
    } else {
      var y', first := Snoop(y, queue[0]), SnoopReply(y, queue[0]);
      DeliverableKept(y, queue[0], m);
      hide Snoop, SnoopReply, Deliverable;
      DrainAppend(y', queue[1..], m);
      assert (queue + [m])[1..] == queue[1..] + [m];
      Assoc(first, DrainReplies(y', queue[1..]), SnoopReply(Drain(y, queue), m));
    }
  }

  /** Snooping one message does not affect whether another can be delivered. */
  lemma DeliverableKept(y: State, m: ProcInfo, next: ProcInfo)
    requires Deliverable(y, m) && Deliverable(y, next)
    ensures Deliverable(Snoop(y, m), next)
  {
  }

  /** The state with messages in flight, against the state where each was delivered at once:
      they differ by exactly the undelivered messages and the one reply still awaited. */
  predicate Pipe(l: Link, now: Link) {
    && l.WellFormed() && now.WellFormed() && now.Quiet() && SameShape(l, now)
    && Drain(l.y, l.queue) == now.y
    && var pending := l.replies + DrainReplies(l.y, l.queue);
       match l.waiting
       case None => pending == [] && l.x == now.x && l.got == now.got
       case Some(p) =>
         && |pending| == 1 && 0 < |pending[0]| <= l.x.pageSize
         && now.x == Complete(l.x, p, pending[0])
         && now.got == l.got + pending
  }

  /** What a transaction that sends does, when it leaves nothing behind. */
  lemma TransactParts(now: Link, op: Op)
    requires CanIssue(now, op) && now.Quiet() && Sends(now.x, op) && Transact(now, op).Quiet()
    ensures var x', r := Issue(now.x, op), Transact(now, op);
            && Deliverable(now.y, x'.temp)
            && r.y == Snoop(now.y, x'.temp)
            && var reply := SnoopReply(now.y, x'.temp);
               if IsBusRead(now.x, op) then
                 && |reply| == 1 && 0 < |reply[0]| <= now.x.pageSize
                 && r.x == Complete(x', op.page, reply[0]) && r.got == now.got + reply
               else reply == [] && r.x == x' && r.got == now.got
  {
    assert IssueStep(now, op).queue == [Issue(now.x, op).temp];
  }

  lemma IssueKeepsPipe(l: Link, now: Link, op: Op)
    requires Pipe(l, now) && CanIssue(l, op) && CanIssue(now, op) && Transact(now, op).Quiet()
    ensures Pipe(IssueStep(l, op), Transact(now, op))
  {
    if Sends(l.x, op) {
      TransactParts(now, op);
      hide Transact, Issue, Snoop, SnoopReply, Deliverable, Complete, Drain, DrainReplies;
      DrainAppend(l.y, l.queue, Issue(l.x, op).temp);
    } else {
      hide Issue, Snoop, Deliverable, Complete, Drain, DrainReplies;
    }
  }

  lemma DrainFirst(y: State, queue: seq<ProcInfo>)
    requires AllDeliverable(y, queue) && queue != []
    ensures AllDeliverable(Snoop(y, queue[0]), queue[1..])
    ensures Drain(y, queue) == Drain(Snoop(y, queue[0]), queue[1..])
    ensures DrainReplies(y, queue) == SnoopReply(y, queue[0]) + DrainReplies(Snoop(y, queue[0]), queue[1..])
  {
  }

  lemma DeliverKeepsPipe(l: Link, now: Link)
    requires Pipe(l, now) && l.queue != []
    ensures Pipe(DeliverStep(l), now)
  {
    DrainFirst(l.y, l.queue);
    hide Snoop, SnoopReply, Deliverable, Complete, Drain, DrainReplies;
    var l' := DeliverStep(l);
    Assoc(l.replies, SnoopReply(l.y, l.queue[0]), DrainReplies(l'.y, l'.queue));
  }

  lemma ReceiveKeepsPipe(l: Link, now: Link)
    requires Pipe(l, now) && l.waiting.Some? && l.replies != []
    ensures Pipe(ReceiveStep(l), now)
  {
    var pending := l.replies + DrainReplies(l.y, l.queue);
    assert pending[0] == l.replies[0];
    assert |l.replies| == 1 && DrainReplies(l.y, l.queue) == [];
  }

  lemma TransactRunAppend(l: Link, ops: seq<Op>, op: Op, specs: seq<PageSpec>)
    requires l.WellFormed() && l.Quiet() && Rel(l.x, l.y, specs)
    requires OpsFit(ops, l.x.temp.pageCount, l.x.pageSize) && op.Fits(l.x.temp.pageCount, l.x.pageSize)
    ensures OpsFit(ops + [op], l.x.temp.pageCount, l.x.pageSize)
    ensures CanIssue(TransactRun(l, ops), op)
    ensures TransactRun(l, ops + [op]) == Transact(TransactRun(l, ops), op)
    ensures Transact(TransactRun(l, ops), op).Quiet()
  {
    assert (ops + [op])[..|ops|] == ops;
    TransactRunSimulates(l, ops, specs);
    TransactSimulates(TransactRun(l, ops), op, SpecOps(specs, ops));
  }

  lemma {:induction false} RunKeepsPipe(l: Link, steps: seq<Step>, specs: seq<PageSpec>)
    requires l.WellFormed() && l.Quiet() && Rel(l.x, l.y, specs) && Run(l, steps).Some?
    ensures OpsFit(Issued(steps), l.x.temp.pageCount, l.x.pageSize)
    ensures Pipe(Run(l, steps).value, TransactRun(l, Issued(steps)))
  {
    IssuedFits(l, steps);
    if steps != [] {
      var before, step := steps[..|steps| - 1], steps[|steps| - 1];
      RunKeepsPipe(l, before, specs);
      var mid, now := Run(l, before).value, TransactRun(l, Issued(before));
      if step.DoIssue? {
        TransactRunAppend(l, Issued(before), step.op, specs);
        IssueKeepsPipe(mid, now, step.op);
      } else {
        assert Issued(steps) == Issued(before);
        if step == DoDeliver {
          DeliverKeepsPipe(mid, now);
        } else {
          ReceiveKeepsPipe(mid, now);
        }
      }
    }
  }

  /** One-sided pipelining: once everything has arrived, both machines, every reply received
      and the wires are as if each message had been delivered at once. */
  lemma Pipelining(l: Link, steps: seq<Step>, specs: seq<PageSpec>)
    requires l.WellFormed() && l.Quiet() && Rel(l.x, l.y, specs) && Run(l, steps).Some?
    requires Run(l, steps).value.queue == [] && Run(l, steps).value.waiting.None?
    ensures OpsFit(Issued(steps), l.x.temp.pageCount, l.x.pageSize)
    ensures Run(l, steps).value == TransactRun(l, Issued(steps))
  {
    RunKeepsPipe(l, steps, specs);
  }

  lemma PendingOfPipe(l: Link, now: Link)
    requires Pipe(l, now)
    ensures var pending := l.replies + DrainReplies(l.y, l.queue);
            && |pending| == (if l.waiting.Some? then 1 else 0)
            && forall k :: 0 <= k < |pending| ==> pending[k] != ""
  {
    hide Drain, DrainReplies, Complete;
  }

  /** At every point of every schedule: an issuer that waits has exactly one reply on its way,
      and one with something in it, so that the blocking read ends; an issuer that does not wait
      has none, so no reply is ever left for a later read. */
  lemma RepliesInFlight(l: Link, steps: seq<Step>, specs: seq<PageSpec>)
    requires l.WellFormed() && l.Quiet() && Rel(l.x, l.y, specs) && Run(l, steps).Some?
    ensures var mid := Run(l, steps).value;
            var pending := mid.replies + DrainReplies(mid.y, mid.queue);
            && |pending| == (if mid.waiting.Some? then 1 else 0)
            && forall k :: 0 <= k < |pending| ==> pending[k] != ""
  {
    hide Run, Issued, TransactRun, Rel, Pipe;
    RunKeepsPipe(l, steps, specs);
    PendingOfPipe(Run(l, steps).value, TransactRun(l, Issued(steps)));
  }

  lemma RunAppend(l: Link, steps: seq<Step>, step: Step)
    requires l.WellFormed() && Run(l, steps).Some? && Enabled(Run(l, steps).value, step)
    ensures Run(l, steps + [step]) == Some(Exec(Run(l, steps).value, step))
    ensures !step.DoIssue? ==> Issued(steps + [step]) == Issued(steps)
  {
    assert (steps + [step])[..|steps|] == steps;
  }

  function Unsettled(l: Link): nat {
    |l.queue| + if l.waiting.Some? then 1 else 0
  }

  lemma SettleOne(l: Link, steps: seq<Step>, specs: seq<PageSpec>) returns (next: Step)
    requires l.WellFormed() && l.Quiet() && Rel(l.x, l.y, specs) && Run(l, steps).Some?
    requires Unsettled(Run(l, steps).value) > 0
    ensures Run(l, steps + [next]).Some? && Issued(steps + [next]) == Issued(steps)
    ensures Unsettled(Run(l, steps + [next]).value) < Unsettled(Run(l, steps).value)
  {
    var mid := Run(l, steps).value;
    RepliesInFlight(l, steps, specs);
    next := if mid.queue != [] then DoDeliver else DoReceive;
    if mid.queue == [] {
      var pending := mid.replies + DrainReplies(mid.y, mid.queue);
      assert pending == mid.replies && pending[0] != "";
    }
    RunAppend(l, steps, next);
  }

  /** No deadlock: every schedule can be carried on, by snooping and receiving alone, until
      nothing is in flight. */
  lemma {:induction false} CanSettle(l: Link, steps: seq<Step>, specs: seq<PageSpec>) returns (more: seq<Step>)
    requires l.WellFormed() && l.Quiet() && Rel(l.x, l.y, specs) && Run(l, steps).Some?
    ensures Run(l, steps + more).Some? && Unsettled(Run(l, steps + more).value) == 0
    ensures Issued(steps + more) == Issued(steps)
    decreases Unsettled(Run(l, steps).value)
  {
    hide Run, Issued, Rel, Unsettled;
    if Unsettled(Run(l, steps).value) == 0 {
      more := [];
      assert steps + more == steps;
    } else {
      var next := SettleOne(l, steps, specs);
      var rest := CanSettle(l, steps + [next], specs);
      more := [next] + rest;
      assert steps + more == (steps + [next]) + rest;
    }
  }
}
