/** The wires between two machines.  A `Link` is one direction of the protocol, with the
    issuer's messages queued towards the peer and replies queued back; a `System` is both
    machines between whole transactions, either of which may issue next. */
module CoherenceBus {
  import opened Wrappers
  import opened Coherence

  predicate Agree(x: State, y: State) {
    && x.WellFormed() && y.WellFormed()
    && x.temp.pageCount == y.temp.pageCount
    && x.pageSize == y.pageSize
  }

  /** `waiting` is the page whose reply the issuer is blocked on; `got` lists the replies it
      has taken from the socket. */
  datatype Link = Link(
    x: State,
    y: State,
    queue: seq<ProcInfo>,
    replies: seq<string>,
    waiting: Option<nat>,
    got: seq<string>)
  {
    predicate WellFormed() {
      && Agree(x, y)
      && (forall k :: 0 <= k < |queue| ==> Deliverable(y, queue[k]))
      && (forall k :: 0 <= k < |replies| ==> |replies[k]| <= x.pageSize)
      && (waiting.Some? ==> waiting.value < x.temp.pageCount)
    }

    predicate Quiet() { queue == [] && replies == [] && waiting.None? }
  }

  predicate SameShape(l: Link, r: Link) {
    r.x.temp.pageCount == l.x.temp.pageCount && r.x.pageSize == l.x.pageSize
  }

  predicate CanIssue(l: Link, op: Op) {
    l.WellFormed() && l.waiting.None? && op.Fits(l.x.temp.pageCount, l.x.pageSize)
  }

  function IssueStep(l: Link, op: Op): (r: Link)
    requires CanIssue(l, op)
    ensures r.WellFormed() && SameShape(l, r)
  {
    var x' := Issue(l.x, op);
    if Sends(l.x, op) then
      l.(x := x', queue := l.queue + [x'.temp],
         waiting := if IsBusRead(l.x, op) then Some(op.page) else None)
    else
      l.(x := x')
  }

  function DeliverStep(l: Link): (r: Link)
    requires l.WellFormed() && l.queue != []
    ensures r.WellFormed() && SameShape(l, r)
  {
    l.(y := Snoop(l.y, l.queue[0]),
       queue := l.queue[1..],
       replies := l.replies + SnoopReply(l.y, l.queue[0]))
  }

  function ReceiveStep(l: Link): (r: Link)
    requires l.WellFormed() && l.waiting.Some? && l.replies != []
    ensures r.WellFormed() && SameShape(l, r)
  {
    l.(x := Complete(l.x, l.waiting.value, l.replies[0]),
       replies := l.replies[1..],
       waiting := None,
       got := l.got + [l.replies[0]])
  }

  /** A command, the peer's snoop of its message, and the reply if one is awaited and present. */
  function Transact(l: Link, op: Op): (r: Link)
    requires CanIssue(l, op)
    ensures r.WellFormed() && SameShape(l, r)
  {
    var l1 := IssueStep(l, op);
    var l2 := if l1.queue != [] then DeliverStep(l1) else l1;
    if l2.waiting.Some? && l2.replies != [] then ReceiveStep(l2) else l2
  }

  // ----- either machine may issue

  datatype Side = First | Second

  datatype Event = Event(side: Side, op: Op)

  /** Both machines, with whatever replies have been left unread on each client socket and
      any read that is still blocked. */
  datatype System = System(
    first: State,
    second: State,
    toFirst: seq<string>,
    toSecond: seq<string>,
    firstWaits: Option<nat>,
    secondWaits: Option<nat>)
  {
    predicate WellFormed() {
      LinkOf(this, First).WellFormed() && LinkOf(this, Second).WellFormed()
    }

    predicate Quiet() {
      toFirst == [] && toSecond == [] && firstWaits.None? && secondWaits.None?
    }
  }

  function LinkOf(sys: System, side: Side): Link {
    match side
    case First => Link(sys.first, sys.second, [], sys.toFirst, sys.firstWaits, [])
    case Second => Link(sys.second, sys.first, [], sys.toSecond, sys.secondWaits, [])
  }

  /** One whole transaction.  A machine blocked on a reply issues nothing. */
  function SysStep(sys: System, e: Event): (r: System)
    requires sys.WellFormed() && e.op.Fits(sys.first.temp.pageCount, sys.first.pageSize)
    ensures r.WellFormed()
    ensures r.first.temp.pageCount == sys.first.temp.pageCount && r.first.pageSize == sys.first.pageSize
  {
    var l := LinkOf(sys, e.side);
    if l.waiting.Some? then sys
    else
      var l' := Transact(l, e.op);
      match e.side
      case First => sys.(first := l'.x, second := l'.y, toFirst := l'.replies, firstWaits := l'.waiting)
      case Second => sys.(first := l'.y, second := l'.x, toSecond := l'.replies, secondWaits := l'.waiting)
  }

  /** The replies the issuer of `e` takes from its socket during the transaction. */
  function SysReplies(sys: System, e: Event): seq<string>
    requires sys.WellFormed() && e.op.Fits(sys.first.temp.pageCount, sys.first.pageSize)
  {
    var l := LinkOf(sys, e.side);
    if l.waiting.Some? then [] else Transact(l, e.op).got
  }

  predicate TraceFits(trace: seq<Event>, pageCount: nat, pageSize: nat) {
    forall k :: 0 <= k < |trace| ==> trace[k].op.Fits(pageCount, pageSize)
  }

  function SysRun(sys: System, trace: seq<Event>): (r: System)
    requires sys.WellFormed() && TraceFits(trace, sys.first.temp.pageCount, sys.first.pageSize)
    ensures r.WellFormed()
    ensures r.first.temp.pageCount == sys.first.temp.pageCount && r.first.pageSize == sys.first.pageSize
  {
    if trace == [] then sys
    else
      var n := |trace| - 1;
      SysStep(SysRun(sys, trace[..n]), trace[n])
  }

  /** How the two socket functions leave a machine: zeroed pages, every page invalid, and any
      values at all in the message struct. */
  predicate Initial(x: State) {
    && x.WellFormed()
    && forall p :: 0 <= p < x.temp.pageCount ==> x.msi[p] == INVALID && x.pages[p] == Zeros(x.pageSize)
  }

  predicate InitialSystem(sys: System) {
    Agree(sys.first, sys.second) && Initial(sys.first) && Initial(sys.second) && sys.Quiet()
  }
}
