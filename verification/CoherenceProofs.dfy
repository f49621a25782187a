/** Atomic runs of the flag-level protocol simulate a pure machine on pairs of page modes,
    whatever the signals hold at the start; safety, the reply a read gets and the exact
    contents of a flush all follow from that one simulation. */
module CoherenceProofs {
  import opened Wrappers
  import opened Coherence
  import opened CoherenceBus

  // ----- the pure machine

  datatype Mode = Modified | Shared | Invalid

  /** One page as the pair of machines should see it: the modes, the messages each machine has
      written since its own copy was last zeroed, and the latest message of either machine. */
  datatype PageSpec = PageSpec(mine: Mode, peer: Mode, mineLog: seq<string>, peerLog: seq<string>, last: Option<string>)
  {
    function Swap(): PageSpec { PageSpec(peer, mine, peerLog, mineLog, last) }

    /** Of two shared copies one is the last reader's, zeroed and not written since; the other
        is what it read, unless there was nothing to read. */
    predicate Legal() {
      || (mine == Invalid && peer == Invalid && last.None? && mineLog == [] && peerLog == [])
      || (mine == Shared && peer == Shared && (last.None? ==> mineLog == [] && peerLog == [])
          && (last.Some? ==> (mineLog == []) != (peerLog == [])))
      || (mine == Modified && peer == Invalid && mineLog != [] && last == Some(mineLog[|mineLog| - 1]))
      || (mine == Invalid && peer == Modified && peerLog != [] && last == Some(peerLog[|peerLog| - 1]))
    }
  }

  function SpecStep(s: PageSpec, op: Op): PageSpec {
    match op
    case ViewPages(_) => s
    case ReadPage(_) => if s.mine == Invalid then s.(mine := Shared, peer := Shared, mineLog := []) else s
    case WritePage(_, msg) => s.(mine := Modified, peer := Invalid, mineLog := s.mineLog + [msg], last := Some(msg))
  }

  function SpecReplies(s: PageSpec, op: Op, pageSize: nat): seq<string>
    requires Log(s.peerLog, pageSize)
  {
    if op.ReadPage? && s.mine == Invalid then
      [if s.peer == Modified then CString(Overlay(s.peerLog, pageSize)) else NO_DATA]
    else []
  }

  predicate Log(log: seq<string>, pageSize: nat) {
    forall k :: 0 <= k < |log| ==> Message(log[k], pageSize)
  }

  /** A zeroed page with the messages of `log` copied over its start, oldest first. */
  function Overlay(log: seq<string>, pageSize: nat): (r: string)
    requires Log(log, pageSize)
    ensures |r| == pageSize
  {
    if log == [] then Zeros(pageSize)
    else Overwrite(Overlay(log[..|log| - 1], pageSize), log[|log| - 1])
  }

  // ----- the simulation relation

  predicate OneFlag(f: Flags) {
    f == MODIFIED || f == SHARED || f == INVALID
  }

  function FlagsOf(mode: Mode): Flags {
    match mode
    case Modified => MODIFIED
    case Shared => SHARED
    case Invalid => INVALID
  }

  /** The last conjunct is the key invariant: neither struct holds a read request for a page that
      is modified anywhere. */
  predicate PageRel(x: State, y: State, p: nat, s: PageSpec)
    requires Agree(x, y) && p < x.temp.pageCount
  {
    && s.Legal()
    && x.msi[p] == FlagsOf(s.mine)
    && y.msi[p] == FlagsOf(s.peer)
    && Log(s.mineLog, x.pageSize) && x.pages[p] == Overlay(s.mineLog, x.pageSize)
    && Log(s.peerLog, x.pageSize) && y.pages[p] == Overlay(s.peerLog, x.pageSize)
    && (s.mine == Modified || s.peer == Modified ==> x.temp.readSignal[p] != 1 && y.temp.readSignal[p] != 1)
  }

  predicate Rel(x: State, y: State, specs: seq<PageSpec>) {
    && Agree(x, y)
    && |specs| == x.temp.pageCount
    && forall p :: 0 <= p < |specs| ==> PageRel(x, y, p, specs[p])
  }

  function Swapped(specs: seq<PageSpec>): (r: seq<PageSpec>)
    ensures |r| == |specs| && forall p :: 0 <= p < |r| ==> r[p] == specs[p].Swap()
  {
    seq(|specs|, p requires 0 <= p < |specs| => specs[p].Swap())
  }

  lemma RelSwap(x: State, y: State, specs: seq<PageSpec>)
    requires Rel(x, y, specs)
    ensures Rel(y, x, Swapped(specs))
  {
    forall p | 0 <= p < |specs| ensures PageRel(y, x, p, Swapped(specs)[p]) {
      assert PageRel(x, y, p, specs[p]);
    }
  }

  function SpecAll(specs: seq<PageSpec>, op: Op): (r: seq<PageSpec>)
    requires op.ViewPages? || op.page < |specs|
    ensures |r| == |specs|
  {
    if op.ViewPages? then specs else specs[op.page := SpecStep(specs[op.page], op)]
  }

  function SpecAllReplies(specs: seq<PageSpec>, op: Op, pageSize: nat): seq<string>
    requires op.ReadPage? ==> op.page < |specs| && Log(specs[op.page].peerLog, pageSize)
  {
    if op.ReadPage? then SpecReplies(specs[op.page], op, pageSize) else []
  }

  // ----- one page, one transaction

  /** What goes out with a write, and what the cascade makes of it. */
  lemma WriteSnooped(x: State, y: State, p: nat, msg: string)
    requires Agree(x, y) && p < x.temp.pageCount && Message(msg, x.pageSize)
    requires OneFlag(x.msi[p]) && OneFlag(y.msi[p])
    requires x.msi[p] == MODIFIED ==> y.msi[p] == INVALID && x.temp.readSignal[p] != 1
    ensures var x' := Issue(x, WritePage(p, msg));
            && Agree(x', y) && Deliverable(y, x'.temp)
            && SnoopReply(y, x'.temp) == []
            && Agree(x', Snoop(y, x'.temp))
            && x'.msi[p] == MODIFIED && Snoop(y, x'.temp).msi[p] == INVALID
            && x'.temp.readSignal[p] == (if x.msi[p] == MODIFIED then x.temp.readSignal[p] else 0)
            && Snoop(y, x'.temp).temp == x'.temp
  {
  }

  lemma WriteBytes(x: State, y: State, p: nat, msg: string, log: seq<string>)
    requires Agree(x, y) && p < x.temp.pageCount && Message(msg, x.pageSize)
    requires Log(log, x.pageSize) && x.pages[p] == Overlay(log, x.pageSize)
    ensures Log(log + [msg], x.pageSize)
    ensures Issue(x, WritePage(p, msg)).pages[p] == Overlay(log + [msg], x.pageSize)
  {
    hide SnoopReply;
    assert (log + [msg])[..|log|] == log;
  }

  /** A write and its snoop, whatever the pair of states and the leftover signals. */
  lemma WriteSimulates(x: State, y: State, p: nat, msg: string, s: PageSpec)
    requires Agree(x, y) && p < x.temp.pageCount && Message(msg, x.pageSize) && PageRel(x, y, p, s)
    ensures var x' := Issue(x, WritePage(p, msg));
            && Agree(x', y) && Deliverable(y, x'.temp)
            && SnoopReply(y, x'.temp) == []
            && Agree(x', Snoop(y, x'.temp))
            && PageRel(x', Snoop(y, x'.temp), p, SpecStep(s, WritePage(p, msg)))
  {
    WriteSnooped(x, y, p, msg);
    WriteBytes(x, y, p, msg, s.mineLog);
    SnoopKeepsPages(y, Issue(x, WritePage(p, msg)).temp);
    SameShapeIssue(x, WritePage(p, msg));
    hide Issue, Snoop, SnoopReply, Deliverable, Overlay, Overwrite;
  }

  lemma SnoopKeepsPages(y: State, m: ProcInfo)
    requires Deliverable(y, m)
    ensures Snoop(y, m).pages == y.pages && Snoop(y, m).pageSize == y.pageSize
  {
  }

  lemma SameShapeIssue(x: State, op: Op)
    requires x.WellFormed() && op.Fits(x.temp.pageCount, x.pageSize)
    ensures Issue(x, op).pageSize == x.pageSize && Issue(x, op).temp.pageCount == x.temp.pageCount
  {
  }

  /** A bus read and its snoop: both share, and one reply comes back. */
  lemma BusReadSimulates(x: State, y: State, p: nat, s: PageSpec)
    requires Agree(x, y) && p < x.temp.pageCount && PageRel(x, y, p, s) && s.mine == Invalid
    ensures var x' := Issue(x, ReadPage(p));
            && Agree(x', y) && Deliverable(y, x'.temp)
            && SnoopReply(y, x'.temp) == SpecReplies(s, ReadPage(p), x.pageSize)
            && |SnoopReply(y, x'.temp)| == 1
            && |SnoopReply(y, x'.temp)[0]| <= x.pageSize
            && var x'' := Complete(x', p, SnoopReply(y, x'.temp)[0]);
            && Agree(x'', Snoop(y, x'.temp))
            && PageRel(x'', Snoop(y, x'.temp), p, SpecStep(s, ReadPage(p)))
  {
    if s.peer == Modified {
      LatestStartsPage(s.peerLog, x.pageSize);
    }
  }

  /** A page that was written is not empty as a C string. */
  lemma LatestStartsPage(log: seq<string>, pageSize: nat)
    requires 1 <= pageSize && Log(log, pageSize) && log != []
    ensures Overlay(log, pageSize)[0] != NUL && CString(Overlay(log, pageSize)) != ""
  {
    var msg := log[|log| - 1];
    assert msg[0] in msg;
  }

  /** Sending the whole struct does not disturb the other pages. */
  lemma OtherPageKept(x: State, y: State, op: Op, q: nat, s: PageSpec)
    requires Agree(x, y) && op.Fits(x.temp.pageCount, x.pageSize) && !op.ViewPages?
    requires q < x.temp.pageCount && q != op.page && PageRel(x, y, q, s)
    ensures Deliverable(y, Issue(x, op).temp)
    ensures Agree(Issue(x, op), y) && PageRel(Issue(x, op), y, q, s)
    ensures var y' := Snoop(y, Issue(x, op).temp);
            && Agree(Issue(x, op), y') && PageRel(Issue(x, op), y', q, s)
  {
  }

  // ----- one transaction, every page

  lemma WriteTransacts(l: Link, op: Op, specs: seq<PageSpec>)
    requires CanIssue(l, op) && l.Quiet() && Rel(l.x, l.y, specs) && op.WritePage?
    ensures Transact(l, op).Quiet()
    ensures Rel(Transact(l, op).x, Transact(l, op).y, SpecAll(specs, op))
    ensures Transact(l, op).got == l.got
  {
    var x' := Issue(l.x, op);
    WriteSimulates(l.x, l.y, op.page, op.message, specs[op.page]);
    var y' := Snoop(l.y, x'.temp);
    assert IssueStep(l, op).queue == [x'.temp];
    assert Transact(l, op) == l.(x := x', y := y');
    forall q | 0 <= q < |specs| && q != op.page ensures PageRel(x', y', q, specs[q]) {
      OtherPageKept(l.x, l.y, op, q, specs[q]);
    }
  }

  lemma BusReadTransacts(l: Link, op: Op, specs: seq<PageSpec>)
    requires CanIssue(l, op) && l.Quiet() && Rel(l.x, l.y, specs) && op.ReadPage? && specs[op.page].mine == Invalid
    ensures Transact(l, op).Quiet()
    ensures Rel(Transact(l, op).x, Transact(l, op).y, SpecAll(specs, op))
    ensures Transact(l, op).got == l.got + SpecReplies(specs[op.page], op, l.x.pageSize)
  {
    var x' := Issue(l.x, op);
    BusReadSimulates(l.x, l.y, op.page, specs[op.page]);
    var y' := Snoop(l.y, x'.temp);
    var reply := SnoopReply(l.y, x'.temp);
    var x'' := Complete(x', op.page, reply[0]);
    assert IsBusRead(l.x, op) by { assert PageRel(l.x, l.y, op.page, specs[op.page]); }
    assert IssueStep(l, op).queue == [x'.temp];
    assert Transact(l, op) == l.(x := x'', y := y', got := l.got + reply);
    forall q | 0 <= q < |specs| && q != op.page ensures PageRel(x'', y', q, specs[q]) {
      OtherPageKept(l.x, l.y, op, q, specs[q]);
    }
  }

  lemma LocalTransacts(l: Link, op: Op, specs: seq<PageSpec>)
    requires CanIssue(l, op) && l.Quiet() && Rel(l.x, l.y, specs)
    requires op.ViewPages? || (op.ReadPage? && specs[op.page].mine != Invalid)
    ensures Transact(l, op).Quiet()
    ensures Rel(Transact(l, op).x, Transact(l, op).y, specs)
    ensures Transact(l, op).got == l.got
  {
    var x' := Issue(l.x, op);
    assert op.ReadPage? ==> PageRel(l.x, l.y, op.page, specs[op.page]);
    assert x' == l.x.(temp := x'.temp) && x'.temp.readSignal == l.x.temp.readSignal;
    assert Transact(l, op) == l.(x := x');
    forall q | 0 <= q < |specs| ensures PageRel(x', l.y, q, specs[q]) {
      assert PageRel(l.x, l.y, q, specs[q]);
    }
  }

  /** A whole transaction from a quiet link does exactly what the pure machine does on the
      addressed page, leaves every other page alone, is never stuck, and leaves no reply behind. */
  lemma TransactSimulates(l: Link, op: Op, specs: seq<PageSpec>)
    requires CanIssue(l, op) && l.Quiet() && Rel(l.x, l.y, specs)
    ensures Transact(l, op).Quiet()
    ensures Rel(Transact(l, op).x, Transact(l, op).y, SpecAll(specs, op))
    ensures op.ReadPage? ==> Log(specs[op.page].peerLog, l.x.pageSize)
    ensures Transact(l, op).got == l.got + SpecAllReplies(specs, op, l.x.pageSize)
  {
    if op.ReadPage? {
      assert PageRel(l.x, l.y, op.page, specs[op.page]);
    }
    if op.WritePage? {
      WriteTransacts(l, op, specs);
    } else if op.ReadPage? && specs[op.page].mine == Invalid {
      BusReadTransacts(l, op, specs);
    } else {
      LocalTransacts(l, op, specs);
      assert SpecAll(specs, op) == specs;
    }
  }

  // ----- the signals themselves

  /** Sharper than the relation needs, and true of every atomic run: the read signals of a
      modified page are zero in both structs. */
  predicate Cleared(x: State, y: State)
    requires Agree(x, y)
  {
    forall p :: 0 <= p < x.temp.pageCount && (x.msi[p].m || y.msi[p].m) ==>
      x.temp.readSignal[p] == 0 && y.temp.readSignal[p] == 0
  }

  lemma WriteClears(x: State, y: State, op: Op, s: PageSpec)
    requires Agree(x, y) && op.Fits(x.temp.pageCount, x.pageSize) && op.WritePage?
    requires PageRel(x, y, op.page, s) && Cleared(x, y)
    ensures Deliverable(y, Issue(x, op).temp) && Agree(Issue(x, op), Snoop(y, Issue(x, op).temp))
    ensures Cleared(Issue(x, op), Snoop(y, Issue(x, op).temp))
  {
    hide SnoopReply, Overlay, Overwrite;
    WriteSnooped(x, y, op.page, op.message);
  }

  lemma ReadClears(x: State, y: State, p: nat, s: PageSpec)
    requires Agree(x, y) && p < x.temp.pageCount && x.msi[p] == INVALID && Cleared(x, y) && PageRel(x, y, p, s)
    ensures var x' := Issue(x, ReadPage(p));
            && Deliverable(y, x'.temp) && Agree(x', Snoop(y, x'.temp))
            && !x'.msi[p].m && !Snoop(y, x'.temp).msi[p].m
            && forall q :: 0 <= q < x.temp.pageCount && q != p && (x'.msi[q].m || Snoop(y, x'.temp).msi[q].m) ==>
                 x'.temp.readSignal[q] == 0 && Snoop(y, x'.temp).temp.readSignal[q] == 0
  {
    hide SnoopReply, Overlay, Overwrite;
  }

  lemma WriteTransactClears(l: Link, op: Op, specs: seq<PageSpec>)
    requires CanIssue(l, op) && l.Quiet() && Rel(l.x, l.y, specs) && Cleared(l.x, l.y) && op.WritePage?
    ensures Agree(Transact(l, op).x, Transact(l, op).y) && Cleared(Transact(l, op).x, Transact(l, op).y)
  {
    assert PageRel(l.x, l.y, op.page, specs[op.page]);
    WriteSimulates(l.x, l.y, op.page, op.message, specs[op.page]);
    WriteClears(l.x, l.y, op, specs[op.page]);
    hide Issue, Snoop, SnoopReply, Deliverable, PageRel, Cleared;
    assert IssueStep(l, op).queue == [Issue(l.x, op).temp];
  }

  lemma ReadTransactClears(l: Link, op: Op, specs: seq<PageSpec>)
    requires CanIssue(l, op) && l.Quiet() && Rel(l.x, l.y, specs) && Cleared(l.x, l.y) && IsBusRead(l.x, op)
    ensures Agree(Transact(l, op).x, Transact(l, op).y) && Cleared(Transact(l, op).x, Transact(l, op).y)
  {
    assert PageRel(l.x, l.y, op.page, specs[op.page]);
    FlagsOfInvalid(l.x, l.y, op.page, specs[op.page]);
    ReadClears(l.x, l.y, op.page, specs[op.page]);
    BusReadSimulates(l.x, l.y, op.page, specs[op.page]);
    hide Issue, Snoop, SnoopReply, Deliverable, PageRel;
    assert IssueStep(l, op).queue == [Issue(l.x, op).temp];
  }

  lemma TransactClears(l: Link, op: Op, specs: seq<PageSpec>)
    requires CanIssue(l, op) && l.Quiet() && Rel(l.x, l.y, specs) && Cleared(l.x, l.y)
    ensures Agree(Transact(l, op).x, Transact(l, op).y) && Cleared(Transact(l, op).x, Transact(l, op).y)
  {
    if op.WritePage? {
      hide *;
      WriteTransactClears(l, op, specs);
    } else if IsBusRead(l.x, op) {
      hide *;
      ReadTransactClears(l, op, specs);
    } else {
      hide Rel, Snoop, SnoopReply;
      assert Transact(l, op).y == l.y;
    }
  }

  lemma FlagsOfInvalid(x: State, y: State, p: nat, s: PageSpec)
    requires Agree(x, y) && p < x.temp.pageCount && PageRel(x, y, p, s) && x.msi[p].i
    ensures x.msi[p] == INVALID
  {
  }
}
