/** Where coherence stops: both machines write before either snoops.  One crossed pair of writes
    is harmless in some states and not in others, and the boundary is found exactly. */
module CoherenceCrossing {
  import opened Coherence
  import opened CoherenceBus
  import opened CoherenceProofs
  import opened CoherenceRuns

  predicate CanCross(sys: System, p: nat, ours: string, q: nat, theirs: string) {
    && sys.WellFormed() && sys.Quiet()
    && WritePage(p, ours).Fits(sys.first.temp.pageCount, sys.first.pageSize)
    && WritePage(q, theirs).Fits(sys.first.temp.pageCount, sys.first.pageSize)
  }

  /** The first machine writes `p` and the second writes `q`; then each snoops the other's
      message. */
  function Crossed(sys: System, p: nat, ours: string, q: nat, theirs: string): (r: System)
    requires CanCross(sys, p, ours, q, theirs)
    ensures r.WellFormed() && SameSize(sys, r)
  {
    var x, y := Issue(sys.first, WritePage(p, ours)), Issue(sys.second, WritePage(q, theirs));
    sys.(first := Snoop(x, y.temp), second := Snoop(y, x.temp),
         toFirst := SnoopReply(y, x.temp), toSecond := SnoopReply(x, y.temp))
  }

  predicate SameSize(sys: System, r: System) {
    r.first.temp.pageCount == sys.first.temp.pageCount && r.first.pageSize == sys.first.pageSize
  }

  /** The pure machine after the two writes, one after the other. */
  function BothWritten(specs: seq<PageSpec>, p: nat, ours: string, q: nat, theirs: string, firstFirst: bool)
    : (r: seq<PageSpec>)
    requires p < |specs| && q < |specs|
    ensures |r| == |specs|
  {
    var one, two := Event(First, WritePage(p, ours)), Event(Second, WritePage(q, theirs));
    if firstFirst then SpecEvent(SpecEvent(specs, one), two) else SpecEvent(SpecEvent(specs, two), one)
  }

  /** Nobody is left holding a read request for a page the other has just taken. */
  predicate NoRequestCrosses(sys: System, p: nat, q: nat)
    requires sys.WellFormed() && p < sys.first.temp.pageCount && q < sys.first.temp.pageCount
  {
    sys.second.temp.readSignal[p] != 1 && sys.first.temp.readSignal[q] != 1
  }

  /** From here on every atomic run gives the replies of the pure machine and leaves none behind. */
  ghost predicate BehavesAs(sys: System, specs: seq<PageSpec>)
    requires sys.WellFormed() && |specs| == sys.first.temp.pageCount
  {
    forall trace: seq<Event>, e: Event
      | TraceFits(trace, sys.first.temp.pageCount, sys.first.pageSize)
        && e.op.Fits(sys.first.temp.pageCount, sys.first.pageSize)
      :: RepliesAs(sys, specs, trace, e)
  }

  predicate RepliesAs(sys: System, specs: seq<PageSpec>, trace: seq<Event>, e: Event)
    requires sys.WellFormed() && |specs| == sys.first.temp.pageCount
    requires TraceFits(trace, sys.first.temp.pageCount, sys.first.pageSize)
    requires e.op.Fits(sys.first.temp.pageCount, sys.first.pageSize)
  {
    var end := SysRun(sys, trace);
    && end.Quiet()
    && (e.op.ReadPage? ==>
          var s := Seen(SpecRunFrom(specs, sys.first.pageSize, trace)[e.op.page], e.side);
          && Log(s.peerLog, sys.first.pageSize)
          && SysReplies(end, e) == SpecReplies(s, e.op, sys.first.pageSize))
  }

  // ----- one page at a time

  /** The page the issuer wrote, when the peer wrote another: all is well exactly when the
      peer's struct, which overwrites the issuer's, asks for no read of it. */
  lemma CrossedOwnPage(x: State, y: State, p: nat, ours: string, q: nat, theirs: string, s: PageSpec)
    requires Agree(x, y) && p < x.temp.pageCount && q < x.temp.pageCount && p != q
    requires Message(ours, x.pageSize) && Message(theirs, x.pageSize)
    requires PageRel(x, y, p, s) && Cleared(x, y)
    ensures var x1, y1 := Issue(x, WritePage(p, ours)), Issue(y, WritePage(q, theirs));
            && Deliverable(x1, y1.temp) && Deliverable(y1, x1.temp)
            && SnoopReply(y1, x1.temp) == []
            && var x2, y2 := Snoop(x1, y1.temp), Snoop(y1, x1.temp);
               && Agree(x2, y2)
               && x2.msi[p] == MODIFIED && y2.msi[p] == INVALID
               && x2.temp.readSignal[p] == y.temp.readSignal[p] && y2.temp.readSignal[p] == 0
               && (PageRel(x2, y2, p, SpecStep(s, WritePage(p, ours))) <==> y.temp.readSignal[p] != 1)
  {
    WriteBytes(x, y, p, ours, s.mineLog);
    hide Overlay, Overwrite, CString;
  }

  lemma CrossedOtherPage(x: State, y: State, p: nat, ours: string, q: nat, theirs: string, r: nat, s: PageSpec)
    requires Agree(x, y) && p < x.temp.pageCount && q < x.temp.pageCount && r < x.temp.pageCount && r != p && r != q
    requires Message(ours, x.pageSize) && Message(theirs, x.pageSize)
    requires PageRel(x, y, r, s)
    ensures var x1, y1 := Issue(x, WritePage(p, ours)), Issue(y, WritePage(q, theirs));
            && Deliverable(x1, y1.temp) && Deliverable(y1, x1.temp)
            && var x2, y2 := Snoop(x1, y1.temp), Snoop(y1, x1.temp);
               Agree(x2, y2) && PageRel(x2, y2, r, s)
  {
    hide Overlay, Overwrite, CString, SnoopReply;
  }

  /** The same page on both sides: each throws its own copy away. */
  lemma CrossedSamePage(x: State, y: State, p: nat, ours: string, theirs: string, s: PageSpec)
    requires Agree(x, y) && p < x.temp.pageCount
    requires Message(ours, x.pageSize) && Message(theirs, x.pageSize)
    requires PageRel(x, y, p, s) && Cleared(x, y)
    ensures var x1, y1 := Issue(x, WritePage(p, ours)), Issue(y, WritePage(p, theirs));
            && Deliverable(x1, y1.temp) && Deliverable(y1, x1.temp)
            && SnoopReply(y1, x1.temp) == []
            && Snoop(x1, y1.temp).msi[p] == INVALID && Snoop(y1, x1.temp).msi[p] == INVALID
  {
    hide Overlay, Overwrite, CString;
  }

  lemma PageRelSwap(x: State, y: State, p: nat, s: PageSpec)
    requires Agree(x, y) && p < x.temp.pageCount
    ensures PageRel(x, y, p, s) <==> PageRel(y, x, p, s.Swap())
  {
    hide Overlay;
  }

  lemma BothWrittenAt(specs: seq<PageSpec>, p: nat, ours: string, q: nat, theirs: string, firstFirst: bool)
    requires p < |specs| && q < |specs| && p != q
    ensures var r := BothWritten(specs, p, ours, q, theirs, firstFirst);
            && r[p] == SpecStep(specs[p], WritePage(p, ours))
            && r[q] == SpecStep(specs[q].Swap(), WritePage(q, theirs)).Swap()
            && forall k :: 0 <= k < |specs| && k != p && k != q ==> r[k] == specs[k]
  {
  }

  // ----- the crossed state

  lemma InvalidAsks(l: Link, p: nat)
    requires l.Quiet() && CanIssue(l, ReadPage(p)) && l.x.msi[p] == INVALID && l.y.msi[p] == INVALID && l.got == []
    ensures Transact(l, ReadPage(p)).got == [NO_DATA]
  {
    var x' := Issue(l.x, ReadPage(p));
    assert IssueStep(l, ReadPage(p)).queue == [x'.temp];
  }

  /** Two writes of one page that cross lose both copies, and the next read by either machine is
      told there is no data. */
  lemma CrossedWritesLoseBoth(sys: System, p: nat, ours: string, theirs: string, specs: seq<PageSpec>)
    requires CanCross(sys, p, ours, p, theirs) && Rel(sys.first, sys.second, specs) && Cleared(sys.first, sys.second)
    ensures var c := Crossed(sys, p, ours, p, theirs);
            && c.Quiet() && c.first.msi[p] == INVALID && c.second.msi[p] == INVALID
            && SysReplies(c, Event(First, ReadPage(p))) == [NO_DATA]
            && SysReplies(c, Event(Second, ReadPage(p))) == [NO_DATA]
  {
    var x, y := sys.first, sys.second;
    assert PageRel(x, y, p, specs[p]);
    PageRelSwap(x, y, p, specs[p]);
    hide Issue, Snoop, SnoopReply, Deliverable, PageRel;
    CrossedSamePage(x, y, p, ours, theirs, specs[p]);
    CrossedSamePage(y, x, p, theirs, ours, specs[p].Swap());
    var c := Crossed(sys, p, ours, p, theirs);
    InvalidAsks(LinkOf(c, First), p);
    InvalidAsks(LinkOf(c, Second), p);
    hide Transact;
  }

  /** What crossing does to the two pages written, when they differ. */
  lemma CrossedPair(sys: System, p: nat, ours: string, q: nat, theirs: string, specs: seq<PageSpec>)
    requires CanCross(sys, p, ours, q, theirs) && Rel(sys.first, sys.second, specs) && Cleared(sys.first, sys.second)
    requires p != q
    ensures var c := Crossed(sys, p, ours, q, theirs);
            && c.Quiet() && Agree(c.first, c.second)
            && c.first.msi[p] == MODIFIED && c.second.msi[p] == INVALID
            && c.second.msi[q] == MODIFIED && c.first.msi[q] == INVALID
            && c.first.temp.readSignal[p] == sys.second.temp.readSignal[p]
            && c.second.temp.readSignal[q] == sys.first.temp.readSignal[q]
            && c.second.temp.readSignal[p] == 0 && c.first.temp.readSignal[q] == 0
            && (PageRel(c.first, c.second, p, SpecStep(specs[p], WritePage(p, ours)))
                <==> sys.second.temp.readSignal[p] != 1)
            && (PageRel(c.first, c.second, q, SpecStep(specs[q].Swap(), WritePage(q, theirs)).Swap())
                <==> sys.first.temp.readSignal[q] != 1)
  {
    var x, y := sys.first, sys.second;
    assert PageRel(x, y, p, specs[p]) && PageRel(x, y, q, specs[q]);
    PageRelSwap(x, y, q, specs[q]);
    hide Issue, Snoop, SnoopReply, Deliverable, PageRel, SpecStep;
    CrossedOwnPage(x, y, p, ours, q, theirs, specs[p]);
    CrossedOwnPage(y, x, q, theirs, p, ours, specs[q].Swap());
    var c := Crossed(sys, p, ours, q, theirs);
    PageRelSwap(c.first, c.second, q, SpecStep(specs[q].Swap(), WritePage(q, theirs)).Swap());
  }

  lemma CrossedRest(sys: System, p: nat, ours: string, q: nat, theirs: string, r: nat, specs: seq<PageSpec>)
    requires CanCross(sys, p, ours, q, theirs) && Rel(sys.first, sys.second, specs)
    requires r < |specs| && r != p && r != q
    ensures var c := Crossed(sys, p, ours, q, theirs);
            Agree(c.first, c.second) && PageRel(c.first, c.second, r, specs[r])
  {
    assert PageRel(sys.first, sys.second, r, specs[r]);
    hide Issue, Snoop, SnoopReply, Deliverable, PageRel;
    CrossedOtherPage(sys.first, sys.second, p, ours, q, theirs, r, specs[r]);
  }

  lemma CrossedSameRel(sys: System, p: nat, ours: string, theirs: string, specs: seq<PageSpec>, firstFirst: bool)
    requires CanCross(sys, p, ours, p, theirs) && Rel(sys.first, sys.second, specs) && Cleared(sys.first, sys.second)
    ensures var c := Crossed(sys, p, ours, p, theirs);
            && c.Quiet() && Agree(c.first, c.second)
            && !Rel(c.first, c.second, BothWritten(specs, p, ours, p, theirs, firstFirst))
  {
    RelPages(sys, specs);
    hide Crossed, BothWritten, SpecStep, Overlay, Log, Cleared;
    var c, after := Crossed(sys, p, ours, p, theirs), BothWritten(specs, p, ours, p, theirs, firstFirst);
    CrossedWritesLoseBoth(sys, p, ours, theirs, specs);
    BothWrittenSame(specs, p, ours, theirs, firstFirst);
    assert !PageRel(c.first, c.second, p, after[p]);
  }

  lemma CrossedPairRel(sys: System, p: nat, ours: string, q: nat, theirs: string, specs: seq<PageSpec>,
                       firstFirst: bool)
    requires CanCross(sys, p, ours, q, theirs) && Rel(sys.first, sys.second, specs) && Cleared(sys.first, sys.second)
    requires p != q
    ensures var c := Crossed(sys, p, ours, q, theirs);
            && c.Quiet() && Agree(c.first, c.second)
            && (Rel(c.first, c.second, BothWritten(specs, p, ours, q, theirs, firstFirst))
                <==> NoRequestCrosses(sys, p, q))
  {
    RelPages(sys, specs);
    var c, after := Crossed(sys, p, ours, q, theirs), BothWritten(specs, p, ours, q, theirs, firstFirst);
    hide Crossed, BothWritten, SpecStep, PageRel, Cleared, Rel;
    CrossedPair(sys, p, ours, q, theirs, specs);
    BothWrittenAt(specs, p, ours, q, theirs, firstFirst);
    forall r: nat | r < |specs| && r != p && r != q ensures PageRel(c.first, c.second, r, after[r]) {
      CrossedRest(sys, p, ours, q, theirs, r, specs);
    }
    RelOfTwo(c.first, c.second, after, p, q);
  }

  /** When every other page is related, two pages decide. */
  lemma RelOfTwo(x: State, y: State, specs: seq<PageSpec>, p: nat, q: nat)
    requires Agree(x, y) && |specs| == x.temp.pageCount && p < |specs| && q < |specs|
    requires forall r: nat :: r < |specs| && r != p && r != q ==> PageRel(x, y, r, specs[r])
    ensures Rel(x, y, specs) <==> PageRel(x, y, p, specs[p]) && PageRel(x, y, q, specs[q])
  {
    hide PageRel;
  }

  /** The crossed state is that of the two writes in a row, in either order, exactly when the
      pages differ and no request crosses. */
  lemma CrossedRel(sys: System, p: nat, ours: string, q: nat, theirs: string, specs: seq<PageSpec>, firstFirst: bool)
    requires CanCross(sys, p, ours, q, theirs) && Rel(sys.first, sys.second, specs) && Cleared(sys.first, sys.second)
    ensures var c := Crossed(sys, p, ours, q, theirs);
            && c.Quiet() && Agree(c.first, c.second)
            && (Rel(c.first, c.second, BothWritten(specs, p, ours, q, theirs, firstFirst))
                <==> p != q && NoRequestCrosses(sys, p, q))
  {
    RelPages(sys, specs);
    hide Crossed, BothWritten, Rel, Cleared;
    if p == q {
      CrossedSameRel(sys, p, ours, theirs, specs, firstFirst);
    } else {
      CrossedPairRel(sys, p, ours, q, theirs, specs, firstFirst);
    }
  }

  /** Apart from the two pages written, crossing only swaps the two structs. */
  predicate SwappedElsewhere(sys: System, c: System, p: nat, q: nat)
    requires Agree(sys.first, sys.second) && Agree(c.first, c.second)
  {
    && c.first.temp.pageCount == sys.first.temp.pageCount
    && forall r :: 0 <= r < sys.first.temp.pageCount && r != p && r != q ==>
         && c.first.msi[r] == sys.first.msi[r] && c.second.msi[r] == sys.second.msi[r]
         && c.first.temp.readSignal[r] == sys.second.temp.readSignal[r]
         && c.second.temp.readSignal[r] == sys.first.temp.readSignal[r]
  }

  lemma CrossedSwaps(sys: System, p: nat, ours: string, q: nat, theirs: string)
    requires CanCross(sys, p, ours, q, theirs) && Agree(sys.first, sys.second)
    ensures var c := Crossed(sys, p, ours, q, theirs);
            Agree(c.first, c.second) && SwappedElsewhere(sys, c, p, q)
  {
    hide SnoopReply, Overwrite;
  }

  lemma ClearedThrough(sys: System, c: System, p: nat, q: nat)
    requires Agree(sys.first, sys.second) && Agree(c.first, c.second) && p < sys.first.temp.pageCount
    requires q < sys.first.temp.pageCount && SwappedElsewhere(sys, c, p, q) && Cleared(sys.first, sys.second)
    requires c.first.msi[p].m && c.second.temp.readSignal[p] == 0
    requires c.second.msi[q].m && c.first.temp.readSignal[q] == 0
    ensures Cleared(c.first, c.second) <==> c.first.temp.readSignal[p] == 0 && c.second.temp.readSignal[q] == 0
  {
  }

  lemma PairCleared(sys: System, p: nat, ours: string, q: nat, theirs: string, specs: seq<PageSpec>)
    requires CanCross(sys, p, ours, q, theirs) && Rel(sys.first, sys.second, specs) && Cleared(sys.first, sys.second)
    requires p != q
    ensures var c := Crossed(sys, p, ours, q, theirs);
            && Agree(c.first, c.second)
            && (Cleared(c.first, c.second)
                <==> sys.second.temp.readSignal[p] == 0 && sys.first.temp.readSignal[q] == 0)
  {
    RelPages(sys, specs);
    hide Crossed, PageRel, Rel, SpecStep, Cleared, SwappedElsewhere;
    CrossedPair(sys, p, ours, q, theirs, specs);
    CrossedSwaps(sys, p, ours, q, theirs);
    ClearedThrough(sys, Crossed(sys, p, ours, q, theirs), p, q);
  }

  /** The same with the sharper invariant of atomic runs, that the signals of a modified page are
      zero: it survives exactly when the two signals are zero. */
  lemma CrossedCleared(sys: System, p: nat, ours: string, q: nat, theirs: string, specs: seq<PageSpec>,
                       firstFirst: bool)
    requires CanCross(sys, p, ours, q, theirs) && Rel(sys.first, sys.second, specs) && Cleared(sys.first, sys.second)
    ensures var c := Crossed(sys, p, ours, q, theirs);
            && Agree(c.first, c.second)
            && (Rel(c.first, c.second, BothWritten(specs, p, ours, q, theirs, firstFirst)) && Cleared(c.first, c.second)
                <==> p != q && sys.second.temp.readSignal[p] == 0 && sys.first.temp.readSignal[q] == 0)
  {
    RelPages(sys, specs);
    hide Crossed, BothWritten, Rel, Cleared;
    CrossedRel(sys, p, ours, q, theirs, specs, firstFirst);
    if p != q {
      PairCleared(sys, p, ours, q, theirs, specs);
    }
  }

  lemma RelPages(sys: System, specs: seq<PageSpec>)
    requires Rel(sys.first, sys.second, specs)
    ensures |specs| == sys.first.temp.pageCount
  {
  }

  lemma BothWrittenSame(specs: seq<PageSpec>, p: nat, ours: string, theirs: string, firstFirst: bool)
    requires p < |specs|
    ensures var s := BothWritten(specs, p, ours, p, theirs, firstFirst)[p];
            if firstFirst then s.mine == Invalid && s.peer == Modified else s.mine == Modified && s.peer == Invalid
  {
  }

  // ----- and from then on

  /** A request that crosses: the machine that now has the page sends it with its next write, the
      peer takes that write for a read, and answers. */
  lemma StaleRequestAnswered(l: Link, p: nat, msg: string)
    requires l.Quiet() && CanIssue(l, WritePage(p, msg))
    requires l.x.msi[p] == MODIFIED && l.y.msi[p] == INVALID && l.x.temp.readSignal[p] == 1
    ensures var r := Transact(l, WritePage(p, msg));
            r.x.msi[p] == MODIFIED && r.y.msi[p] == SHARED && r.replies == [NO_DATA]
  {
    var x' := Issue(l.x, WritePage(p, msg));
    assert IssueStep(l, WritePage(p, msg)).queue == [x'.temp];
    assert [] + [NO_DATA] == [NO_DATA];
  }

  lemma RunOne(sys: System, e: Event)
    requires sys.WellFormed() && e.op.Fits(sys.first.temp.pageCount, sys.first.pageSize)
    ensures SysRun(sys, [e]) == SysStep(sys, e)
  {
    hide SysStep;
    assert [e][..0] == [];
    assert SysRun(sys, [e][..0]) == sys;
  }

  /** Single writer is gone, and a reply is left that the next read will take for its own. */
  predicate Broken(sys: System, side: Side, p: nat)
    requires sys.WellFormed() && p < sys.first.temp.pageCount
  {
    var l := LinkOf(sys, side);
    l.x.msi[p] == MODIFIED && l.y.msi[p] == SHARED && l.replies == [NO_DATA]
  }

  lemma RequestBreaks(c: System, side: Side, p: nat, msg: string)
    requires c.WellFormed() && c.Quiet() && WritePage(p, msg).Fits(c.first.temp.pageCount, c.first.pageSize)
    requires var l := LinkOf(c, side);
             l.x.msi[p] == MODIFIED && l.y.msi[p] == INVALID && l.x.temp.readSignal[p] == 1
    ensures Broken(SysStep(c, Event(side, WritePage(p, msg))), side, p)
  {
    StaleRequestAnswered(LinkOf(c, side), p, msg);
    hide Transact;
  }

  lemma BreakNoticed(c: System, specs: seq<PageSpec>, side: Side, p: nat, msg: string)
    requires c.WellFormed() && c.Quiet() && WritePage(p, msg).Fits(c.first.temp.pageCount, c.first.pageSize)
    requires |specs| == c.first.temp.pageCount
    requires var l := LinkOf(c, side);
             l.x.msi[p] == MODIFIED && l.y.msi[p] == INVALID && l.x.temp.readSignal[p] == 1
    ensures !BehavesAs(c, specs)
  {
    var e := Event(side, WritePage(p, msg));
    RequestBreaks(c, side, p, msg);
    RunOne(c, e);
    hide SysStep, SysRun;
    assert !RepliesAs(c, specs, [e], e);
  }

  lemma LossNoticed(c: System, specs: seq<PageSpec>, side: Side, p: nat)
    requires c.WellFormed() && c.Quiet() && |specs| == c.first.temp.pageCount && p < |specs|
    requires c.first.msi[p] == INVALID && c.second.msi[p] == INVALID
    requires Seen(specs[p], side).mine == Modified
    ensures !BehavesAs(c, specs)
  {
    var e := Event(side, ReadPage(p));
    InvalidAsks(LinkOf(c, side), p);
    hide Transact;
    assert SysRun(c, []) == c;
    assert !RepliesAs(c, specs, [], e);
  }

  lemma RelBehaves(c: System, specs: seq<PageSpec>)
    requires c.WellFormed() && c.Quiet() && Rel(c.first, c.second, specs)
    ensures BehavesAs(c, specs)
  {
    hide SysRun, SysStep, SysReplies, SpecRunFrom, SpecEvent;
    forall trace: seq<Event>, e: Event
      | TraceFits(trace, c.first.temp.pageCount, c.first.pageSize)
        && e.op.Fits(c.first.temp.pageCount, c.first.pageSize)
      ensures RepliesAs(c, specs, trace, e)
    {
      RunSimulatesFrom(c, trace, specs);
      StepSimulates(SysRun(c, trace), e, SpecRunFrom(specs, c.first.pageSize, trace));
    }
  }

  /** Crossed writes, exactly: whatever happens afterwards, the machines answer as if one write
      had come after the other if and only if the pages differ and neither struct asks for a
      read of the page the other machine wrote. */
  lemma CrossedWritesExactly(sys: System, p: nat, ours: string, q: nat, theirs: string, specs: seq<PageSpec>,
                             firstFirst: bool)
    requires CanCross(sys, p, ours, q, theirs) && Rel(sys.first, sys.second, specs) && Cleared(sys.first, sys.second)
    ensures BehavesAs(Crossed(sys, p, ours, q, theirs), BothWritten(specs, p, ours, q, theirs, firstFirst))
            <==> p != q && NoRequestCrosses(sys, p, q)
  {
    assert |specs| == sys.first.temp.pageCount;
    hide Crossed, BothWritten, BehavesAs, Rel, Cleared;
    var c, after := Crossed(sys, p, ours, q, theirs), BothWritten(specs, p, ours, q, theirs, firstFirst);
    CrossedRel(sys, p, ours, q, theirs, specs, firstFirst);
    if p == q {
      CrossedWritesLoseBoth(sys, p, ours, theirs, specs);
      BothWrittenSame(specs, p, ours, theirs, firstFirst);
      LossNoticed(c, after, if firstFirst then Second else First, p);
    } else {
      CrossedPair(sys, p, ours, q, theirs, specs);
      if sys.second.temp.readSignal[p] == 1 {
        BreakNoticed(c, after, First, p, ours);
      } else if sys.first.temp.readSignal[q] == 1 {
        BreakNoticed(c, after, Second, q, theirs);
      } else {
        RelBehaves(c, after);
      }
    }
  }

  /** The boundary for every reachable state: any atomic run, then a crossed pair. */
  lemma CrossedAfterRun(sys: System, trace: seq<Event>, p: nat, ours: string, q: nat, theirs: string, firstFirst: bool)
    requires InitialSystem(sys) && sys.WellFormed()
    requires TraceFits(trace, sys.first.temp.pageCount, sys.first.pageSize)
    requires CanCross(SysRun(sys, trace), p, ours, q, theirs)
    ensures var mid := SysRun(sys, trace);
            var specs := SpecRun(sys.first.temp.pageCount, sys.first.pageSize, trace);
            BehavesAs(Crossed(mid, p, ours, q, theirs), BothWritten(specs, p, ours, q, theirs, firstFirst))
            <==> p != q && NoRequestCrosses(mid, p, q)
  {
    hide SysRun, SpecRun, Crossed, BothWritten, BehavesAs, Rel, Cleared, CanCross, NoRequestCrosses;
    RunSimulates(sys, trace);
    NoStaleRequest(sys, trace);
    CrossedWritesExactly(SysRun(sys, trace), p, ours, q, theirs,
                         SpecRun(sys.first.temp.pageCount, sys.first.pageSize, trace), firstFirst);
  }

  /** A reachable failing run with different pages: the first machine reads page 0 and both write,
      the first page 0 and the second page 1; with the first machine's next write to page 0 it
      has a modified page that the other shares. */
  lemma DifferentPagesBreak(sys: System, ours: string, theirs: string)
    requires InitialSystem(sys) && sys.WellFormed() && sys.first.temp.pageCount >= 2
    requires Message(ours, sys.first.pageSize) && Message(theirs, sys.first.pageSize)
    ensures var mid := SysRun(sys, [Event(First, ReadPage(0))]);
            && CanCross(mid, 0, ours, 1, theirs)
            && !NoRequestCrosses(mid, 0, 1)
            && var c := Crossed(mid, 0, ours, 1, theirs);
               c.Quiet() && Broken(SysStep(c, Event(First, WritePage(0, ours))), First, 0)
  {
    var e := Event(First, ReadPage(0));
    RunOne(sys, e);
    FirstReadLeavesRequest(sys);
    RunSimulates(sys, [e]);
    NoStaleRequest(sys, [e]);
    var mid := SysRun(sys, [e]);
    hide SysRun, SysStep, SpecRun, Crossed, Rel, Cleared;
    CrossedPair(mid, 0, ours, 1, theirs, SpecRun(sys.first.temp.pageCount, sys.first.pageSize, [e]));
    RequestBreaks(Crossed(mid, 0, ours, 1, theirs), First, 0, ours);
  }

  /** The reader withdraws its request; the peer's copy of it stays. */
  lemma FirstReadLeavesRequest(sys: System)
    requires InitialSystem(sys) && sys.WellFormed() && sys.first.temp.pageCount > 0
    ensures SysStep(sys, Event(First, ReadPage(0))).second.temp.readSignal[0] == 1
  {
    var l := LinkOf(sys, First);
    assert IssueStep(l, ReadPage(0)).queue == [Issue(l.x, ReadPage(0)).temp];
  }
}
