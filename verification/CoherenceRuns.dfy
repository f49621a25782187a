/** What every atomic run keeps, for any interleaving of whole transactions by both machines
    from any initial signals. */
module CoherenceRuns {
  import opened Wrappers
  import opened Coherence
  import opened CoherenceBus
  import opened CoherenceProofs

  function SpecEvent(specs: seq<PageSpec>, e: Event): (r: seq<PageSpec>)
    requires e.op.ViewPages? || e.op.page < |specs|
    ensures |r| == |specs|
  {
    match e.side
    case First => SpecAll(specs, e.op)
    case Second => Swapped(SpecAll(Swapped(specs), e.op))
  }

  const UNTOUCHED := PageSpec(Invalid, Invalid, [], [], None)

  /** The pure machine's run, always seen from the first machine. */
  function SpecRunFrom(specs: seq<PageSpec>, pageSize: nat, trace: seq<Event>): (r: seq<PageSpec>)
    requires TraceFits(trace, |specs|, pageSize)
    ensures |r| == |specs|
  {
    if trace == [] then specs
    else SpecEvent(SpecRunFrom(specs, pageSize, trace[..|trace| - 1]), trace[|trace| - 1])
  }

  function SpecRun(pageCount: nat, pageSize: nat, trace: seq<Event>): (r: seq<PageSpec>)
    requires TraceFits(trace, pageCount, pageSize)
    ensures |r| == pageCount
  {
    SpecRunFrom(seq(pageCount, p => UNTOUCHED), pageSize, trace)
  }

  function Seen(s: PageSpec, side: Side): PageSpec {
    match side
    case First => s
    case Second => s.Swap()
  }

  lemma StepSimulates(sys: System, e: Event, specs: seq<PageSpec>)
    requires sys.WellFormed() && e.op.Fits(sys.first.temp.pageCount, sys.first.pageSize)
    requires sys.Quiet() && Rel(sys.first, sys.second, specs)
    ensures SysStep(sys, e).Quiet()
    ensures Rel(SysStep(sys, e).first, SysStep(sys, e).second, SpecEvent(specs, e))
    ensures e.op.ReadPage? ==> Log(Seen(specs[e.op.page], e.side).peerLog, sys.first.pageSize)
    ensures SysReplies(sys, e) ==
            if e.op.ReadPage? then SpecReplies(Seen(specs[e.op.page], e.side), e.op, sys.first.pageSize) else []
  {
    var l := LinkOf(sys, e.side);
    if e.side == First {
      TransactSimulates(l, e.op, specs);
    } else {
      RelSwap(sys.first, sys.second, specs);
      TransactSimulates(l, e.op, Swapped(specs));
      RelSwap(Transact(l, e.op).x, Transact(l, e.op).y, SpecAll(Swapped(specs), e.op));
    }
  }

  lemma {:induction false} RunSimulatesFrom(sys: System, trace: seq<Event>, specs: seq<PageSpec>)
    requires sys.WellFormed() && sys.Quiet() && Rel(sys.first, sys.second, specs)
    requires TraceFits(trace, sys.first.temp.pageCount, sys.first.pageSize)
    ensures SysRun(sys, trace).Quiet()
    ensures Rel(SysRun(sys, trace).first, SysRun(sys, trace).second, SpecRunFrom(specs, sys.first.pageSize, trace))
  {
    if trace != [] {
      var n := |trace| - 1;
      RunSimulatesFrom(sys, trace[..n], specs);
      StepSimulates(SysRun(sys, trace[..n]), trace[n], SpecRunFrom(specs, sys.first.pageSize, trace[..n]));
    }
  }

  lemma InitiallyUntouched(sys: System)
    requires InitialSystem(sys)
    ensures Rel(sys.first, sys.second, seq(sys.first.temp.pageCount, p => UNTOUCHED))
    ensures Cleared(sys.first, sys.second)
  {
    forall p | 0 <= p < sys.first.temp.pageCount ensures PageRel(sys.first, sys.second, p, UNTOUCHED) {
    }
  }

  /** Refinement over whole runs: the flags, the pages and the signals of the two machines stay
      related to the pure machine, and between transactions nothing is left on the wires. */
  lemma RunSimulates(sys: System, trace: seq<Event>)
    requires InitialSystem(sys) && sys.WellFormed()
    requires TraceFits(trace, sys.first.temp.pageCount, sys.first.pageSize)
    ensures SysRun(sys, trace).Quiet()
    ensures Rel(SysRun(sys, trace).first, SysRun(sys, trace).second,
                SpecRun(sys.first.temp.pageCount, sys.first.pageSize, trace))
  {
    InitiallyUntouched(sys);
    RunSimulatesFrom(sys, trace, seq(sys.first.temp.pageCount, p => UNTOUCHED));
  }

  lemma StepClears(sys: System, e: Event, specs: seq<PageSpec>)
    requires sys.WellFormed() && e.op.Fits(sys.first.temp.pageCount, sys.first.pageSize)
    requires sys.Quiet() && Rel(sys.first, sys.second, specs) && Cleared(sys.first, sys.second)
    ensures Cleared(SysStep(sys, e).first, SysStep(sys, e).second)
  {
    if e.side == First {
      TransactClears(LinkOf(sys, First), e.op, specs);
    } else {
      RelSwap(sys.first, sys.second, specs);
      TransactClears(LinkOf(sys, Second), e.op, Swapped(specs));
    }
  }

  /** In every atomic run both structs have read signal 0 on every page that either machine has
      modified, whatever the signals held at the start. */
  lemma {:induction false} NoStaleRequest(sys: System, trace: seq<Event>)
    requires InitialSystem(sys) && sys.WellFormed()
    requires TraceFits(trace, sys.first.temp.pageCount, sys.first.pageSize)
    ensures Cleared(SysRun(sys, trace).first, SysRun(sys, trace).second)
  {
    hide SpecRun;
    if trace == [] {
      InitiallyUntouched(sys);
    } else {
      var n := |trace| - 1;
      NoStaleRequest(sys, trace[..n]);
      RunSimulates(sys, trace[..n]);
      StepClears(SysRun(sys, trace[..n]), trace[n],
                 SpecRun(sys.first.temp.pageCount, sys.first.pageSize, trace[..n]));
    }
  }

  /** With no message in flight each page has at most one writer, and a writer excludes every
      other copy; exactly one flag is up on each side. */
  lemma SingleWriter(sys: System, trace: seq<Event>, p: nat)
    requires InitialSystem(sys) && sys.WellFormed()
    requires TraceFits(trace, sys.first.temp.pageCount, sys.first.pageSize) && p < sys.first.temp.pageCount
    ensures var end := SysRun(sys, trace);
            && OneFlag(end.first.msi[p]) && OneFlag(end.second.msi[p])
            && (end.first.msi[p].m ==> end.second.msi[p] == INVALID)
            && (end.second.msi[p].m ==> end.first.msi[p] == INVALID)
            && (end.first.msi[p].s <==> end.second.msi[p].s)
  {
    RunSimulates(sys, trace);
    var end := SysRun(sys, trace);
    assert PageRel(end.first, end.second, p, SpecRun(sys.first.temp.pageCount, sys.first.pageSize, trace)[p]);
  }

  /** The message most recently written to a page by either machine. */
  function LastWritten(trace: seq<Event>, p: nat): Option<string> {
    if trace == [] then None
    else
      var op := trace[|trace| - 1].op;
      if op.WritePage? && op.page == p then Some(op.message) else LastWritten(trace[..|trace| - 1], p)
  }

  lemma {:induction false} SpecRemembers(pageCount: nat, pageSize: nat, trace: seq<Event>, p: nat)
    requires TraceFits(trace, pageCount, pageSize) && p < pageCount
    ensures SpecRun(pageCount, pageSize, trace)[p].last == LastWritten(trace, p)
  {
    if trace != [] {
      SpecRemembers(pageCount, pageSize, trace[..|trace| - 1], p);
    }
  }

  // ----- what a flush contains

  /** Index of the latest message longer than `i`, or -1. */
  function LatestLonger(log: seq<string>, i: nat): (k: int)
    ensures -1 <= k < |log|
    ensures 0 <= k ==> i < |log[k]|
    ensures forall j :: k < j < |log| ==> |log[j]| <= i
  {
    if log == [] then -1
    else if i < |log[|log| - 1]| then |log| - 1
    else LatestLonger(log[..|log| - 1], i)
  }

  function Longest(log: seq<string>): (n: nat)
    ensures forall k :: 0 <= k < |log| ==> |log[k]| <= n
    ensures n == 0 || exists k :: 0 <= k < |log| && |log[k]| == n
  {
    if log == [] then 0
    else
      var last := |log| - 1;
      var rest := Longest(log[..last]);
      assert rest == 0 || exists k :: 0 <= k < last && |log[k]| == rest by {
        if rest != 0 {
          var k :| 0 <= k < |log[..last]| && |log[..last][k]| == rest;
          assert |log[k]| == rest;
        }
      }
      if rest < |log[last]| then |log[last]| else rest
  }

  lemma {:induction false} OverlayAt(log: seq<string>, pageSize: nat, i: nat)
    requires Log(log, pageSize) && i < pageSize
    ensures var k := LatestLonger(log, i);
            Overlay(log, pageSize)[i] == if k < 0 then NUL else log[k][i]
  {
    if log != [] {
      OverlayAt(log[..|log| - 1], pageSize, i);
    }
  }

  lemma {:induction false} CStringLength(s: string, n: nat)
    requires n < |s| && s[n] == NUL && forall i :: 0 <= i < n ==> s[i] != NUL
    ensures CString(s) == s[..n]
  {
    if n > 0 {
      CStringLength(s[1..], n - 1);
    }
  }

  /** The payload of a flush, byte by byte: position `i` holds the byte of the latest message
      longer than `i`; it is as long as the longest message; it ends before the page does. */
  lemma FlushContents(log: seq<string>, pageSize: nat)
    requires 1 <= pageSize && Log(log, pageSize)
    ensures var payload := CString(Overlay(log, pageSize));
            && |payload| == Longest(log) < pageSize
            && Overlay(log, pageSize)[pageSize - 1] == NUL
            && (forall i :: 0 <= i < |payload| ==>
                  LatestLonger(log, i) >= 0 && payload[i] == log[LatestLonger(log, i)][i])
  {
    var page := Overlay(log, pageSize);
    var n := Longest(log);
    forall i | 0 <= i < pageSize
      ensures var k := LatestLonger(log, i); page[i] == if k < 0 then NUL else log[k][i]
    {
      OverlayAt(log, pageSize, i);
    }
    forall i | 0 <= i < n ensures LatestLonger(log, i) >= 0 && page[i] != NUL {
      var k :| 0 <= k < |log| && |log[k]| == n;
      var j := LatestLonger(log, i);
      assert log[j][i] in log[j];
    }
    CStringLength(page, n);
  }

  // ----- what a reader gets

  predicate BusRead(sys: System, e: Event)
    requires sys.WellFormed() && e.op.Fits(sys.first.temp.pageCount, sys.first.pageSize)
  {
    IsBusRead(LinkOf(sys, e.side).x, e.op)
  }

  /** No stuck reader: a bus read finds the peer modified or invalid, never shared, and gets
      exactly one reply, which is not empty; no other command gets or leaves one. */
  lemma NoStuckReader(sys: System, trace: seq<Event>, e: Event)
    requires InitialSystem(sys) && sys.WellFormed()
    requires TraceFits(trace, sys.first.temp.pageCount, sys.first.pageSize)
    requires e.op.Fits(sys.first.temp.pageCount, sys.first.pageSize)
    ensures var end := SysRun(sys, trace);
            && (BusRead(end, e) ==> !LinkOf(end, e.side).y.msi[e.op.page].s)
            && |SysReplies(end, e)| == (if BusRead(end, e) then 1 else 0)
            && (BusRead(end, e) ==> SysReplies(end, e)[0] != "")
            && SysStep(end, e).Quiet()
  {
    hide SysRun, SysStep, SysReplies, SpecRun, SpecEvent, Overlay;
    RunSimulates(sys, trace);
    var end := SysRun(sys, trace);
    var specs := SpecRun(sys.first.temp.pageCount, sys.first.pageSize, trace);
    StepSimulates(end, e, specs);
    if e.op.ReadPage? {
      assert PageRel(end.first, end.second, e.op.page, specs[e.op.page]);
      var s := Seen(specs[e.op.page], e.side);
      if s.mine == Invalid && s.peer == Modified {
        LatestStartsPage(s.peerLog, sys.first.pageSize);
      }
    }
  }

  lemma LatestStartsPayload(log: seq<string>, pageSize: nat)
    requires 1 <= pageSize && Log(log, pageSize) && log != []
    ensures log[|log| - 1] <= CString(Overlay(log, pageSize))
  {
    FlushContents(log, pageSize);
    var payload := CString(Overlay(log, pageSize));
    var msg := log[|log| - 1];
    forall i | 0 <= i < |msg| ensures payload[i] == msg[i] {
      assert LatestLonger(log, i) == |log| - 1;
    }
  }

  lemma SpecReadPayload(s: PageSpec, op: Op, pageSize: nat)
    requires s.Legal() && Log(s.peerLog, pageSize) && op.ReadPage? && s.mine == Invalid && 1 <= pageSize
    ensures |SpecReplies(s, op, pageSize)| == 1
    ensures var payload := SpecReplies(s, op, pageSize)[0];
            match s.last
            case None => payload == NO_DATA
            case Some(msg) => msg <= payload && |payload| < pageSize
  {
    if s.peer == Modified {
      FlushContents(s.peerLog, pageSize);
      LatestStartsPayload(s.peerLog, pageSize);
    }
  }

  /** Coherence history: a bus read of a page that neither machine ever wrote is told there is
      no data; otherwise its payload starts with the latest message of either machine. */
  lemma CoherenceHistory(sys: System, trace: seq<Event>, e: Event)
    requires InitialSystem(sys) && sys.WellFormed()
    requires TraceFits(trace, sys.first.temp.pageCount, sys.first.pageSize)
    requires e.op.Fits(sys.first.temp.pageCount, sys.first.pageSize)
    requires BusRead(SysRun(sys, trace), e)
    ensures |SysReplies(SysRun(sys, trace), e)| == 1
    ensures var payload := SysReplies(SysRun(sys, trace), e)[0];
            match LastWritten(trace, e.op.page)
            case None => payload == NO_DATA
            case Some(msg) => msg <= payload && |payload| < sys.first.pageSize
  {
    var specs := SpecRun(sys.first.temp.pageCount, sys.first.pageSize, trace);
    var s := Seen(specs[e.op.page], e.side);
    BusReadSeesSpec(sys, trace, e);
    SpecReadPayload(s, e.op, sys.first.pageSize);
    SpecRemembers(sys.first.temp.pageCount, sys.first.pageSize, trace, e.op.page);
  }

  lemma StepStores(sys: System, e: Event)
    requires sys.WellFormed() && sys.Quiet() && e.op.Fits(sys.first.temp.pageCount, sys.first.pageSize)
    requires e.op.ReadPage? && |SysReplies(sys, e)| == 1
    ensures var before, after := LinkOf(sys, e.side).x, LinkOf(SysStep(sys, e), e.side).x;
            var reply := SysReplies(sys, e)[0];
            && |reply| <= |before.recv| && after.recv == reply + before.recv[|reply|..]
            && after.temp.readSignal[e.op.page] == 0
  {
    hide Snoop, SnoopReply, CString;
    TransactStores(LinkOf(sys, e.side), e.op);
  }

  lemma TransactStores(l: Link, op: Op)
    requires CanIssue(l, op) && l.Quiet() && op.ReadPage? && l.got == [] && |Transact(l, op).got| == 1
    ensures var r := Transact(l, op);
            && |r.got[0]| <= |l.x.recv| && r.x.recv == r.got[0] + l.x.recv[|r.got[0]|..]
            && r.x.temp.readSignal[op.page] == 0
  {
    hide Snoop, SnoopReply, CString;
    var x' := Issue(l.x, op);
    assert x'.recv == l.x.recv;
    if IsBusRead(l.x, op) {
      assert IssueStep(l, op).queue == [x'.temp];
    }
  }

  /** What the reader has in its buffer after a bus read: the most recent message of either
      machine at its start, or one blank when neither ever wrote the page; past the reply, what
      the buffer held before. */
  lemma ReaderSees(sys: System, trace: seq<Event>, e: Event)
    requires InitialSystem(sys) && sys.WellFormed()
    requires TraceFits(trace, sys.first.temp.pageCount, sys.first.pageSize)
    requires e.op.Fits(sys.first.temp.pageCount, sys.first.pageSize)
    requires BusRead(SysRun(sys, trace), e)
    ensures |SysReplies(SysRun(sys, trace), e)| == 1
    ensures var end := SysRun(sys, trace);
            var before, after := LinkOf(end, e.side).x.recv, LinkOf(SysStep(end, e), e.side).x.recv;
            var n := |SysReplies(end, e)[0]|;
            && |after| == |before| == sys.first.pageSize && n <= |after| && after[n..] == before[n..]
            && match LastWritten(trace, e.op.page)
               case None => n == 1 && after[0] == ' '
               case Some(msg) => |msg| <= n < sys.first.pageSize && msg <= after
  {
    CoherenceHistory(sys, trace, e);
    RunSimulates(sys, trace);
    StepStores(SysRun(sys, trace), e);
    RunKeepsSize(sys, trace, e);
  }

  lemma RunKeepsSize(sys: System, trace: seq<Event>, e: Event)
    requires sys.WellFormed() && TraceFits(trace, sys.first.temp.pageCount, sys.first.pageSize)
    ensures LinkOf(SysRun(sys, trace), e.side).x.pageSize == sys.first.pageSize
  {
  }

  /** A machine that holds a page modified reads its own copy, which starts with the most recent
      message of either machine. */
  lemma LocalReadSees(sys: System, trace: seq<Event>, side: Side, p: nat)
    requires InitialSystem(sys) && sys.WellFormed()
    requires TraceFits(trace, sys.first.temp.pageCount, sys.first.pageSize) && p < sys.first.temp.pageCount
    ensures var x := LinkOf(SysRun(sys, trace), side).x;
            x.msi[p].m ==> LastWritten(trace, p).Some? && LastWritten(trace, p).value <= CString(x.pages[p])
  {
    hide SysRun, SpecRun, LastWritten, Overlay, CString, Overwrite;
    RunSimulates(sys, trace);
    SpecRemembers(sys.first.temp.pageCount, sys.first.pageSize, trace, p);
    var end := SysRun(sys, trace);
    var s := SpecRun(sys.first.temp.pageCount, sys.first.pageSize, trace)[p];
    assert PageRel(end.first, end.second, p, s);
    if Seen(s, side).mine == Modified {
      LatestStartsPayload(Seen(s, side).mineLog, sys.first.pageSize);
    }
  }

  lemma BusReadSeesSpec(sys: System, trace: seq<Event>, e: Event)
    requires InitialSystem(sys) && sys.WellFormed()
    requires TraceFits(trace, sys.first.temp.pageCount, sys.first.pageSize)
    requires e.op.Fits(sys.first.temp.pageCount, sys.first.pageSize)
    requires BusRead(SysRun(sys, trace), e)
    ensures var s := Seen(SpecRun(sys.first.temp.pageCount, sys.first.pageSize, trace)[e.op.page], e.side);
            && s.Legal() && s.mine == Invalid && Log(s.peerLog, sys.first.pageSize)
            && SysReplies(SysRun(sys, trace), e) == SpecReplies(s, e.op, sys.first.pageSize)
  {
    RunSimulates(sys, trace);
    var end := SysRun(sys, trace);
    var specs := SpecRun(sys.first.temp.pageCount, sys.first.pageSize, trace);
    StepSimulates(end, e, specs);
    assert PageRel(end.first, end.second, e.op.page, specs[e.op.page]);
  }

  /** The messages one machine has written to a page since it last zeroed its copy, which it
      does only in a bus read. */
  function WrittenSinceZeroed(sys: System, trace: seq<Event>, side: Side, p: nat): seq<string>
    requires sys.WellFormed() && TraceFits(trace, sys.first.temp.pageCount, sys.first.pageSize)
  {
    if trace == [] then []
    else
      var before, e := trace[..|trace| - 1], trace[|trace| - 1];
      var log := WrittenSinceZeroed(sys, before, side, p);
      if e.side != side || e.op.ViewPages? || e.op.page != p then log
      else if e.op.WritePage? then log + [e.op.message]
      else if BusRead(SysRun(sys, before), e) then []
      else log
  }

  lemma {:induction false} SpecLogs(sys: System, trace: seq<Event>, side: Side, p: nat)
    requires InitialSystem(sys) && sys.WellFormed() && p < sys.first.temp.pageCount
    requires TraceFits(trace, sys.first.temp.pageCount, sys.first.pageSize)
    ensures Seen(SpecRun(sys.first.temp.pageCount, sys.first.pageSize, trace)[p], side).mineLog
            == WrittenSinceZeroed(sys, trace, side, p)
  {
    hide SysRun, Overlay;
    if trace != [] {
      var before := trace[..|trace| - 1];
      SpecLogs(sys, before, side, p);
      RunSimulates(sys, before);
      var mid := SysRun(sys, before);
      assert PageRel(mid.first, mid.second, p, SpecRun(sys.first.temp.pageCount, sys.first.pageSize, before)[p]);
    }
  }

  function Other(side: Side): Side {
    if side == First then Second else First
  }

  /** Exact flush contents, in terms of the run alone: the payload a bus read gets from a
      modified peer has at byte `i` the byte of the latest message longer than `i` that the
      peer wrote since its page was last zeroed, and ends before the page does. */
  lemma ExactFlush(sys: System, trace: seq<Event>, e: Event)
    requires InitialSystem(sys) && sys.WellFormed()
    requires TraceFits(trace, sys.first.temp.pageCount, sys.first.pageSize)
    requires e.op.Fits(sys.first.temp.pageCount, sys.first.pageSize)
    requires BusRead(SysRun(sys, trace), e) && LastWritten(trace, e.op.page).Some?
    ensures |SysReplies(SysRun(sys, trace), e)| == 1
    ensures var payload := SysReplies(SysRun(sys, trace), e)[0];
            var log := WrittenSinceZeroed(sys, trace, Other(e.side), e.op.page);
            && |payload| == Longest(log) < sys.first.pageSize
            && forall i :: 0 <= i < |payload| ==>
                 LatestLonger(log, i) >= 0 && payload[i] == log[LatestLonger(log, i)][i]
  {
    var s := Seen(SpecRun(sys.first.temp.pageCount, sys.first.pageSize, trace)[e.op.page], e.side);
    BusReadSeesSpec(sys, trace, e);
    SpecRemembers(sys.first.temp.pageCount, sys.first.pageSize, trace, e.op.page);
    SpecLogs(sys, trace, Other(e.side), e.op.page);
    FlushContents(s.peerLog, sys.first.pageSize);
  }

  // ----- what is not kept

  /** Shared copies are not always equal: a reader zeroes its own page and never stores the
      reply in it.  They are equal exactly when neither machine ever wrote the page; when one
      did, exactly one of the two copies holds anything. */
  lemma SharedCopies(sys: System, trace: seq<Event>, p: nat)
    requires InitialSystem(sys) && sys.WellFormed()
    requires TraceFits(trace, sys.first.temp.pageCount, sys.first.pageSize) && p < sys.first.temp.pageCount
    ensures var end := SysRun(sys, trace);
            var zeros := Zeros(sys.first.pageSize);
            end.first.msi[p].s ==>
              && end.second.msi[p].s
              && (end.first.pages[p] == end.second.pages[p] <==> LastWritten(trace, p).None?)
              && (LastWritten(trace, p).Some? ==> (end.first.pages[p] == zeros) != (end.second.pages[p] == zeros))
  {
    RunSimulates(sys, trace);
    SpecRemembers(sys.first.temp.pageCount, sys.first.pageSize, trace, p);
    hide SysRun, SpecRun, LastWritten;
    var end := SysRun(sys, trace);
    var s := SpecRun(sys.first.temp.pageCount, sys.first.pageSize, trace)[p];
    assert PageRel(end.first, end.second, p, s);
    if s.mineLog != [] {
      LatestStartsPage(s.mineLog, sys.first.pageSize);
    }
    if s.peerLog != [] {
      LatestStartsPage(s.peerLog, sys.first.pageSize);
    }
  }

  /** One write and one read of the same page are enough to leave unequal shared copies. */
  lemma SharedCopiesDiffer(sys: System, msg: string)
    requires InitialSystem(sys) && sys.WellFormed() && sys.first.temp.pageCount > 0
    requires Message(msg, sys.first.pageSize)
    ensures var trace := [Event(First, WritePage(0, msg)), Event(Second, ReadPage(0))];
            && TraceFits(trace, sys.first.temp.pageCount, sys.first.pageSize)
            && var end := SysRun(sys, trace);
               && end.first.msi[0] == SHARED && end.second.msi[0] == SHARED
               && end.first.pages[0] != end.second.pages[0]
  {
    var write, read := Event(First, WritePage(0, msg)), Event(Second, ReadPage(0));
    var trace := [write, read];
    assert trace[..1] == [write] && LastWritten([write], 0) == Some(msg);
    assert LastWritten(trace, 0).Some?;
    hide *;
    SharedAfterPair(sys, msg);
    SharedCopies(sys, trace, 0);
  }

  lemma SharedAfterPair(sys: System, msg: string)
    requires InitialSystem(sys) && sys.WellFormed() && sys.first.temp.pageCount > 0
    requires Message(msg, sys.first.pageSize)
    ensures var trace := [Event(First, WritePage(0, msg)), Event(Second, ReadPage(0))];
            && TraceFits(trace, sys.first.temp.pageCount, sys.first.pageSize)
            && SysRun(sys, trace).first.msi[0] == SHARED && SysRun(sys, trace).second.msi[0] == SHARED
  {
    var trace := [Event(First, WritePage(0, msg)), Event(Second, ReadPage(0))];
    var n, size := sys.first.temp.pageCount, sys.first.pageSize;
    SpecSharedAfterPair(n, size, msg);
    hide SysRun, SpecRun, Overlay;
    RunSimulates(sys, trace);
    assert PageRel(SysRun(sys, trace).first, SysRun(sys, trace).second, 0, SpecRun(n, size, trace)[0]);
  }

  lemma SpecSharedAfterPair(n: nat, size: nat, msg: string)
    requires n > 0 && Message(msg, size)
    ensures var trace := [Event(First, WritePage(0, msg)), Event(Second, ReadPage(0))];
            && TraceFits(trace, n, size)
            && var s := SpecRun(n, size, trace)[0];
               s.mine == Shared && s.peer == Shared
  {
    var write, read := Event(First, WritePage(0, msg)), Event(Second, ReadPage(0));
    var start := seq(n, p => UNTOUCHED);
    assert [write, read][..1] == [write] && [write][..0] == [];
    assert SpecRunFrom(start, size, [write]) == SpecEvent(start, write);
    assert SpecRunFrom(start, size, [write, read]) == SpecEvent(SpecEvent(start, write), read);
  }
}
