/** The machine itself: flags, mapped bytes, message struct and receive buffer updated in
    place, each command proved to compute its function in `Coherence`. */
module CoherenceMachine {
  import opened Wrappers
  import opened Coherence
  import opened CoherenceBus
  import opened CoherenceProofs
  import opened CoherencePipeline
  import opened CoherenceBulk
  import CoherenceRuns

  // ----- the mapping is flat; a page is a slice of it

  function Slice(mem: string, p: nat, pageSize: nat): string {
    if Offset(p, pageSize) + pageSize <= |mem| then mem[Offset(p, pageSize)..Offset(p, pageSize) + pageSize] else ""
  }

  function PagesOf(mem: string, pageCount: nat, pageSize: nat): (r: seq<string>)
    ensures |r| == pageCount
  {
    seq(pageCount, p requires 0 <= p < pageCount => Slice(mem, p, pageSize))
  }

  lemma {:induction false} PagesApart(p: nat, q: nat, pageSize: nat)
    requires p < q
    ensures Offset(p, pageSize) + pageSize <= Offset(q, pageSize)
  {
    if p + 1 < q {
      PagesApart(p, q - 1, pageSize);
    }
  }

  lemma PagesWhole(mem: string, pageCount: nat, pageSize: nat)
    requires |mem| == Offset(pageCount, pageSize)
    ensures forall p :: 0 <= p < pageCount ==> |PagesOf(mem, pageCount, pageSize)[p]| == pageSize
  {
    forall p | 0 <= p < pageCount ensures |PagesOf(mem, pageCount, pageSize)[p]| == pageSize {
      PagesApart(p, pageCount, pageSize);
    }
  }

  lemma SliceKept(mem: string, mem': string, p: nat, q: nat, pageCount: nat, pageSize: nat)
    requires |mem| == |mem'| == Offset(pageCount, pageSize) && q < pageCount && q != p
    requires forall i :: 0 <= i < |mem| && !(Offset(p, pageSize) <= i < Offset(p, pageSize) + pageSize) ==>
               mem'[i] == mem[i]
    ensures Slice(mem', q, pageSize) == Slice(mem, q, pageSize)
  {
    PagesApart(q, pageCount, pageSize);
    if q < p { PagesApart(q, p, pageSize); } else { PagesApart(p, q, pageSize); }
    hide Offset;
  }

  /** Bytes changed inside one page leave every other page as it was. */
  lemma OnePageChanged(mem: string, mem': string, p: nat, page: string, pageCount: nat, pageSize: nat)
    requires |mem| == |mem'| == Offset(pageCount, pageSize) && p < pageCount && |page| == pageSize
    requires Offset(p, pageSize) + pageSize <= |mem|
    requires mem'[Offset(p, pageSize)..Offset(p, pageSize) + pageSize] == page
    requires forall i :: 0 <= i < |mem| && !(Offset(p, pageSize) <= i < Offset(p, pageSize) + pageSize) ==>
               mem'[i] == mem[i]
    ensures PagesOf(mem', pageCount, pageSize) == PagesOf(mem, pageCount, pageSize)[p := page]
  {
    hide Offset;
    forall q | 0 <= q < pageCount && q != p ensures Slice(mem', q, pageSize) == Slice(mem, q, pageSize) {
      SliceKept(mem, mem', p, q, pageCount, pageSize);
    }
  }

  lemma MessageCopied(mem: string, mem': string, p: nat, msg: string, pageCount: nat, pageSize: nat)
    requires |mem| == |mem'| == Offset(pageCount, pageSize) && p < pageCount && |msg| <= pageSize
    requires var a := Offset(p, pageSize);
             && a + pageSize <= |mem|
             && mem' == mem[..a] + msg + mem[a + |msg|..]
    ensures |PagesOf(mem, pageCount, pageSize)[p]| == pageSize
    ensures PagesOf(mem', pageCount, pageSize)
            == PagesOf(mem, pageCount, pageSize)[p := Overwrite(PagesOf(mem, pageCount, pageSize)[p], msg)]
  {
    hide Offset;
    var a := Offset(p, pageSize);
    var page := Overwrite(mem[a..a + pageSize], msg);
    assert mem'[a..a + pageSize] == page;
    OnePageChanged(mem, mem', p, page, pageCount, pageSize);
  }

  /** A C string that starts at a page whose last byte is NUL never leaves the page. */
  lemma {:induction false} CStringStays(mem: string, n: nat)
    requires 0 < n <= |mem| && mem[n - 1] == NUL
    ensures CString(mem) == CString(mem[..n])
  {
    if mem[0] != NUL {
      CStringStays(mem[1..], n - 1);
      assert mem[1..][..n - 1] == mem[..n][1..];
    }
  }

  class Machine {
    const pageSize: nat
    const msi: array<Flags>
    const addr: array<char>
    const recv: array<char>
    var temp: ProcInfo

    ghost predicate Valid()
      reads this
    {
      && temp.WellFormed()
      && 1 <= pageSize
      && msi.Length == MAX_SIZE
      && addr.Length == Offset(temp.pageCount, pageSize)
      && recv.Length == pageSize
      && recv != addr
    }

    ghost function View(): (v: State)
      reads this, msi, addr, recv
      requires Valid()
      ensures v.WellFormed()
    {
      PagesWhole(addr[..], temp.pageCount, pageSize);
      State(pageSize, msi[..], PagesOf(addr[..], temp.pageCount, pageSize), temp, recv[..])
    }

    /** Both socket functions map zeroed pages and mark each page invalid; the message struct
        holds whatever it held. */
    constructor (pageSize: nat, temp: ProcInfo)
      requires 1 <= pageSize && temp.WellFormed()
      ensures addr.Length == temp.pageCount * pageSize && forall i :: 0 <= i < addr.Length ==> addr[i] == '\0'
      ensures forall k :: 0 <= k < temp.pageCount && k < msi.Length ==> msi[k] == Flags(false, false, true)
      ensures Valid() && fresh(msi) && fresh(addr) && fresh(recv)
      ensures Initial(View()) && this.temp == temp && this.pageSize == pageSize
    {
      this.pageSize := pageSize;
      this.temp := temp;
      msi := new Flags[MAX_SIZE](i => Flags(false, false, false));
      addr := new char[Offset(temp.pageCount, pageSize)](i => NUL);
      recv := new char[pageSize];
      new;
      var i := 0;
      while i < temp.pageCount
        invariant i <= temp.pageCount && Valid() && this.temp == temp && this.pageSize == pageSize
        invariant forall k :: 0 <= k < i ==> msi[k] == INVALID
        invariant forall k :: 0 <= k < addr.Length ==> addr[k] == NUL
      {
        msi[i] := INVALID;
        i := i + 1;
      }
      PagesWhole(addr[..], temp.pageCount, pageSize);
      forall p | 0 <= p < temp.pageCount ensures View().pages[p] == Zeros(pageSize) {
      }
    }

    /** The read arm up to the send.  Only an invalid page goes to the bus. */
    method BeginRead(p: nat) returns (sent: bool)
      requires Valid() && p < temp.pageCount
      modifies this`temp, msi, addr
      ensures Valid() && temp.pageCount == old(temp.pageCount)
      ensures View() == Issue(old(View()), ReadPage(p))
      ensures sent == old(msi[p].i)
      ensures temp.pageNum == p && temp.accessPage == p * pageSize
      ensures !sent ==> msi[..] == old(msi[..]) && addr[..] == old(addr[..])
      ensures sent ==> msi[..] == old(msi[..])[p := Flags(false, true, false)]
      ensures sent ==> forall i :: 0 <= i < addr.Length ==>
                addr[i] == if p * pageSize <= i < p * pageSize + pageSize then NUL else old(addr[i])
    {
      temp := temp.(pageNum := p, accessPage := Offset(p, pageSize));
      sent := msi[p].i;
      if sent {
        PagesApart(p, temp.pageCount, pageSize);
        forall i | temp.accessPage <= i < temp.accessPage + pageSize {
          addr[i] := NUL;
        }
        temp := temp.(readSignal := temp.readSignal[p := 1],
                      pagefaultSignal := temp.pagefaultSignal[p := 1],
                      invalidateSignal := temp.invalidateSignal[p := 0]);
        msi[p] := SHARED;
        OnePageChanged(old(addr[..]), addr[..], p, Zeros(pageSize), temp.pageCount, pageSize);
      }
    }

    /** The reply arrives: copied over the start of the buffer, and the request withdrawn. */
    method EndRead(p: nat, reply: string)
      requires Valid() && p < temp.pageCount && |reply| <= pageSize
      modifies this`temp, recv
      ensures Valid() && temp.pageCount == old(temp.pageCount)
      ensures View() == Complete(old(View()), p, reply)
      ensures recv[..] == reply + old(recv[..])[|reply|..]
      ensures temp == old(temp).(readSignal := old(temp.readSignal)[p := 0])
    {
      forall i | 0 <= i < |reply| {
        recv[i] := reply[i];
      }
      assert recv[..] == Overwrite(old(recv[..]), reply);
      assert addr[..] == old(addr[..]);
      temp := temp.(readSignal := temp.readSignal[p := 0]);
    }

    /** The write arm; every write is sent. */
    method Write(p: nat, msg: string)
      requires Valid() && p < temp.pageCount && Message(msg, pageSize)
      modifies this`temp, msi, addr
      ensures Valid() && temp.pageCount == old(temp.pageCount)
      ensures View() == Issue(old(View()), WritePage(p, msg))
      ensures temp.pageNum == p && temp.accessPage == p * pageSize
      ensures msi[..] == old(msi[..])[p := Flags(true, false, false)]
      ensures p * pageSize + |msg| <= addr.Length
      ensures addr[..] == old(addr[..])[..p * pageSize] + msg + old(addr[..])[p * pageSize + |msg|..]
    {
      ghost var before := View();
      temp := temp.(pageNum := p);
      if msi[p].i {
        temp := temp.(pagefaultSignal := temp.pagefaultSignal[p := 1],
                      busRdx := temp.busRdx[p := 1],
                      invalidateSignal := temp.invalidateSignal[p := 1],
                      readSignal := temp.readSignal[p := 0]);
      } else if msi[p].s {
        temp := temp.(busUpgr := temp.busUpgr[p := 1],
                      invalidateSignal := temp.invalidateSignal[p := 1],
                      readSignal := temp.readSignal[p := 0]);
      }
      msi[p] := MODIFIED;
      temp := temp.(accessPage := Offset(p, pageSize));
      CopyMessage(p, msg);
      hide Offset;
      assert temp == Issue(before, WritePage(p, msg)).temp;
    }

    /** `memcpy` of the message to the page's address. */
    method CopyMessage(p: nat, msg: string)
      requires Valid() && p < temp.pageCount && |msg| <= pageSize && temp.accessPage == Offset(p, pageSize)
      modifies addr
      ensures Valid() && p * pageSize + |msg| <= addr.Length
      ensures addr[..] == old(addr[..])[..p * pageSize] + msg + old(addr[..])[p * pageSize + |msg|..]
      ensures PagesOf(addr[..], temp.pageCount, pageSize)
              == PagesOf(old(addr[..]), temp.pageCount, pageSize)[p := Overwrite(old(View().pages[p]), msg)]
      ensures |PagesOf(old(addr[..]), temp.pageCount, pageSize)[p]| == pageSize
    {
      PagesApart(p, temp.pageCount, pageSize);
      assert Offset(p, pageSize) == p * pageSize;
      hide Offset;
      ghost var a, was := temp.accessPage, addr[..];
      forall i | 0 <= i < |msg| {
        addr[temp.accessPage + i] := msg[i];
      }
      assert addr[..] == was[..a] + msg + was[a + |msg|..];
      MessageCopied(was, addr[..], p, msg, temp.pageCount, pageSize);
    }

    /** One turn of the snoop loop. */
    method HandleMessage(m: ProcInfo) returns (reply: seq<string>)
      requires Valid() && Deliverable(View(), m) && View().Terminated()
      modifies this`temp, msi
      ensures Valid() && temp.pageCount == old(temp.pageCount)
      ensures View() == Snoop(old(View()), m) && temp == m && addr[..] == old(addr[..])
      ensures reply == SnoopReply(old(View()), m)
    {
      ghost var before := View();
      temp := m;
      reply := [];
      var p := m.pageNum;
      if msi[p].m && m.readSignal[p] == 1 {
        PagesApart(p, temp.pageCount, pageSize);
        assert addr[temp.accessPage..][..pageSize] == before.pages[p];
        assert addr[temp.accessPage..][pageSize - 1] == before.pages[p][pageSize - 1];
        CStringStays(addr[temp.accessPage..], pageSize);
        reply := Transmitted(CString(addr[temp.accessPage..]));
        msi[p] := SHARED;
      } else if msi[p].s && (m.busUpgr[p] == 1 || m.busRdx[p] == 1) {
        msi[p] := INVALID;
      } else if msi[p].i && m.readSignal[p] == 1 {
        msi[p] := SHARED;
        reply := [NO_DATA];
      } else if (msi[p].m || msi[p].s) && (m.readSignal[p] == 0 || m.invalidateSignal[p] == 1) {
        msi[p] := INVALID;
      }
      assert msi[..] == Snoop(before, m).msi;
    }

    // ----- the bulk commands, with the peer's thread answering each message as it arrives

    ghost predicate Apart(peer: Machine)
    {
      && this != peer
      && msi != peer.msi
      && addr != peer.addr && addr != peer.recv
      && recv != peer.addr && recv != peer.recv
    }

    ghost function Wire(peer: Machine): Link
      reads this, msi, addr, recv, peer, peer.msi, peer.addr, peer.recv
      requires Valid() && peer.Valid()
    {
      Link(View(), peer.View(), [], [], None, [])
    }

    /** One read with the peer answering: the loop body of read-all and the single read. */
    method ReadPageFrom(peer: Machine, p: nat, ghost specs: seq<PageSpec>) returns (got: seq<string>)
      requires Valid() && peer.Valid() && Apart(peer) && p < temp.pageCount && Rel(View(), peer.View(), specs)
      modifies this`temp, msi, addr, recv, peer`temp, peer.msi
      ensures Valid() && peer.Valid() && temp.pageCount == old(temp.pageCount)
      ensures CanIssue(old(Wire(peer)), ReadPage(p))
      ensures Wire(peer).(got := got) == Transact(old(Wire(peer)), ReadPage(p))
      ensures |got| == if Sends(old(View()), ReadPage(p)) then 1 else 0
    {
      ghost var wire, me := Wire(peer), View();
      TransactSimulates(wire, ReadPage(p), specs);
      RelTerminated(me, peer.View(), specs);
      hide CString, Overlay, Overwrite, PageRel, PagesOf;
      var sent := BeginRead(p);
      assert peer.View() == wire.y;
      got := [];
      if sent {
        assert IssueStep(wire, ReadPage(p)).queue == [temp];
        got := peer.HandleMessage(temp);
        EndRead(p, got[0]);
      }
    }

    /** One write with the peer snooping: the loop body of write-all and the single write. */
    method WritePageTo(peer: Machine, p: nat, msg: string, ghost specs: seq<PageSpec>)
      requires Valid() && peer.Valid() && Apart(peer) && p < temp.pageCount && Message(msg, pageSize)
      requires Rel(View(), peer.View(), specs)
      modifies this`temp, msi, addr, peer`temp, peer.msi
      ensures Valid() && peer.Valid() && temp.pageCount == old(temp.pageCount)
      ensures CanIssue(old(Wire(peer)), WritePage(p, msg))
      ensures Wire(peer) == Transact(old(Wire(peer)), WritePage(p, msg))
    {
      ghost var wire, me := Wire(peer), View();
      TransactSimulates(wire, WritePage(p, msg), specs);
      RelTerminated(me, peer.View(), specs);
      Write(p, msg);
      assert peer.View() == wire.y;
      assert IssueStep(wire, WritePage(p, msg)).queue == [temp];
      var reply := peer.HandleMessage(temp);
    }

    /** Asking for a page, or for all of them with -1, first stores the number typed. */
    method AskPage(k: int)
      requires Valid()
      modifies this`temp
      ensures Valid() && temp.pageCount == old(temp.pageCount)
      ensures View() == Issue(old(View()), ViewPages(k))
    {
      temp := temp.(pageNum := k);
    }

    /** The loop of read-all: one transaction per page, in order. */
    method ReadEachPage(peer: Machine, ghost specs: seq<PageSpec>) returns (got: seq<string>)
      requires Valid() && peer.Valid() && Apart(peer) && Rel(View(), peer.View(), specs)
      modifies this`temp, msi, addr, recv, peer`temp, peer.msi
      ensures Valid() && peer.Valid() && temp.pageCount == old(temp.pageCount)
      ensures ReadSoFar(old(Wire(peer)), Wire(peer), got, temp.pageCount)
    {
      hide Transact, Issue, PageRel;
      ghost var n, start := temp.pageCount, Wire(peer);
      got := [];
      var count := 0;
      assert ReadSoFar(start, start, [], 0) && start.x.temp.pageCount == n && start.Quiet();
      hide ReadSoFar, Rel, Sends, Valid, View, TransactRun, Sent, OpsFit, ReadAllOps;
      while count < temp.pageCount
        invariant Valid() && peer.Valid() && temp.pageCount == n && count <= n
        invariant ReadSoFar(start, Wire(peer), got, count)
      {
        ghost var now := Wire(peer);
        ghost var specs' := MidReadAll(start, now, got, count, specs);
        var reply := ReadPageFrom(peer, count, specs');
        ReadAllExtends(start, count, now, got, Wire(peer), reply, specs);
        got := got + reply;
        count := count + 1;
      }
    }

    /** Read-all sends one message for each page that was invalid here and leaves none. */
    method ReadAll(peer: Machine, ghost specs: seq<PageSpec>) returns (got: seq<string>)
      requires Valid() && peer.Valid() && Apart(peer) && Rel(View(), peer.View(), specs)
      modifies this`temp, msi, addr, recv, peer`temp, peer.msi
      ensures Valid() && peer.Valid() && temp.pageCount == old(temp.pageCount)
      ensures var start := Transact(old(Wire(peer)), ViewPages(-1));
              && OpsFit(ReadAllOps(temp.pageCount), start.x.temp.pageCount, start.x.pageSize)
              && Wire(peer).(got := got) == TransactRun(start, ReadAllOps(temp.pageCount))
      ensures |got| == InvalidPages(old(View()).msi, temp.pageCount)
      ensures forall p :: 0 <= p < temp.pageCount ==> !msi[p].i
    {
      ghost var before, start := View().msi, Transact(Wire(peer), ViewPages(-1));
      TransactSimulates(Wire(peer), ViewPages(-1), specs);
      AskPage(-1);
      assert Wire(peer) == start && start.x.msi == before;
      hide Transact, Issue, PageRel;
      got := ReadEachPage(peer, specs);
      ReadAllDone(start, Wire(peer), got, temp.pageCount);
      ReadAllOnce(start, specs);
      assert View().msi == TransactRun(start, ReadAllOps(temp.pageCount)).x.msi;
    }

    /** The loop of write-all: one transaction per page, in order. */
    method WriteEachPage(peer: Machine, msg: string, ghost specs: seq<PageSpec>)
      requires Valid() && peer.Valid() && Apart(peer) && Rel(View(), peer.View(), specs) && Message(msg, pageSize)
      modifies this`temp, msi, addr, peer`temp, peer.msi
      ensures Valid() && peer.Valid() && temp.pageCount == old(temp.pageCount)
      ensures OpsFit(WriteAllOps(temp.pageCount, msg), temp.pageCount, pageSize)
      ensures Wire(peer) == TransactRun(old(Wire(peer)), WriteAllOps(temp.pageCount, msg))
    {
      hide Transact, Issue, PageRel;
      ghost var n, start := temp.pageCount, Wire(peer);
      var count := 0;
      while count < temp.pageCount
        invariant Valid() && peer.Valid() && temp.pageCount == n && count <= n
        invariant Wire(peer) == TransactRun(start, WriteAllOps(count, msg))
      {
        ghost var specs' := MidWriteAll(start, count, msg, specs);
        WritePageTo(peer, count, msg, specs');
        count := count + 1;
      }
    }

    /** Write-all takes every page. */
    method WriteAll(peer: Machine, msg: string, ghost specs: seq<PageSpec>)
      requires Valid() && peer.Valid() && Apart(peer) && Rel(View(), peer.View(), specs) && Message(msg, pageSize)
      modifies this`temp, msi, addr, peer`temp, peer.msi
      ensures Valid() && peer.Valid() && temp.pageCount == old(temp.pageCount)
      ensures var start := Transact(old(Wire(peer)), ViewPages(-1));
              && OpsFit(WriteAllOps(temp.pageCount, msg), start.x.temp.pageCount, start.x.pageSize)
              && Wire(peer) == TransactRun(start, WriteAllOps(temp.pageCount, msg))
      ensures forall p :: 0 <= p < temp.pageCount ==> msi[p] == MODIFIED && peer.msi[p] == INVALID
    {
      ghost var start := Transact(Wire(peer), ViewPages(-1));
      TransactSimulates(Wire(peer), ViewPages(-1), specs);
      AskPage(-1);
      assert Wire(peer) == start;
      hide Transact, Issue, PageRel;
      WriteEachPage(peer, msg, specs);
      WriteAllTakesEverything(start, msg, specs);
    }
  }

  /** Replies already received do not affect a transaction. */
  lemma GotAdds(l: Link, op: Op, got: seq<string>)
    requires CanIssue(l, op) && l.got == []
    ensures CanIssue(l.(got := got), op)
    ensures Transact(l.(got := got), op) == Transact(l, op).(got := got + Transact(l, op).got)
  {
    var l1 := IssueStep(l, op);
    assert IssueStep(l.(got := got), op) == l1.(got := got);
    if l1.queue != [] {
      assert DeliverStep(l1.(got := got)) == DeliverStep(l1).(got := got);
    }
    assert got + [] == got;
  }

  /** Read-all after its first `k` pages. */
  predicate ReadSoFar(start: Link, now: Link, got: seq<string>, k: nat) {
    && start.WellFormed() && OpsFit(ReadAllOps(k), start.x.temp.pageCount, start.x.pageSize)
    && now.(got := got) == TransactRun(start, ReadAllOps(k))
    && |got| == Sent(start, ReadAllOps(k))
  }

  lemma ReadAllDone(start: Link, now: Link, got: seq<string>, n: nat)
    requires ReadSoFar(start, now, got, n)
    ensures start.WellFormed() && OpsFit(ReadAllOps(n), start.x.temp.pageCount, start.x.pageSize)
    ensures now.(got := got) == TransactRun(start, ReadAllOps(n)) && |got| == Sent(start, ReadAllOps(n))
  {
  }

  lemma MidReadAll(start: Link, now: Link, got: seq<string>, k: nat, specs: seq<PageSpec>)
    returns (specs': seq<PageSpec>)
    requires start.WellFormed() && start.Quiet() && Rel(start.x, start.y, specs) && k < start.x.temp.pageCount
    requires ReadSoFar(start, now, got, k)
    ensures Rel(now.x, now.y, specs')
  {
    hide Transact, Rel;
    TransactRunSimulates(start, ReadAllOps(k), specs);
    specs' := SpecOps(specs, ReadAllOps(k));
  }

  lemma ReadAllExtends(start: Link, k: nat, now: Link, got: seq<string>, next: Link, reply: seq<string>,
                       specs: seq<PageSpec>)
    requires start.WellFormed() && start.Quiet() && Rel(start.x, start.y, specs) && k < start.x.temp.pageCount
    requires now.got == [] && ReadSoFar(start, now, got, k)
    requires CanIssue(now, ReadPage(k)) && next.got == [] && next.(got := reply) == Transact(now, ReadPage(k))
    requires |reply| == if Sends(now.x, ReadPage(k)) then 1 else 0
    ensures ReadSoFar(start, next, got + reply, k + 1)
  {
    var ops, op := ReadAllOps(k), ReadPage(k);
    ReadAllGrows(k, start.x.temp.pageCount, start.x.pageSize);
    hide Transact, TransactRun, Sent, Rel, Sends, ReadAllOps, OpsFit, CanIssue, Issue;
    TransactRunAppend(start, ops, op, specs);
    SentAppend(start, ops, op, specs);
    GotAdds(now, op, got);
  }

  lemma MidWriteAll(start: Link, k: nat, msg: string, specs: seq<PageSpec>) returns (specs': seq<PageSpec>)
    requires start.WellFormed() && start.Quiet() && Rel(start.x, start.y, specs) && k < start.x.temp.pageCount
    requires Message(msg, start.x.pageSize)
    ensures OpsFit(WriteAllOps(k, msg), start.x.temp.pageCount, start.x.pageSize)
    ensures OpsFit(WriteAllOps(k + 1, msg), start.x.temp.pageCount, start.x.pageSize)
    ensures var mid := TransactRun(start, WriteAllOps(k, msg));
            && mid.Quiet() && Rel(mid.x, mid.y, specs')
            && TransactRun(start, WriteAllOps(k + 1, msg)) == Transact(mid, WritePage(k, msg))
  {
    TransactRunSimulates(start, WriteAllOps(k, msg), specs);
    specs' := SpecOps(specs, WriteAllOps(k, msg));
    assert WriteAllOps(k + 1, msg)[..k] == WriteAllOps(k, msg);
  }

  lemma LastByteNul(log: seq<string>, pageSize: nat)
    requires 1 <= pageSize && Log(log, pageSize)
    ensures Overlay(log, pageSize)[pageSize - 1] == NUL
  {
    CoherenceRuns.FlushContents(log, pageSize);
  }

  lemma RelTerminated(x: State, y: State, specs: seq<PageSpec>)
    requires Rel(x, y, specs)
    ensures x.Terminated() && y.Terminated()
  {
    hide Overlay;
    forall p | 0 <= p < |specs|
      ensures x.pages[p][x.pageSize - 1] == NUL && y.pages[p][x.pageSize - 1] == NUL
    {
      assert PageRel(x, y, p, specs[p]);
      LastByteNul(specs[p].mineLog, x.pageSize);
      LastByteNul(specs[p].peerLog, x.pageSize);
    }
  }
}
