/** What one command and one receipt do to the struct, the flags, the page and the buffer,
    arm by arm. */
module CoherenceMessages {
  import opened Coherence
  import opened CoherenceBus

  /** Nothing but one page's bytes and flags may differ. */
  predicate OnlyPage(x: State, r: State, p: nat) {
    && |r.msi| == |x.msi| && |r.pages| == |x.pages|
    && (forall q :: 0 <= q < |x.msi| && q != p ==> r.msi[q] == x.msi[q])
    && (forall q :: 0 <= q < |x.pages| && q != p ==> r.pages[q] == x.pages[q])
    && r.recv == x.recv && r.pageSize == x.pageSize
  }

  /** A read of an invalid page: the struct sent asks for the page and reports the fault, takes
      back an invalidation, and leaves the two write signals as they were. */
  lemma RequestSent(x: State, p: nat)
    requires x.WellFormed() && p < x.temp.pageCount && x.msi[p].i
    ensures var r := Issue(x, ReadPage(p));
            && Sends(x, ReadPage(p))
            && r.temp.pageNum == p && r.temp.accessPage == p * x.pageSize && r.temp.pageCount == x.temp.pageCount
            && r.temp.readSignal == x.temp.readSignal[p := 1]
            && r.temp.pagefaultSignal == x.temp.pagefaultSignal[p := 1]
            && r.temp.invalidateSignal == x.temp.invalidateSignal[p := 0]
            && r.temp.busRdx == x.temp.busRdx && r.temp.busUpgr == x.temp.busUpgr
            && r.msi[p] == Flags(false, true, false)
            && |r.pages[p]| == x.pageSize && (forall i :: 0 <= i < x.pageSize ==> r.pages[p][i] == '\0')
            && OnlyPage(x, r, p)
  {
    hide CString, Overwrite;
  }

  /** A read of any other page sends nothing and touches only the address. */
  lemma LocalReadSendsNothing(x: State, p: nat)
    requires x.WellFormed() && p < x.temp.pageCount && !x.msi[p].i
    ensures var r := Issue(x, ReadPage(p));
            && !Sends(x, ReadPage(p))
            && r == x.(temp := x.temp.(pageNum := p, accessPage := p * x.pageSize))
  {
  }

  /** Every write is sent, and makes the page modified with the message over its start.  The
      struct says what the page was: from invalid it reports a fault and claims the page, from
      shared it upgrades, and both invalidate the peer and withdraw any read; from modified no
      signal is touched. */
  lemma WriteSent(x: State, p: nat, msg: string)
    requires x.WellFormed() && WritePage(p, msg).Fits(x.temp.pageCount, x.pageSize)
    requires x.msi[p].m || x.msi[p].s || x.msi[p].i
    requires !(x.msi[p].i && x.msi[p].s)
    ensures var r := Issue(x, WritePage(p, msg));
            && Sends(x, WritePage(p, msg))
            && r.temp.pageNum == p && r.temp.accessPage == p * x.pageSize && r.temp.pageCount == x.temp.pageCount
            && (x.msi[p].i ==>
                  && r.temp.pagefaultSignal == x.temp.pagefaultSignal[p := 1]
                  && r.temp.busRdx == x.temp.busRdx[p := 1] && r.temp.busUpgr == x.temp.busUpgr)
            && (x.msi[p].s ==>
                  && r.temp.busUpgr == x.temp.busUpgr[p := 1]
                  && r.temp.busRdx == x.temp.busRdx && r.temp.pagefaultSignal == x.temp.pagefaultSignal)
            && (x.msi[p].i || x.msi[p].s ==>
                  && r.temp.invalidateSignal == x.temp.invalidateSignal[p := 1]
                  && r.temp.readSignal == x.temp.readSignal[p := 0])
            && (!x.msi[p].i && !x.msi[p].s ==>
                  r.temp == x.temp.(pageNum := p, accessPage := p * x.pageSize))
            && r.msi[p] == Flags(true, false, false)
            && |r.pages[p]| == x.pageSize
            && (forall i :: 0 <= i < x.pageSize ==>
                  r.pages[p][i] == if i < |msg| then msg[i] else x.pages[p][i])
            && OnlyPage(x, r, p)
  {
    hide CString;
  }

  /** A view sends nothing and keeps only the number typed. */
  lemma ViewSendsNothing(x: State, k: int)
    requires x.WellFormed()
    ensures !Sends(x, ViewPages(k)) && Issue(x, ViewPages(k)) == x.(temp := x.temp.(pageNum := k))
  {
  }

  /** The reply goes over the start of the buffer, the rest of the buffer stays, and of the
      struct only the request is withdrawn. */
  lemma ReplyStored(x: State, p: nat, reply: string)
    requires x.WellFormed() && p < x.temp.pageCount && |reply| <= x.pageSize
    ensures var r := Complete(x, p, reply);
            && r.recv == reply + x.recv[|reply|..] && |r.recv| == |x.recv|
            && r.temp == x.temp.(readSignal := x.temp.readSignal[p := 0])
            && r.msi == x.msi && r.pages == x.pages && r.pageSize == x.pageSize
  {
  }

  /** A receipt takes the struct over whole and moves one page's flags: a modified page is shared
      by a read request, and otherwise lost unless the request signal is some other value and
      nothing invalidates; a shared page is lost to an upgrade, a claim, no request or an
      invalidation; an invalid page is shared by a read request. */
  lemma ReceiptMoves(y: State, m: ProcInfo)
    requires Deliverable(y, m)
    requires y.msi[m.pageNum] in {Flags(true, false, false), Flags(false, true, false), Flags(false, false, true)}
    ensures var p := m.pageNum;
            var f, g := y.msi[p], Snoop(y, m).msi[p];
            var read, drop := m.readSignal[p], m.readSignal[p] == 0 || m.invalidateSignal[p] == 1;
            && Snoop(y, m).temp == m && OnlyPage(y, Snoop(y, m), p) && Snoop(y, m).pages == y.pages
            && (f.m ==> g == if read == 1 then Flags(false, true, false)
                             else if drop then Flags(false, false, true) else f)
            && (f.s ==> g == if m.busUpgr[p] == 1 || m.busRdx[p] == 1 || drop then Flags(false, false, true) else f)
            && (f.i ==> g == if read == 1 then Flags(false, true, false) else f)
  {
    hide CString, SnoopReply;
  }

  /** What goes back: for a read request of a modified page its string, of an invalid page one
      blank, and nothing else ever. */
  lemma ReceiptAnswers(y: State, m: ProcInfo)
    requires Deliverable(y, m)
    requires y.msi[m.pageNum] in {Flags(true, false, false), Flags(false, true, false), Flags(false, false, true)}
    ensures var p := m.pageNum;
            var asked, f := m.readSignal[p] == 1, y.msi[p];
            && (asked && f.m && CString(y.pages[p]) != "" ==> SnoopReply(y, m) == [CString(y.pages[p])])
            && (asked && f.m && CString(y.pages[p]) == "" ==> SnoopReply(y, m) == [])
            && (asked && f.i ==> SnoopReply(y, m) == [" "])
            && (!asked || f.s ==> SnoopReply(y, m) == [])
  {
    hide CString;
  }
}
