/** One machine of the two-machine page-coherence protocol, as a value: the flags of every
    page, the page bytes, the message struct that is copied wholesale over the socket, and
    the buffer a reply is read into.  The functions here are what the in-place code of
    `CoherenceMachine` is proved to compute; what they promise is proved in
    `CoherenceProofs` and `CoherencePipeline`. */
module Coherence {
  const MAX_SIZE := 4096
  const NUL: char := '\0'
  const NO_DATA := " "

  datatype Flags = Flags(m: bool, s: bool, i: bool)

  const MODIFIED := Flags(true, false, false)
  const SHARED := Flags(false, true, false)
  const INVALID := Flags(false, false, true)

  /** The struct that travels.  Signals start with any value: one side sends an uninitialised
      stack copy. */
  datatype ProcInfo = ProcInfo(
    pageNum: int,
    pageCount: nat,
    accessPage: int,
    readSignal: seq<int>,
    pagefaultSignal: seq<int>,
    busRdx: seq<int>,
    invalidateSignal: seq<int>,
    busUpgr: seq<int>)
  {
    predicate WellFormed() {
      && pageCount <= MAX_SIZE
      && |readSignal| == |pagefaultSignal| == |busRdx| == MAX_SIZE
      && |invalidateSignal| == |busUpgr| == MAX_SIZE
    }
  }

  datatype State = State(
    pageSize: nat,
    msi: seq<Flags>,
    pages: seq<string>,
    temp: ProcInfo,
    recv: string)
  {
    predicate WellFormed() {
      && temp.WellFormed()
      && 1 <= pageSize
      && |msi| == MAX_SIZE
      && |pages| == temp.pageCount
      && |recv| == pageSize
      && forall p :: 0 <= p < |pages| ==> |pages[p]| == pageSize
    }

    /** Every page ends in NUL, so that a C string read from a page stays inside it. */
    predicate Terminated() {
      forall p :: 0 <= p < |pages| ==> |pages[p]| >= 1 && pages[p][|pages[p]| - 1] == NUL
    }
  }

  /** One pass through the menu for one page.  The bulk commands are loops of these. */
  datatype Op = ReadPage(page: nat) | WritePage(page: nat, message: string) | ViewPages(pageNum: int)
  {
    predicate Fits(pageCount: nat, pageSize: nat) {
      match this
      case ReadPage(p) => p < pageCount
      case WritePage(p, msg) => p < pageCount && Message(msg, pageSize)
      case ViewPages(_) => true
    }
  }

  /** What `scanf` can leave in the message buffer, when the line fits in a page. */
  predicate Message(msg: string, pageSize: nat) {
    0 < |msg| < pageSize && NUL !in msg
  }

  /** Where a page starts in the mapping. */
  function Offset(p: nat, pageSize: nat): nat {
    p * pageSize
  }

  function Zeros(n: nat): (z: string)
    ensures |z| == n && forall i :: 0 <= i < n ==> z[i] == NUL
  {
    seq(n, i => NUL)
  }

  /** The bytes before the first NUL, or all of them when there is none. */
  function CString(s: string): (r: string)
    ensures r <= s && NUL !in r
    ensures |r| < |s| ==> s[|r|] == NUL
  {
    if s == "" || s[0] == NUL then ""
    else
      assert forall k :: 0 < k < |s| ==> s[k] == s[1..][k - 1];
      [s[0]] + CString(s[1..])
  }

  /** `memcpy` of a message over the start of a page. */
  function Overwrite(page: string, msg: string): (r: string)
    requires |msg| <= |page|
    ensures |r| == |page| && msg <= r && r[|msg|..] == page[|msg|..]
  {
    msg + page[|msg|..]
  }

  // ----- the issuing side

  predicate IsBusRead(x: State, op: Op)
    requires x.WellFormed() && op.Fits(x.temp.pageCount, x.pageSize)
  {
    op.ReadPage? && x.msi[op.page].i
  }

  predicate Sends(x: State, op: Op)
    requires x.WellFormed() && op.Fits(x.temp.pageCount, x.pageSize)
  {
    IsBusRead(x, op) || op.WritePage?
  }

  /** The machine when it has sent, or has finished when nothing is sent.  The message that
      goes out is the `temp` of the result. */
  function Issue(x: State, op: Op): (r: State)
    requires x.WellFormed() && op.Fits(x.temp.pageCount, x.pageSize)
  {
    match op
    case ViewPages(k) => x.(temp := x.temp.(pageNum := k))
    case ReadPage(p) =>
      var t := x.temp.(pageNum := p, accessPage := Offset(p, x.pageSize));
      if x.msi[p].i then
        x.(temp := t.(readSignal := t.readSignal[p := 1],
                      pagefaultSignal := t.pagefaultSignal[p := 1],
                      invalidateSignal := t.invalidateSignal[p := 0]),
           msi := x.msi[p := SHARED],
           pages := x.pages[p := Zeros(x.pageSize)])
      else
        x.(temp := t)
    case WritePage(p, msg) =>
      var t := x.temp.(pageNum := p, accessPage := Offset(p, x.pageSize));
      var t' :=
        if x.msi[p].i then
          t.(pagefaultSignal := t.pagefaultSignal[p := 1],
             busRdx := t.busRdx[p := 1],
             invalidateSignal := t.invalidateSignal[p := 1],
             readSignal := t.readSignal[p := 0])
        else if x.msi[p].s then
          t.(busUpgr := t.busUpgr[p := 1],
             invalidateSignal := t.invalidateSignal[p := 1],
             readSignal := t.readSignal[p := 0])
        else t;
      x.(temp := t',
         msi := x.msi[p := MODIFIED],
         pages := x.pages[p := Overwrite(x.pages[p], msg)])
  }

  /** A blocked read gets its reply: the buffer keeps its stale tail, the signal is dropped. */
  function Complete(x: State, p: nat, reply: string): (r: State)
    requires x.WellFormed() && p < x.temp.pageCount && |reply| <= x.pageSize
  {
    x.(recv := Overwrite(x.recv, reply), temp := x.temp.(readSignal := x.temp.readSignal[p := 0]))
  }

  // ----- the snooping side

  predicate Deliverable(y: State, m: ProcInfo) {
    && y.WellFormed()
    && m.WellFormed()
    && m.pageCount == y.temp.pageCount
    && 0 <= m.pageNum < m.pageCount
    && m.accessPage == Offset(m.pageNum, y.pageSize)
  }

  /** The four-way cascade on one page's flags. */
  function SnoopFlags(f: Flags, read: int, rdx: int, upgr: int, inv: int): Flags {
    if f.m && read == 1 then SHARED
    else if f.s && (upgr == 1 || rdx == 1) then INVALID
    else if f.i && read == 1 then SHARED
    else if (f.m || f.s) && (read == 0 || inv == 1) then INVALID
    else f
  }

  function Snoop(y: State, m: ProcInfo): (r: State)
    requires Deliverable(y, m)
    ensures r.WellFormed() && r.pages == y.pages
  {
    var p := m.pageNum;
    y.(temp := m,
       msi := y.msi[p := SnoopFlags(y.msi[p], m.readSignal[p], m.busRdx[p], m.busUpgr[p], m.invalidateSignal[p])])
  }

  /** What a send of a string puts on the wire: nothing at all when its length is zero. */
  function Transmitted(payload: string): seq<string> {
    if payload == "" then [] else [payload]
  }

  /** What the snooping machine sends back: at most one reply, and never an empty one. */
  function SnoopReply(y: State, m: ProcInfo): (r: seq<string>)
    requires Deliverable(y, m)
    ensures |r| <= 1 && forall k :: 0 <= k < |r| ==> r[k] != ""
  {
    var p := m.pageNum;
    var f := y.msi[p];
    if f.m && m.readSignal[p] == 1 then Transmitted(CString(y.pages[p]))
    else if f.s && (m.busUpgr[p] == 1 || m.busRdx[p] == 1) then []
    else if f.i && m.readSignal[p] == 1 then [NO_DATA]
    else []
  }
}
