/** The read-all and write-all commands, as runs of one transaction per page. */
module CoherenceBulk {
  import opened Wrappers
  import opened Coherence
  import opened CoherenceBus
  import opened CoherenceProofs
  import opened CoherencePipeline

  function ReadAllOps(n: nat): (ops: seq<Op>)
    ensures |ops| == n && forall p :: 0 <= p < n ==> ops[p] == ReadPage(p)
  {
    seq(n, p requires 0 <= p < n => ReadPage(p))
  }

  function WriteAllOps(n: nat, msg: string): (ops: seq<Op>)
    ensures |ops| == n && forall p :: 0 <= p < n ==> ops[p] == WritePage(p, msg)
  {
    seq(n, p requires 0 <= p < n => WritePage(p, msg))
  }

  lemma ReadAllGrows(k: nat, pageCount: nat, pageSize: nat)
    requires k < pageCount
    ensures ReadAllOps(k + 1) == ReadAllOps(k) + [ReadPage(k)]
    ensures OpsFit(ReadAllOps(k), pageCount, pageSize) && OpsFit(ReadAllOps(k + 1), pageCount, pageSize)
    ensures OpsFit(ReadAllOps(k) + [ReadPage(k)], pageCount, pageSize)
    ensures ReadPage(k).Fits(pageCount, pageSize)
  {
  }

  /** How many messages a run of commands puts on the wire. */
  function Sent(l: Link, ops: seq<Op>): nat
    requires l.WellFormed() && OpsFit(ops, l.x.temp.pageCount, l.x.pageSize)
  {
    if ops == [] then 0
    else
      var n := |ops| - 1;
      var before := TransactRun(l, ops[..n]);
      Sent(l, ops[..n]) + if before.waiting.None? && Sends(before.x, ops[n]) then 1 else 0
  }

  function InvalidPages(msi: seq<Flags>, k: nat): nat
    requires k <= |msi|
  {
    if k == 0 then 0 else InvalidPages(msi, k - 1) + if msi[k - 1].i then 1 else 0
  }

  predicate Targets(ops: seq<Op>, k: nat) {
    k <= |ops| && forall p :: 0 <= p < k ==> !ops[p].ViewPages? && ops[p].page == p
  }

  lemma {:induction false} SpecOpsPagewise(specs: seq<PageSpec>, ops: seq<Op>)
    requires |ops| <= |specs| && Targets(ops, |ops|)
    ensures forall p :: 0 <= p < |specs| ==>
              SpecOps(specs, ops)[p] == if p < |ops| then SpecStep(specs[p], ops[p]) else specs[p]
  {
    if ops != [] {
      SpecOpsPagewise(specs, ops[..|ops| - 1]);
    }
  }

  lemma SendsAsSpec(x: State, y: State, p: nat, s: PageSpec)
    requires Agree(x, y) && p < x.temp.pageCount && PageRel(x, y, p, s)
    ensures Sends(x, ReadPage(p)) == x.msi[p].i == (s.mine == Invalid)
  {
  }

  lemma SentAppend(l: Link, ops: seq<Op>, op: Op, specs: seq<PageSpec>)
    requires l.WellFormed() && l.Quiet() && Rel(l.x, l.y, specs)
    requires OpsFit(ops + [op], l.x.temp.pageCount, l.x.pageSize)
    ensures OpsFit(ops, l.x.temp.pageCount, l.x.pageSize) && op.Fits(l.x.temp.pageCount, l.x.pageSize)
    ensures Sent(l, ops + [op]) == Sent(l, ops) + if Sends(TransactRun(l, ops).x, op) then 1 else 0
  {
    hide Transact, Issue, Sends;
    assert op == (ops + [op])[|ops|];
    assert forall k :: 0 <= k < |ops| ==> ops[k] == (ops + [op])[k];
    assert (ops + [op])[..|ops|] == ops;
    TransactRunSimulates(l, ops, specs);
  }

  lemma {:induction false} ReadAllSends(l: Link, k: nat, specs: seq<PageSpec>)
    requires l.WellFormed() && l.Quiet() && Rel(l.x, l.y, specs) && k <= l.x.temp.pageCount
    ensures OpsFit(ReadAllOps(k), l.x.temp.pageCount, l.x.pageSize)
    ensures Sent(l, ReadAllOps(k)) == InvalidPages(l.x.msi, k)
  {
    hide Transact, Issue, Sends, PageRel;
    if k > 0 {
      var ops, last := ReadAllOps(k - 1), ReadPage(k - 1);
      assert ReadAllOps(k) == ops + [last];
      ReadAllSends(l, k - 1, specs);
      SentAppend(l, ops, last, specs);
      TransactRunSimulates(l, ops, specs);
      SpecOpsPagewise(specs, ops);
      var mid := TransactRun(l, ops);
      SendsAsSpec(l.x, l.y, k - 1, specs[k - 1]);
      SendsAsSpec(mid.x, mid.y, k - 1, SpecOps(specs, ops)[k - 1]);
    }
  }

  lemma {:induction false} NoneInvalid(msi: seq<Flags>, k: nat)
    requires k <= |msi| && forall p :: 0 <= p < k ==> !msi[p].i
    ensures InvalidPages(msi, k) == 0
  {
    if k > 0 {
      NoneInvalid(msi, k - 1);
    }
  }

  lemma ReadPageFlags(x: State, y: State, x': State, y': State, p: nat, s: PageSpec)
    requires Agree(x, y) && Agree(x', y') && p < x.temp.pageCount == x'.temp.pageCount
    requires PageRel(x, y, p, s) && PageRel(x', y', p, SpecStep(s, ReadPage(p)))
    ensures x'.msi[p] == if x.msi[p].i then SHARED else x.msi[p]
    ensures y'.msi[p] == if x.msi[p].i then SHARED else y.msi[p]
    ensures !x'.msi[p].i
  {
  }

  /** Read-all sends one message for each page invalid here, leaves none invalid, and a second
      read-all straight after it sends nothing. */
  lemma ReadAllOnce(l: Link, specs: seq<PageSpec>)
    requires l.WellFormed() && l.Quiet() && Rel(l.x, l.y, specs)
    ensures var n := l.x.temp.pageCount;
            var ops := ReadAllOps(n);
            && OpsFit(ops, n, l.x.pageSize)
            && Sent(l, ops) == InvalidPages(l.x.msi, n)
            && var r := TransactRun(l, ops);
            && r.Quiet()
            && (forall p :: 0 <= p < n ==> r.x.msi[p] == if l.x.msi[p].i then SHARED else l.x.msi[p])
            && (forall p :: 0 <= p < n ==> r.y.msi[p] == if l.x.msi[p].i then SHARED else l.y.msi[p])
            && (forall p :: 0 <= p < n ==> !r.x.msi[p].i)
            && Sent(r, ops) == 0
  {
    hide Transact, Issue, Sends, PageRel;
    var n := l.x.temp.pageCount;
    var ops := ReadAllOps(n);
    ReadAllSends(l, n, specs);
    TransactRunSimulates(l, ops, specs);
    SpecOpsPagewise(specs, ops);
    var r := TransactRun(l, ops);
    var specs' := SpecOps(specs, ops);
    forall p | 0 <= p < n
      ensures r.x.msi[p] == if l.x.msi[p].i then SHARED else l.x.msi[p]
      ensures r.y.msi[p] == if l.x.msi[p].i then SHARED else l.y.msi[p]
      ensures !r.x.msi[p].i
    {
      ReadPageFlags(l.x, l.y, r.x, r.y, p, specs[p]);
    }
    ReadAllSends(r, n, specs');
    NoneInvalid(r.x.msi, n);
  }

  lemma ModifiedPage(x: State, y: State, p: nat, s: PageSpec, msg: string)
    requires Agree(x, y) && p < x.temp.pageCount && PageRel(x, y, p, s)
    requires s.mine == Modified && s.last == Some(msg)
    ensures x.msi[p] == MODIFIED && y.msi[p] == INVALID && msg <= x.pages[p]
  {
  }

  /** Write-all leaves every page modified here and invalid at the peer, whatever it was, and
      every copy here starts with the message. */
  lemma WriteAllTakesEverything(l: Link, msg: string, specs: seq<PageSpec>)
    requires l.WellFormed() && l.Quiet() && Rel(l.x, l.y, specs) && Message(msg, l.x.pageSize)
    ensures var n := l.x.temp.pageCount;
            var ops := WriteAllOps(n, msg);
            && OpsFit(ops, n, l.x.pageSize)
            && var r := TransactRun(l, ops);
            && r.Quiet() && Agree(r.x, r.y) && SameShape(l, r)
            && forall p :: 0 <= p < n ==>
                 r.x.msi[p] == MODIFIED && r.y.msi[p] == INVALID && msg <= r.x.pages[p]
  {
    hide Transact, Issue, Sends, PageRel;
    var n := l.x.temp.pageCount;
    var ops := WriteAllOps(n, msg);
    TransactRunSimulates(l, ops, specs);
    SpecOpsPagewise(specs, ops);
    WriteAllFlags(TransactRun(l, ops), SpecOps(specs, ops), msg);
  }

  lemma WriteAllFlags(r: Link, specs: seq<PageSpec>, msg: string)
    requires Rel(r.x, r.y, specs)
    requires forall p :: 0 <= p < |specs| ==> specs[p].mine == Modified && specs[p].last == Some(msg)
    ensures forall p :: 0 <= p < r.x.temp.pageCount ==>
              r.x.msi[p] == MODIFIED && r.y.msi[p] == INVALID && msg <= r.x.pages[p]
  {
    forall p | 0 <= p < |specs|
      ensures r.x.msi[p] == MODIFIED && r.y.msi[p] == INVALID && msg <= r.x.pages[p]
    {
      ModifiedPage(r.x, r.y, p, specs[p], msg);
    }
  }
}
