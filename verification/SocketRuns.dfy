/** Conservation over whole runs of socket, socketpair, accept and close, whatever fails. */
module SocketRuns {
  import opened Wrappers
  import opened SocketLayer

  datatype Call =
    | Socket(family: int, type_: int, socketEnv: SocketEnv)
    | Socketpair(family: int, type_: int, pairEnv: PairEnv)
    | Accept(fd: int, flags: int, acceptEnv: AcceptEnv)
    | Close(fd: int)

  /** The allocators' side of the bargain. */
  predicate Possible(t: Tables, c: Call) {
    match c
    case Socket(_, _, e) => FreshSock(t, e.create.inode) && FreshFd(t, e.fd) && FreshFile(t, e.file)
    case Socketpair(_, _, e) => FreshPair(t, e)
    case Accept(_, _, e) => FreshSock(t, e.inode) && FreshFd(t, e.fd) && FreshFile(t, e.file)
    case Close(_) => true
  }

  function After(families: map<int, Module>, t: Tables, c: Call): Tables
    requires Linked(t)
  {
    match c
    case Socket(family, type_, e) =>
      if SocketError(families, family, type_, e) != 0 then t
      else WithSocket(t, e.fd.fd, e.file.file, e.create.inode.value, e.create.created.owner)
    case Socketpair(family, type_, e) =>
      if PairError(families, family, type_, e) != 0 then t
      else WithSocket(
             WithSocket(t, e.fd1.fd, e.file1.file, e.create1.inode.value, e.create1.created.owner),
             e.fd2.fd, e.file2.file, e.create2.inode.value, e.create2.created.owner)
    case Accept(fd, flags, e) =>
      if AcceptError(t, fd, flags, e) != 0 then t
      else WithSocket(t, e.fd.fd, e.file.file, e.inode.value, OwnerAt(t, fd))
    case Close(fd) => if CloseError(t, fd) != 0 then t else Closed(t, fd)
  }

  /** The kernel does what `After` says, one call at a time. */
  method Perform(k: Kernel, c: Call) returns (r: int)
    requires Linked(k.State()) && Possible(k.State(), c)
    modifies k
    ensures k.State() == After(k.families, old(k.State()), c)
  {
    match c {
      case Socket(family, type_, e) =>
        r := k.SysSocket(family, type_, e);
      case Socketpair(family, type_, e) =>
        var pair;
        r, pair := k.SysSocketpair(family, type_, e);
      case Accept(fd, flags, e) =>
        r := k.SysAccept4(fd, flags, e);
      case Close(fd) =>
        r := k.SysClose(fd);
    }
  }

  // ----- what is conserved

  function OwnedBy(socks: map<SockId, Sock>, m: Module): set<SockId> {
    set s | s in socks && socks[s].ops == Some(m)
  }

  /** Each module is referenced once for each live socket whose operations it owns, on top of
      the references held outside this layer. */
  ghost predicate Counted(t: Tables, outside: multiset<Module>) {
    forall m: Module :: t.refs[m] == outside[m] + |OwnedBy(t.socks, m)|
  }

  ghost predicate Conserved(t: Tables, outside: multiset<Module>) {
    Linked(t) && Counted(t, outside)
  }

  lemma AddHolds(t: Tables, fd: Fd, f: FileId, s: SockId, m: Module)
    requires FdsLinked(t) && FilesHeld(t) && fd !in t.fds && f !in t.files
    ensures FdsLinked(WithSocket(t, fd, f, s, m)) && FilesHeld(WithSocket(t, fd, f, s, m))
  {
    var t' := WithSocket(t, fd, f, s, m);
    assert t'.fds[fd] == Installed(f);
    forall g | g in t.files ensures Installed(g) in t'.fds.Values {
      var d :| d in t.fds && t.fds[d] == Installed(g);
      assert t'.fds[d] == Installed(g);
    }
  }

  lemma AddFilesLinked(t: Tables, fd: Fd, f: FileId, s: SockId, m: Module)
    requires FilesLinked(t) && f !in t.files && s !in t.socks
    ensures FilesLinked(WithSocket(t, fd, f, s, m))
  {
    var t' := WithSocket(t, fd, f, s, m);
    forall g | g in t'.files && t'.files[g].sock.Some?
      ensures t'.files[g].sock.value in t'.socks && t'.socks[t'.files[g].sock.value].file == Some(g)
    {
    }
  }

  lemma AddSockLinked(t: Tables, fd: Fd, f: FileId, s: SockId, m: Module, r: SockId)
    requires f !in t.files && s !in t.socks && (r == s || (r in t.socks && SockLinked(t, r)))
    ensures SockLinked(WithSocket(t, fd, f, s, m), r)
  {
  }

  lemma AddLinks(t: Tables, fd: Fd, f: FileId, s: SockId, m: Module)
    requires Linked(t) && fd !in t.fds && f !in t.files && s !in t.socks
    ensures Linked(WithSocket(t, fd, f, s, m))
  {
    hide FdsLinked, FilesHeld, FilesLinked, SockLinked;
    AddHolds(t, fd, f, s, m);
    AddFilesLinked(t, fd, f, s, m);
    forall r | r in WithSocket(t, fd, f, s, m).socks ensures SockLinked(WithSocket(t, fd, f, s, m), r) {
      AddSockLinked(t, fd, f, s, m, r);
    }
  }

  lemma OneMore(refs: multiset<Module>, m: Module, n: Module)
    ensures (refs + multiset{m})[n] == refs[n] + if n == m then 1 else 0
  {
  }

  lemma AddCounts(t: Tables, fd: Fd, f: FileId, s: SockId, m: Module, outside: multiset<Module>)
    requires Counted(t, outside) && s !in t.socks
    ensures Counted(WithSocket(t, fd, f, s, m), outside)
  {
    var socks := WithSocket(t, fd, f, s, m).socks;
    forall n: Module ensures (t.refs + multiset{m})[n] == outside[n] + |OwnedBy(socks, n)| {
      OneMore(t.refs, m, n);
      if n == m {
        assert OwnedBy(socks, n) == OwnedBy(t.socks, n) + {s};
      } else {
        assert OwnedBy(socks, n) == OwnedBy(t.socks, n);
      }
    }
  }

  lemma AddConserves(t: Tables, fd: Fd, f: FileId, s: SockId, m: Module, outside: multiset<Module>)
    requires Conserved(t, outside) && fd !in t.fds && f !in t.files && s !in t.socks
    ensures Conserved(WithSocket(t, fd, f, s, m), outside)
  {
    hide Linked, Counted;
    AddLinks(t, fd, f, s, m);
    AddCounts(t, fd, f, s, m, outside);
  }

  lemma CloseHolds(t: Tables, fd: Fd, t': Tables)
    requires FdsLinked(t) && FilesHeld(t) && fd in t.fds
    requires t'.fds == t.fds - {fd} && t'.files == t.files - {t.fds[fd].file}
    ensures FdsLinked(t') && FilesHeld(t')
  {
    forall g | g in t'.files ensures Installed(g) in t'.fds.Values {
      var d :| d in t.fds && t.fds[d] == Installed(g);
      assert t'.fds[d] == Installed(g);
    }
  }

  lemma TwoOf(ids: set<SockId>, a: SockId, b: SockId)
    requires a in ids && b in ids && a != b
    ensures |ids| >= 2
  {
    assert |{a, b}| == 2 && {a, b} <= ids;
    SubsetSize({a, b}, ids);
  }

  lemma {:induction false} SubsetSize(a: set<SockId>, b: set<SockId>)
    requires a <= b
    ensures |a| <= |b|
  {
    if a != {} {
      var x :| x in a;
      SubsetSize(a - {x}, b - {x});
    }
  }

  /** Closing one socket leaves the other live sockets their module references. */
  lemma OthersHold(t: Tables, gone: SockId, s: SockId, outside: multiset<Module>)
    requires Counted(t, outside) && s in t.socks && gone in t.socks && s != gone
    requires t.socks[s].ops.Some? && t.socks[gone].ops.Some?
    ensures t.socks[s].ops.value in t.refs - multiset{t.socks[gone].ops.value}
  {
    var m := t.socks[s].ops.value;
    assert s in OwnedBy(t.socks, m);
    if t.socks[gone].ops.value == m {
      TwoOf(OwnedBy(t.socks, m), s, gone);
    } else {
      assert |OwnedBy(t.socks, m)| >= 1;
    }
  }

  lemma CloseFilesLinked(t: Tables, fd: int)
    requires Linked(t) && CloseError(t, fd) == 0
    ensures FilesLinked(Closed(t, fd))
  {
    hide FilesHeld;
    var f, t' := t.fds[fd].file, Closed(t, fd);
    forall g | g in t'.files && t'.files[g].sock.Some?
      ensures t'.files[g].sock.value in t'.socks && t'.socks[t'.files[g].sock.value].file == Some(g)
    {
      assert g in t.files && g != f;
    }
  }

  lemma CloseSockLinked(t: Tables, fd: int, s: SockId, outside: multiset<Module>)
    requires Conserved(t, outside) && CloseError(t, fd) == 0 && s in Closed(t, fd).socks
    ensures SockLinked(Closed(t, fd), s)
  {
    hide FilesHeld;
    var f := t.fds[fd].file;
    assert SockLinked(t, s);
    assert t.socks[s].file.value != f;
    if t.files[f].sock.Some? {
      assert SockLinked(t, t.files[f].sock.value);
      OthersHold(t, t.files[f].sock.value, s, outside);
    }
  }

  lemma CloseLinks(t: Tables, fd: int, outside: multiset<Module>)
    requires Conserved(t, outside) && CloseError(t, fd) == 0
    ensures Linked(Closed(t, fd))
  {
    CloseHolds(t, fd, Closed(t, fd));
    CloseFilesLinked(t, fd);
    hide FdsLinked, FilesHeld, FilesLinked, SockLinked, Counted;
    forall s | s in Closed(t, fd).socks ensures SockLinked(Closed(t, fd), s) {
      CloseSockLinked(t, fd, s, outside);
    }
  }

  lemma CloseCounts(t: Tables, fd: int, outside: multiset<Module>)
    requires Conserved(t, outside) && CloseError(t, fd) == 0
    ensures Counted(Closed(t, fd), outside)
  {
    hide FilesHeld;
    var f, t' := t.fds[fd].file, Closed(t, fd);
    if t.files[f].sock.Some? {
      var s := t.files[f].sock.value;
      assert SockLinked(t, s);
      var m := t.socks[s].ops.value;
      hide FilesLinked, FdsLinked, Linked, SockLinked;
      forall n: Module ensures t'.refs[n] == outside[n] + |OwnedBy(t'.socks, n)| {
        assert OwnedBy(t'.socks, n) == OwnedBy(t.socks, n) - if n == m then {s} else {};
        assert n == m ==> s in OwnedBy(t.socks, n);
      }
    }
  }

  lemma CloseConserves(t: Tables, fd: int, outside: multiset<Module>)
    requires Conserved(t, outside) && CloseError(t, fd) == 0
    ensures Conserved(Closed(t, fd), outside)
  {
    CloseLinks(t, fd, outside);
    CloseCounts(t, fd, outside);
  }

  lemma CallConserves(families: map<int, Module>, t: Tables, c: Call, outside: multiset<Module>)
    requires Conserved(t, outside) && Possible(t, c)
    ensures Conserved(After(families, t, c), outside)
  {
    hide Linked, CreateBothError, CreateError;
    match c {
      case Socket(family, type_, e) =>
        if SocketError(families, family, type_, e) == 0 {
          AddConserves(t, e.fd.fd, e.file.file, e.create.inode.value, e.create.created.owner, outside);
        }
      case Socketpair(family, type_, e) =>
        if PairError(families, family, type_, e) == 0 {
          AddConserves(t, e.fd1.fd, e.file1.file, e.create1.inode.value, e.create1.created.owner, outside);
          AddConserves(WithSocket(t, e.fd1.fd, e.file1.file, e.create1.inode.value, e.create1.created.owner),
                       e.fd2.fd, e.file2.file, e.create2.inode.value, e.create2.created.owner, outside);
        }
      case Accept(fd, flags, e) =>
        if AcceptError(t, fd, flags, e) == 0 {
          AddConserves(t, e.fd.fd, e.file.file, e.inode.value, OwnerAt(t, fd), outside);
        }
      case Close(fd) =>
        if CloseError(t, fd) == 0 {
          CloseConserves(t, fd, outside);
        }
    }
  }

  /** A run whose allocators keep their side of the bargain at every call. */
  predicate PossibleRun(families: map<int, Module>, t: Tables, calls: seq<Call>)
    decreases |calls|
  {
    calls == [] ||
    (Linked(t) && Possible(t, calls[0]) && PossibleRun(families, After(families, t, calls[0]), calls[1..]))
  }

  function RunCalls(families: map<int, Module>, t: Tables, calls: seq<Call>): Tables
    requires PossibleRun(families, t, calls)
    decreases |calls|
  {
    if calls == [] then t else RunCalls(families, After(families, t, calls[0]), calls[1..])
  }

  /** Conservation: after any run, with any failures, no descriptor is left reserved, sockets
      and socket files are paired one to one, and no module reference is lost or left over. */
  lemma {:induction false} RunConserves(families: map<int, Module>, t: Tables, calls: seq<Call>,
                                        outside: multiset<Module>)
    requires Conserved(t, outside) && PossibleRun(families, t, calls)
    ensures Conserved(RunCalls(families, t, calls), outside)
    decreases |calls|
  {
    if calls != [] {
      CallConserves(families, t, calls[0], outside);
      RunConserves(families, After(families, t, calls[0]), calls[1..], outside);
    }
  }

  /** Nothing outlives its descriptors: a run from an empty table that ends with every
      descriptor closed ends exactly where it began. */
  lemma NothingLeaks(families: map<int, Module>, calls: seq<Call>, outside: multiset<Module>)
    requires PossibleRun(families, Tables(map[], map[], map[], outside), calls)
    requires RunCalls(families, Tables(map[], map[], map[], outside), calls).fds == map[]
    ensures RunCalls(families, Tables(map[], map[], map[], outside), calls) == Tables(map[], map[], map[], outside)
  {
    var start := Tables(map[], map[], map[], outside);
    forall m: Module ensures |OwnedBy(map[], m)| == 0 {
      assert OwnedBy(map[], m) == {};
    }
    RunConserves(families, start, calls, outside);
    NothingLeft(RunCalls(families, start, calls), outside);
  }

  lemma NothingLeft(end: Tables, outside: multiset<Module>)
    requires Conserved(end, outside) && end.fds == map[]
    ensures end == Tables(map[], map[], map[], outside)
  {
    assert forall f :: f in end.files ==> Installed(f) in end.fds.Values;
    assert end.files == map[];
    assert forall s :: s in end.socks ==> SockLinked(end, s);
    assert end.socks == map[];
    forall m: Module ensures end.refs[m] == outside[m] {
      assert OwnedBy(end.socks, m) == {};
    }
    assert end.refs == outside;
  }
}
