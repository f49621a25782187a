/** The socket layer's ownership of descriptors, files, inodes and module references.  Every
    answer of code outside this layer (allocators, security hooks, protocol families) is a
    parameter, so each failure path can be taken.  A call either fails and leaves all four
    tables exactly as it found them, or adds exactly the sockets it returns. */
module SocketLayer {
  import opened Errno
  import opened Wrappers

  const NPROTO := 45
  const SOCK_MAX := 11
  const SOCK_PACKET := 10
  const PF_INET := 2
  const PF_PACKET := 17
  const SOCK_TYPE_COUNT := 16
  const SOCK_NONBLOCK := 0x800
  const SOCK_CLOEXEC := 0x80000

  /** What a hook may answer: zero to go on, a negative error to refuse. */
  type Verdict = v: int | v <= 0
  type Failure = v: int | v < 0 witness -1

  type Fd = nat
  type FileId = nat
  type SockId = nat
  type Module = nat

  datatype Slot = Reserved | Installed(file: FileId)
  datatype File = File(refs: nat, sock: Option<SockId>)
  datatype Sock = Sock(ops: Option<Module>, file: Option<FileId>, inodeRefs: nat)

  /** `refs` holds each module once for every reference counted on it. */
  datatype Tables = Tables(
    fds: map<Fd, Slot>,
    files: map<FileId, File>,
    socks: map<SockId, Sock>,
    refs: multiset<Module>)

  // ----- what the environment answers

  datatype Created = MadeOps(owner: Module) | CreateFailed(err: Failure, leftover: Option<Module>)

  datatype CreateEnv = CreateEnv(
    mayCreate: Verdict,
    inode: Option<SockId>,
    familyHeld: bool,
    created: Created,
    opsHeld: bool,
    postCreate: Verdict)

  datatype FdEnv = GotFd(fd: Fd) | NoFd(err: Failure)
  datatype FileEnv = GotFile(file: FileId) | NoFile(err: Failure) | NoDentry

  /** Allocators hand out what is not in use. */
  predicate FreshSock(t: Tables, inode: Option<SockId>) { inode.Some? ==> inode.value !in t.socks }
  predicate FreshFd(t: Tables, e: FdEnv) { e.GotFd? ==> e.fd !in t.fds }
  predicate FreshFile(t: Tables, e: FileEnv) { e.GotFile? ==> e.file !in t.files }

  // ----- what the calls do to the tables

  function WithSocket(t: Tables, fd: Fd, f: FileId, s: SockId, m: Module): Tables {
    Tables(t.fds[fd := Installed(f)],
           t.files[f := File(1, Some(s))],
           t.socks[s := Sock(Some(m), Some(f), 1)],
           t.refs + multiset{m})
  }

  function FileError(e: FileEnv): Verdict {
    match e
    case GotFile(_) => 0
    case NoFile(err) => err
    case NoDentry => ENOMEM
  }

  /** The type argument carries flag bits above its low four; only two of them are allowed. */
  predicate FlagsAllowed(flags: int) {
    flags in {0, SOCK_NONBLOCK, SOCK_CLOEXEC, SOCK_NONBLOCK + SOCK_CLOEXEC}
  }

  function FlagBits(type_: int): int { type_ - type_ % SOCK_TYPE_COUNT }
  function TypeBits(type_: int): int { type_ % SOCK_TYPE_COUNT }

  function Family(family: int, type_: int): int {
    if family == PF_INET && type_ == SOCK_PACKET then PF_PACKET else family
  }

  /** The first obstacle `__sock_create` meets, or 0. */
  function CreateError(families: map<int, Module>, family: int, type_: int, e: CreateEnv): (r: Verdict)
    ensures r == 0 ==> e.inode.Some? && e.created.MadeOps?
  {
    if !(0 <= family < NPROTO) then EAFNOSUPPORT
    else if !(0 <= type_ < SOCK_MAX) then EINVAL
    else if e.mayCreate != 0 then e.mayCreate
    else if e.inode.None? then ENFILE
    else SetUpError(families, Family(family, type_), e)
  }

  function SetUpError(families: map<int, Module>, pf: int, e: CreateEnv): Verdict {
    if pf !in families || !e.familyHeld then EAFNOSUPPORT
    else if e.created.CreateFailed? then e.created.err
    else if !e.opsHeld then EAFNOSUPPORT
    else e.postCreate
  }

  /** Dropping the last reference to an inode frees the socket in it. */
  function IputSocks(socks: map<SockId, Sock>, s: SockId): map<SockId, Sock>
    requires s in socks
  {
    var sock := socks[s];
    if sock.inodeRefs <= 1 then socks - {s} else socks[s := sock.(inodeRefs := sock.inodeRefs - 1)]
  }

  function Released(t: Tables, s: SockId): Tables
    requires s in t.socks
  {
    var sock := t.socks[s];
    var refs := if sock.ops.Some? then t.refs - multiset{sock.ops.value} else t.refs;
    var bare := t.socks[s := Sock(None, None, sock.inodeRefs)];
    t.(refs := refs, socks := if sock.file.None? then IputSocks(bare, s) else bare)
  }

  /** A socket with no file yet, and the module reference it owns. */
  function WithBareSocket(t: Tables, s: SockId, ops: Option<Module>): Tables {
    t.(socks := t.socks[s := Sock(ops, None, 1)],
       refs := if ops.Some? then t.refs + multiset{ops.value} else t.refs)
  }

  lemma SetTwice(socks: map<SockId, Sock>, s: SockId, a: Sock, b: Sock)
    ensures socks[s := a][s := b] == socks[s := b]
  {
  }

  /** Releasing a socket that never got a file gives back all it took. */
  lemma ReleaseUndoes(t: Tables, s: SockId, ops: Option<Module>)
    requires s !in t.socks
    ensures Released(WithBareSocket(t, s, ops), s) == t
  {
    assert Released(WithBareSocket(t, s, ops), s).socks == t.socks;
  }

  /** A socket whose file exists but is installed nowhere yet. */
  function WithFiledSocket(t: Tables, f: FileId, s: SockId, m: Module): Tables {
    t.(files := t.files[f := File(1, Some(s))],
       socks := t.socks[s := Sock(Some(m), Some(f), 1)],
       refs := t.refs + multiset{m})
  }

  function Unfiled(t: Tables, f: FileId, s: SockId, m: Module): Tables {
    t.(files := t.files - {f}, socks := t.socks - {s}, refs := t.refs - multiset{m})
  }

  lemma UnfileUndoes(t: Tables, f: FileId, s: SockId, m: Module)
    requires f !in t.files && s !in t.socks
    ensures Unfiled(WithFiledSocket(t, f, s, m), f, s, m) == t
  {
    var u := Unfiled(WithFiledSocket(t, f, s, m), f, s, m);
    assert u.files == t.files && u.socks == t.socks && u.refs == t.refs;
  }

  /** The first of two new sockets can be released before the second. */
  lemma ReleaseFirst(t: Tables, s1: SockId, m1: Module, s2: SockId, m2: Module)
    requires s1 !in t.socks && s2 !in t.socks && s1 != s2
    ensures WithBareSocket(WithBareSocket(t, s1, Some(m1)), s2, Some(m2))
            == WithBareSocket(WithBareSocket(t, s2, Some(m2)), s1, Some(m1))
    ensures Released(WithBareSocket(WithBareSocket(t, s1, Some(m1)), s2, Some(m2)), s1)
            == WithBareSocket(t, s2, Some(m2))
  {
    assert t.socks[s1 := Sock(Some(m1), None, 1)][s2 := Sock(Some(m2), None, 1)]
        == t.socks[s2 := Sock(Some(m2), None, 1)][s1 := Sock(Some(m1), None, 1)];
    ReleaseUndoes(WithBareSocket(t, s2, Some(m2)), s1, Some(m1));
  }

  /** Giving the first its file commutes with the second being there. */
  lemma FileFirst(t: Tables, f: FileId, s1: SockId, m1: Module, s2: SockId, m2: Module)
    requires s1 != s2
    ensures var two := WithBareSocket(WithBareSocket(t, s1, Some(m1)), s2, Some(m2));
            two.(files := two.files[f := File(1, Some(s1))],
                 socks := two.socks[s1 := two.socks[s1].(file := Some(f))])
            == WithBareSocket(WithFiledSocket(t, f, s1, m1), s2, Some(m2))
  {
    assert t.socks[s1 := Sock(Some(m1), None, 1)][s2 := Sock(Some(m2), None, 1)][s1 := Sock(Some(m1), Some(f), 1)]
        == t.socks[s1 := Sock(Some(m1), Some(f), 1)][s2 := Sock(Some(m2), None, 1)];
  }

  lemma FileBare(t: Tables, f: FileId, s: SockId, m: Module)
    ensures var one := WithBareSocket(t, s, Some(m));
            one.(files := one.files[f := File(1, Some(s))],
                 socks := one.socks[s := one.socks[s].(file := Some(f))])
            == WithFiledSocket(t, f, s, m)
  {
    SetTwice(t.socks, s, Sock(Some(m), None, 1), Sock(Some(m), Some(f), 1));
  }

  lemma PairInstalled(t: Tables, fd1: Fd, f1: FileId, s1: SockId, m1: Module,
                      fd2: Fd, f2: FileId, s2: SockId, m2: Module)
    requires fd1 != fd2
    ensures WithFiledSocket(WithFiledSocket(t.(fds := t.fds[fd1 := Reserved][fd2 := Reserved]), f1, s1, m1), f2, s2, m2)
            .(fds := t.fds[fd1 := Reserved][fd2 := Reserved][fd1 := Installed(f1)][fd2 := Installed(f2)])
            == WithSocket(WithSocket(t, fd1, f1, s1, m1), fd2, f2, s2, m2)
  {
    assert t.fds[fd1 := Reserved][fd2 := Reserved][fd1 := Installed(f1)][fd2 := Installed(f2)]
        == t.fds[fd1 := Installed(f1)][fd2 := Installed(f2)];
  }

  // ----- the calls, as their callers see them

  datatype SocketEnv = SocketEnv(create: CreateEnv, fd: FdEnv, file: FileEnv)

  function MapError(fd: FdEnv, file: FileEnv): Verdict {
    if fd.NoFd? then fd.err else FileError(file)
  }

  function SocketError(families: map<int, Module>, family: int, type_: int, e: SocketEnv): Verdict {
    if !FlagsAllowed(FlagBits(type_)) then EINVAL
    else if CreateError(families, family, TypeBits(type_), e.create) != 0 then
      CreateError(families, family, TypeBits(type_), e.create)
    else MapError(e.fd, e.file)
  }

  datatype PairEnv = PairEnv(
    fd1: FdEnv, fd2: FdEnv, put1: Verdict, put2: Verdict,
    create1: CreateEnv, create2: CreateEnv, mayPair: Verdict, paired: Verdict,
    file1: FileEnv, file2: FileEnv)

  predicate FreshSocks(t: Tables, e: PairEnv) {
    && FreshSock(t, e.create1.inode) && FreshSock(t, e.create2.inode)
    && (e.create1.inode.Some? ==> e.create1.inode != e.create2.inode)
  }

  predicate FreshPair(t: Tables, e: PairEnv) {
    && FreshFd(t, e.fd1) && FreshFd(t, e.fd2) && (e.fd1.GotFd? && e.fd2.GotFd? ==> e.fd1.fd != e.fd2.fd)
    && FreshSocks(t, e)
    && FreshFile(t, e.file1) && FreshFile(t, e.file2)
    && (e.file1.GotFile? && e.file2.GotFile? ==> e.file1.file != e.file2.file)
  }

  function CreateBothError(families: map<int, Module>, family: int, type_: int, e: PairEnv): (r: Verdict)
    ensures r == 0 ==> e.create1.inode.Some? && e.create1.created.MadeOps?
    ensures r == 0 ==> e.create2.inode.Some? && e.create2.created.MadeOps?
  {
    if CreateError(families, family, type_, e.create1) != 0 then CreateError(families, family, type_, e.create1)
    else if CreateError(families, family, type_, e.create2) != 0 then CreateError(families, family, type_, e.create2)
    else if e.mayPair != 0 then e.mayPair
    else e.paired
  }

  function PairError(families: map<int, Module>, family: int, type_: int, e: PairEnv): Verdict {
    if !FlagsAllowed(FlagBits(type_)) then EINVAL
    else if e.fd1.NoFd? then e.fd1.err
    else if e.fd2.NoFd? then e.fd2.err
    else MakePairError(families, family, TypeBits(type_), e)
  }

  function MakePairError(families: map<int, Module>, family: int, type_: int, e: PairEnv): (r: Verdict)
    ensures r == 0 ==> e.create1.inode.Some? && e.create1.created.MadeOps? && e.file1.GotFile?
    ensures r == 0 ==> e.create2.inode.Some? && e.create2.created.MadeOps? && e.file2.GotFile?
  {
    if e.put1 != 0 then e.put1
    else if e.put2 != 0 then e.put2
    else if CreateBothError(families, family, type_, e) != 0 then CreateBothError(families, family, type_, e)
    else if FileError(e.file1) != 0 then FileError(e.file1)
    else FileError(e.file2)
  }

  datatype AcceptEnv = AcceptEnv(
    shared: bool, inode: Option<SockId>, fd: FdEnv, file: FileEnv,
    mayAccept: Verdict, accepted: Verdict, wantName: bool, nameLen: int, copyOut: Verdict)

  function NameError(e: AcceptEnv): Verdict {
    if !e.wantName then 0 else if e.nameLen < 0 then ECONNABORTED else e.copyOut
  }

  function AcceptOnError(e: AcceptEnv): (r: Verdict)
    ensures r == 0 ==> e.inode.Some? && e.fd.GotFd? && e.file.GotFile?
  {
    if e.inode.None? then ENFILE
    else if MapError(e.fd, e.file) != 0 then MapError(e.fd, e.file)
    else if e.mayAccept != 0 then e.mayAccept
    else if e.accepted != 0 then e.accepted
    else NameError(e)
  }

  function LookupError(t: Tables, fd: int): Verdict {
    if fd < 0 || fd !in t.fds || t.fds[fd] == Reserved || t.fds[fd].file !in t.files then EBADF
    else if t.files[t.fds[fd].file].sock.None? then ENOTSOCK
    else 0
  }

  function AcceptError(t: Tables, fd: int, flags: int, e: AcceptEnv): Verdict {
    if !FlagsAllowed(flags) then EINVAL
    else if LookupError(t, fd) != 0 then LookupError(t, fd)
    else AcceptOnError(e)
  }

  /** Each descriptor is installed on a file of its own. */
  predicate FdsLinked(t: Tables) {
    && (forall d :: d in t.fds ==> t.fds[d].Installed? && t.fds[d].file in t.files)
    && (forall d, d' :: d in t.fds && d' in t.fds && t.fds[d] == t.fds[d'] ==> d == d')
  }

  /** Each file is held once, by a descriptor. */
  predicate FilesHeld(t: Tables) {
    forall f :: f in t.files ==> t.files[f].refs == 1 && Installed(f) in t.fds.Values
  }

  /** The socket of a socket file is live and knows the file. */
  predicate FilesLinked(t: Tables) {
    forall f :: f in t.files && t.files[f].sock.Some? ==>
      t.files[f].sock.value in t.socks && t.socks[t.files[f].sock.value].file == Some(f)
  }

  predicate SockLinked(t: Tables, s: SockId)
    requires s in t.socks
  {
    var sock := t.socks[s];
    && sock.file.Some? && sock.file.value in t.files && t.files[sock.file.value].sock == Some(s)
    && sock.inodeRefs == 1
    && sock.ops.Some? && sock.ops.value in t.refs
  }

  /** The links every call relies on and leaves whole: descriptors and files pair off, sockets
      and socket files pair off, and each live socket holds its module. */
  predicate Linked(t: Tables) {
    && FdsLinked(t) && FilesHeld(t) && FilesLinked(t)
    && forall s :: s in t.socks ==> SockLinked(t, s)
  }

  /** The module whose operations the socket at `fd` uses. */
  function OwnerAt(t: Tables, fd: int): Module
    requires Linked(t) && LookupError(t, fd) == 0
  {
    t.socks[t.files[t.fds[fd].file].sock.value].ops.value
  }

  function CloseError(t: Tables, fd: int): Verdict {
    if fd < 0 || fd !in t.fds || t.fds[fd] == Reserved then EBADF else 0
  }

  function Closed(t: Tables, fd: int): Tables
    requires Linked(t) && CloseError(t, fd) == 0
  {
    var f := t.fds[fd].file;
    if t.files[f].sock.None? then
      t.(fds := t.fds - {fd}, files := t.files - {f})
    else
      var s := t.files[f].sock.value;
      Tables(t.fds - {fd}, t.files - {f}, t.socks - {s}, t.refs - multiset{t.socks[s].ops.value})
  }

  class Kernel {
    const families: map<int, Module>
    var fds: map<Fd, Slot>
    var files: map<FileId, File>
    var socks: map<SockId, Sock>
    var refs: multiset<Module>

    ghost function State(): Tables
      reads this
    {
      Tables(fds, files, socks, refs)
    }

    constructor (families: map<int, Module>, held: multiset<Module>)
      ensures State() == Tables(map[], map[], map[], held) && this.families == families
    {
      this.families := families;
      fds, files, socks, refs := map[], map[], map[], held;
    }

    // ----- the pieces

    method SockAlloc(inode: Option<SockId>) returns (sock: Option<SockId>)
      modifies this`socks
      ensures sock == inode
      ensures socks == if inode.Some? then old(socks)[inode.value := Sock(None, None, 1)] else old(socks)
    {
      if inode.Some? {
        socks := socks[inode.value := Sock(None, None, 1)];
      }
      sock := inode;
    }

    method SetOps(s: SockId, ops: Option<Module>)
      requires s in socks
      modifies this`socks
      ensures socks == old(socks)[s := old(socks)[s].(ops := ops)]
    {
      socks := socks[s := socks[s].(ops := ops)];
    }

    method ModuleGet(m: Module)
      modifies this`refs
      ensures refs == old(refs) + multiset{m}
    {
      refs := refs + multiset{m};
    }

    method ModulePut(m: Module)
      requires m in refs
      modifies this`refs
      ensures refs == old(refs) - multiset{m}
    {
      refs := refs - multiset{m};
    }

    /** Gives a borrowed reference back. */
    method ModulePutBack(m: Module, ghost before: multiset<Module>)
      requires refs == before + multiset{m}
      modifies this`refs
      ensures refs == before
    {
      ModulePut(m);
    }

    /** Takes a reference on one module, then gives a borrowed one back. */
    method ModuleSwap(borrowed: Module, kept: Module, ghost before: multiset<Module>)
      requires refs == before + multiset{borrowed}
      modifies this`refs
      ensures refs == before + multiset{kept}
    {
      ModuleGet(kept);
      ModulePut(borrowed);
    }

    method Ihold(s: SockId)
      requires s in socks
      modifies this`socks
      ensures socks == old(socks)[s := old(socks)[s].(inodeRefs := old(socks)[s].inodeRefs + 1)]
    {
      socks := socks[s := socks[s].(inodeRefs := socks[s].inodeRefs + 1)];
    }

    method Iput(s: SockId)
      requires s in socks && socks[s].inodeRefs >= 1
      modifies this`socks
      ensures socks == IputSocks(old(socks), s)
    {
      if socks[s].inodeRefs == 1 {
        socks := socks - {s};
      } else {
        socks := socks[s := socks[s].(inodeRefs := socks[s].inodeRefs - 1)];
      }
    }

    /** `__sock_release`: the inode goes with the socket only when no file holds it. */
    method SockRelease(s: SockId)
      requires s in socks && socks[s].inodeRefs >= 1
      requires socks[s].ops.Some? ==> socks[s].ops.value in refs
      modifies this`socks, this`refs
      ensures State() == Released(old(State()), s)
    {
      if socks[s].ops.Some? {
        var owner := socks[s].ops.value;
        SetOps(s, None);
        ModulePut(owner);
      }
      if socks[s].file.None? {
        Iput(s);
        return;
      }
      socks := socks[s := socks[s].(file := None)];
    }

    /** Takes the socket over: on failure it is released here, not by the caller. */
    method SockAllocFile(s: SockId, e: FileEnv) returns (r: Result<FileId>)
      requires s in socks && socks[s].file.None? && socks[s].inodeRefs == 1
      requires socks[s].ops.Some? ==> socks[s].ops.value in refs
      requires FreshFile(State(), e)
      modifies this`socks, this`refs, this`files
      ensures match e
              case GotFile(f) =>
                && r == Ok(f)
                && State() == old(State()).(files := old(files)[f := File(1, Some(s))],
                                            socks := old(socks)[s := old(socks)[s].(file := Some(f))])
              case _ => r == Err(FileError(e)) && State() == Released(old(State()), s)
    {
      match e {
        case NoDentry =>
          SockRelease(s);
          return Err(ENOMEM);
        case NoFile(err) =>
          // The dentry owns the inode now: hold it, drop the dentry, then release for good.
          Ihold(s);
          Iput(s);
          assert socks == old(socks);
          SockRelease(s);
          return Err(err);
        case GotFile(f) =>
          files := files[f := File(1, Some(s))];
          socks := socks[s := socks[s].(file := Some(f))];
          return Ok(f);
      }
    }

    method PutUnusedFd(fd: Fd)
      requires fd in fds && fds[fd] == Reserved
      modifies this`fds
      ensures fds == old(fds) - {fd}
    {
      fds := fds - {fd};
    }

    method FdInstall(fd: Fd, f: FileId)
      requires fd in fds && fds[fd] == Reserved
      modifies this`fds
      ensures fds == old(fds)[fd := Installed(f)]
    {
      fds := fds[fd := Installed(f)];
    }

    /** Dropping the last reference to a socket's file closes the socket, then its inode. */
    method Fput(f: FileId)
      requires f in files && files[f].refs >= 1
      requires files[f].refs == 1 && files[f].sock.Some? ==>
                 var s := files[f].sock.value;
                 && s in socks && socks[s].file.Some? && socks[s].inodeRefs == 1
                 && (socks[s].ops.Some? ==> socks[s].ops.value in refs)
      modifies this`files, this`socks, this`refs
      ensures old(files)[f].refs > 1 ==>
                State() == old(State()).(files := old(files)[f := old(files)[f].(refs := old(files)[f].refs - 1)])
      ensures old(files)[f].refs == 1 && old(files)[f].sock.None? ==>
                State() == old(State()).(files := old(files) - {f})
      ensures old(files)[f].refs == 1 && old(files)[f].sock.Some? ==>
                var s := old(files)[f].sock.value;
                State() == old(State()).(
                  files := old(files) - {f},
                  socks := old(socks) - {s},
                  refs := if old(socks)[s].ops.Some? then old(refs) - multiset{old(socks)[s].ops.value} else old(refs))
    {
      if files[f].refs > 1 {
        files := files[f := files[f].(refs := files[f].refs - 1)];
        return;
      }
      if files[f].sock.Some? {
        var s := files[f].sock.value;
        SockRelease(s);
        Iput(s);
        assert socks == old(socks) - {s};
      }
      files := files - {f};
    }

    // ----- creation

    method SockCreate(family: int, type_: int, e: CreateEnv) returns (r: Result<SockId>)
      requires FreshSock(State(), e.inode)
      modifies this`socks, this`refs
      ensures CreateError(families, family, type_, e) != 0 ==>
                r == Err(CreateError(families, family, type_, e)) && State() == old(State())
      ensures CreateError(families, family, type_, e) == 0 ==>
                && r == Ok(e.inode.value)
                && State() == WithBareSocket(old(State()), e.inode.value, Some(e.created.owner))
    {
      if family < 0 || family >= NPROTO {
        return Err(EAFNOSUPPORT);
      }
      if type_ < 0 || type_ >= SOCK_MAX {
        return Err(EINVAL);
      }
      var pf := Family(family, type_);
      if e.mayCreate != 0 {
        return Err(e.mayCreate);
      }
      var alloc := SockAlloc(e.inode);
      if alloc.None? {
        return Err(ENFILE);
      }
      var err := SetUp(alloc.value, pf, e, old(State()));
      return if err != 0 then Err(err) else Ok(alloc.value);
    }

    /** The half of creation that borrows the family's module, lets the family install its
        operations, and takes the reference those operations need. */
    method SetUp(sock: SockId, pf: int, e: CreateEnv, ghost before: Tables) returns (err: int)
      requires sock !in before.socks && State() == WithBareSocket(before, sock, None)
      modifies this`socks, this`refs
      ensures err == SetUpError(families, pf, e)
      ensures State() == if err != 0 then before else WithBareSocket(before, sock, Some(e.created.owner))
    {
      hide Released;
      if pf !in families || !e.familyHeld {
        BackOut(sock, before, None);
        return EAFNOSUPPORT;
      }
      var owner := families[pf];
      ModuleGet(owner);
      match e.created {
        case CreateFailed(err, leftover) =>
          SetOps(sock, leftover);
          SetOps(sock, None);
          ModulePutBack(owner, before.refs);
          SetTwice(before.socks, sock, Sock(None, None, 1), Sock(leftover, None, 1));
          SetTwice(before.socks, sock, Sock(leftover, None, 1), Sock(None, None, 1));
          BackOut(sock, before, None);
          return err;
        case MadeOps(ops) =>
          SetOps(sock, Some(ops));
          SetTwice(before.socks, sock, Sock(None, None, 1), Sock(Some(ops), None, 1));
          err := KeepOps(sock, owner, ops, e, before);
      }
    }

    /** The operations are installed: swap the borrowed module reference for their own. */
    method KeepOps(sock: SockId, owner: Module, ops: Module, e: CreateEnv, ghost before: Tables) returns (err: int)
      requires sock !in before.socks
      requires State() == before.(socks := before.socks[sock := Sock(Some(ops), None, 1)],
                                  refs := before.refs + multiset{owner})
      modifies this`socks, this`refs
      ensures err == if !e.opsHeld then EAFNOSUPPORT else e.postCreate
      ensures State() == if err != 0 then before else WithBareSocket(before, sock, Some(ops))
    {
      hide Released;
      if !e.opsHeld {
        SetOps(sock, None);
        ModulePutBack(owner, before.refs);
        SetTwice(before.socks, sock, Sock(Some(ops), None, 1), Sock(None, None, 1));
        BackOut(sock, before, None);
        return EAFNOSUPPORT;
      }
      ModuleSwap(owner, ops, before.refs);
      assert State() == WithBareSocket(before, sock, Some(ops));
      if e.postCreate != 0 {
        BackOut(sock, before, Some(ops));
        return e.postCreate;
      }
      return 0;
    }

    /** The release at the end of a failed creation. */
    method BackOut(sock: SockId, ghost before: Tables, ghost ops: Option<Module>)
      requires sock !in before.socks
      requires State() == WithBareSocket(before, sock, ops)
      modifies this`socks, this`refs
      ensures State() == before
    {
      ReleaseUndoes(before, sock, ops);
      SockRelease(sock);
    }

    // ----- the calls

    method ReserveFd(e: FdEnv) returns (fd: int)
      requires FreshFd(State(), e)
      modifies this`fds
      ensures match e
              case GotFd(n) => fd == n && fds == old(fds)[n := Reserved]
              case NoFd(err) => fd == err && fds == old(fds)
    {
      match e {
        case GotFd(n) =>
          fds := fds[n := Reserved];
          return n;
        case NoFd(err) =>
          return err;
      }
    }

    /** Takes the socket over, like `SockAllocFile`. */
    method SockMapFd(s: SockId, e: SocketEnv, ghost before: Tables, ghost m: Module) returns (r: int)
      requires s !in before.socks && State() == WithBareSocket(before, s, Some(m))
      requires FreshFd(before, e.fd) && FreshFile(before, e.file)
      modifies this
      ensures r == if MapError(e.fd, e.file) != 0 then MapError(e.fd, e.file) else e.fd.fd
      ensures State() == if MapError(e.fd, e.file) != 0 then before
                         else WithSocket(before, e.fd.fd, e.file.file, s, m)
    {
      hide Released;
      ReleaseUndoes(before, s, Some(m));
      var fd := ReserveFd(e.fd);
      if fd < 0 {
        SockRelease(s);
        return fd;
      }
      ghost var held := before.(fds := before.fds[fd := Reserved]);
      ReleaseUndoes(held, s, Some(m));
      var newfile := SockAllocFile(s, e.file);
      if newfile.Ok? {
        FileBare(held, newfile.value, s, m);
        FdInstall(fd, newfile.value);
        assert before.fds[fd := Reserved][fd := Installed(newfile.value)] == before.fds[fd := Installed(newfile.value)];
        return fd;
      }
      PutUnusedFd(fd);
      assert fds == before.fds;
      return newfile.error;
    }

    method SysSocket(family: int, type_: int, e: SocketEnv) returns (r: int)
      requires FreshSock(State(), e.create.inode) && FreshFd(State(), e.fd) && FreshFile(State(), e.file)
      modifies this
      ensures var err := SocketError(families, family, type_, e);
              if err != 0 then r == err && State() == old(State())
              else
                && r == e.fd.fd
                && State() == WithSocket(old(State()), r, e.file.file, e.create.inode.value, e.create.created.owner)
    {
      if !FlagsAllowed(FlagBits(type_)) {
        return EINVAL;
      }
      ghost var before := State();
      var sock := SockCreate(family, TypeBits(type_), e.create);
      if sock.Err? {
        return sock.error;
      }
      r := SockMapFd(sock.value, e, before, e.create.created.owner);
    }

    /** Both sockets of a pair, or neither. */
    method CreateBoth(family: int, type_: int, e: PairEnv) returns (err: int)
      requires FreshSocks(State(), e)
      modifies this`socks, this`refs
      ensures err == CreateBothError(families, family, type_, e)
      ensures State() ==
              if err != 0 then old(State())
              else WithBareSocket(WithBareSocket(old(State()), e.create1.inode.value, Some(e.create1.created.owner)),
                                  e.create2.inode.value, Some(e.create2.created.owner))
    {
      hide Released;
      ghost var t := State();
      var sock1 := SockCreate(family, type_, e.create1);
      if sock1.Err? {
        return sock1.error;
      }
      ghost var m1 := e.create1.created.owner;
      ghost var t1 := State();
      var sock2 := SockCreate(family, type_, e.create2);
      if sock2.Err? {
        BackOut(sock1.value, t, Some(m1));
        return sock2.error;
      }
      ghost var m2 := e.create2.created.owner;
      if e.mayPair != 0 {
        BackOut(sock2.value, t1, Some(m2));
        BackOut(sock1.value, t, Some(m1));
        return e.mayPair;
      }
      if e.paired < 0 {
        BackOut(sock2.value, t1, Some(m2));
        BackOut(sock1.value, t, Some(m1));
        return e.paired;
      }
      return 0;
    }

    /** Files for both sockets; when either fails, both sockets are gone. */
    method FileBoth(s1: SockId, m1: Module, s2: SockId, m2: Module, f1: FileEnv, f2: FileEnv, ghost t: Tables)
      returns (err: int)
      requires s1 !in t.socks && s2 !in t.socks && s1 != s2
      requires FreshFile(t, f1) && FreshFile(t, f2) && (f1.GotFile? && f2.GotFile? ==> f1.file != f2.file)
      requires State() == WithBareSocket(WithBareSocket(t, s1, Some(m1)), s2, Some(m2))
      modifies this`files, this`socks, this`refs
      ensures err == if FileError(f1) != 0 then FileError(f1) else FileError(f2)
      ensures State() == if err != 0 then t
                         else WithFiledSocket(WithFiledSocket(t, f1.file, s1, m1), f2.file, s2, m2)
    {
      hide Released;
      ReleaseFirst(t, s1, m1, s2, m2);
      var newfile1 := SockAllocFile(s1, f1);
      if newfile1.Err? {
        BackOut(s2, t, Some(m2));
        return newfile1.error;
      }
      FileFirst(t, newfile1.value, s1, m1, s2, m2);
      ghost var t1 := WithFiledSocket(t, newfile1.value, s1, m1);
      assert State() == WithBareSocket(t1, s2, Some(m2));
      ReleaseUndoes(t1, s2, Some(m2));
      var newfile2 := SockAllocFile(s2, f2);
      if newfile2.Err? {
        UnfileUndoes(t, newfile1.value, s1, m1);
        Fput(newfile1.value);
        return newfile2.error;
      }
      FileBare(t1, newfile2.value, s2, m2);
      return 0;
    }

    /** Everything socketpair does between reserving its descriptors and settling them. */
    method MakePair(family: int, type_: int, e: PairEnv) returns (err: int)
      requires FreshSocks(State(), e) && FreshFile(State(), e.file1) && FreshFile(State(), e.file2)
      requires e.file1.GotFile? && e.file2.GotFile? ==> e.file1.file != e.file2.file
      modifies this`files, this`socks, this`refs
      ensures err == MakePairError(families, family, type_, e)
      ensures State() ==
              if err != 0 then old(State())
              else WithFiledSocket(
                     WithFiledSocket(old(State()), e.file1.file, e.create1.inode.value, e.create1.created.owner),
                     e.file2.file, e.create2.inode.value, e.create2.created.owner)
    {
      hide CreateError, CreateBothError;
      if e.put1 != 0 {
        return e.put1;
      }
      if e.put2 != 0 {
        return e.put2;
      }
      ghost var t := State();
      err := CreateBoth(family, type_, e);
      if err < 0 {
        return err;
      }
      err := FileBoth(e.create1.inode.value, e.create1.created.owner, e.create2.inode.value, e.create2.created.owner,
                      e.file1, e.file2, t);
    }

    method SysSocketpair(family: int, type_: int, e: PairEnv) returns (r: int, pair: Option<(Fd, Fd)>)
      requires FreshPair(State(), e)
      modifies this
      ensures r == PairError(families, family, type_, e)
      ensures r != 0 ==> pair.None? && State() == old(State())
      ensures r == 0 ==>
                && pair == Some((e.fd1.fd, e.fd2.fd))
                && State() == WithSocket(
                     WithSocket(old(State()), e.fd1.fd, e.file1.file, e.create1.inode.value, e.create1.created.owner),
                     e.fd2.fd, e.file2.file, e.create2.inode.value, e.create2.created.owner)
    {
      hide MakePairError;
      if !FlagsAllowed(FlagBits(type_)) {
        return EINVAL, None;
      }
      ghost var before := State();
      var fd1 := ReserveFd(e.fd1);
      if fd1 < 0 {
        return fd1, None;
      }
      var fd2 := ReserveFd(e.fd2);
      if fd2 < 0 {
        PutUnusedFd(fd1);
        assert fds == before.fds;
        return fd2, None;
      }
      var err := MakePair(family, TypeBits(type_), e);
      if err != 0 {
        PutUnusedFd(fd2);
        PutUnusedFd(fd1);
        assert fds == before.fds;
        return err, None;
      }
      FdInstall(fd1, e.file1.file);
      FdInstall(fd2, e.file2.file);
      PairInstalled(before, fd1, e.file1.file, e.create1.inode.value, e.create1.created.owner,
                    fd2, e.file2.file, e.create2.inode.value, e.create2.created.owner);
      return 0, Some((fd1, fd2));
    }

    /** The looked-up file is borrowed when the descriptor table is shared; `borrowed` says
        whether it must be given back. */
    method SockfdLookup(fd: int, shared: bool) returns (err: int, borrowed: bool)
      requires Linked(State())
      modifies this
      ensures err == LookupError(old(State()), fd)
      ensures borrowed == (err == 0 && shared)
      ensures State() ==
              if borrowed then
                var f := old(fds)[fd].file;
                old(State()).(files := old(files)[f := old(files)[f].(refs := 2)])
              else old(State())
    {
      if fd < 0 || fd !in fds || fds[fd] == Reserved {
        return EBADF, false;
      }
      var f := fds[fd].file;
      if shared {
        files := files[f := files[f].(refs := files[f].refs + 1)];
      }
      if files[f].sock.None? {
        if shared {
          Fput(f);
          assert files == old(files);
        }
        return ENOTSOCK, false;
      }
      return 0, shared;
    }

    /** Everything accept does between looking the listener up and putting it back. */
    method AcceptOn(listener: SockId, e: AcceptEnv) returns (r: int)
      requires listener in socks && socks[listener].ops.Some?
      requires FreshSock(State(), e.inode) && FreshFd(State(), e.fd) && FreshFile(State(), e.file)
      modifies this
      ensures var err := AcceptOnError(e);
              if err != 0 then r == err && State() == old(State())
              else && r == e.fd.fd
                   && State() == WithSocket(old(State()), r, e.file.file, e.inode.value, old(socks)[listener].ops.value)
    {
      hide Released;
      ghost var t := State();
      var alloc := SockAlloc(e.inode);
      if alloc.None? {
        return ENFILE;
      }
      var newsock := alloc.value;
      var m := socks[listener].ops.value;
      SetOps(newsock, Some(m));
      SetTwice(t.socks, newsock, Sock(None, None, 1), Sock(Some(m), None, 1));
      ModuleGet(m);
      ReleaseUndoes(t, newsock, Some(m));
      var newfd := ReserveFd(e.fd);
      if newfd < 0 {
        BackOut(newsock, t, Some(m));
        return newfd;
      }
      ghost var held := State();
      ghost var t' := t.(fds := fds);
      ReleaseUndoes(t', newsock, Some(m));
      var newfile := SockAllocFile(newsock, e.file);
      if newfile.Err? {
        PutUnusedFd(newfd);
        assert fds == t.fds;
        return newfile.error;
      }
      FileBare(t', newfile.value, newsock, m);
      r := FinishAccept(newfd, newfile.value, newsock, m, e, t);
    }

    /** The listener's protocol and the caller's name buffer have the last word. */
    method FinishAccept(newfd: Fd, newfile: FileId, newsock: SockId, m: Module, e: AcceptEnv, ghost t: Tables)
      returns (r: int)
      requires newfd !in t.fds && newfile !in t.files && newsock !in t.socks
      requires State() == WithFiledSocket(t.(fds := t.fds[newfd := Reserved]), newfile, newsock, m)
      modifies this
      ensures var err := if e.mayAccept != 0 then e.mayAccept else if e.accepted != 0 then e.accepted else NameError(e);
              if err != 0 then r == err && State() == t
              else r == newfd && State() == WithSocket(t, newfd, newfile, newsock, m)
    {
      r := e.mayAccept;
      if r == 0 {
        r := e.accepted;
      }
      if r == 0 && e.wantName {
        r := if e.nameLen < 0 then ECONNABORTED else e.copyOut;
      }
      if r < 0 {
        UnfileUndoes(t.(fds := t.fds[newfd := Reserved]), newfile, newsock, m);
        Fput(newfile);
        PutUnusedFd(newfd);
        assert fds == t.fds;
        return r;
      }
      FdInstall(newfd, newfile);
      assert fds == t.fds[newfd := Installed(newfile)];
      return newfd;
    }

    method SysAccept4(fd: int, flags: int, e: AcceptEnv) returns (r: int)
      requires Linked(State())
      requires FreshSock(State(), e.inode) && FreshFd(State(), e.fd) && FreshFile(State(), e.file)
      modifies this
      ensures var err := AcceptError(old(State()), fd, flags, e);
              if err != 0 then r == err && State() == old(State())
              else && r == e.fd.fd
                   && State() == WithSocket(old(State()), r, e.file.file, e.inode.value, OwnerAt(old(State()), fd))
    {
      hide AcceptOnError;
      if !FlagsAllowed(flags) {
        return EINVAL;
      }
      ghost var t := State();
      var err, borrowed := SockfdLookup(fd, e.shared);
      if err != 0 {
        return err;
      }
      var f := fds[fd].file;
      r := AcceptOn(files[f].sock.value, e);
      if borrowed {
        Fput(f);
        if AcceptOnError(e) != 0 {
          assert files == t.files;
        } else {
          assert files == t.files[e.file.file := File(1, e.inode)];
        }
      }
    }

    method SysClose(fd: int) returns (r: int)
      requires Linked(State())
      modifies this
      ensures r == CloseError(old(State()), fd)
      ensures State() == if r != 0 then old(State()) else Closed(old(State()), fd)
    {
      if fd < 0 || fd !in fds || fds[fd] == Reserved {
        return EBADF;
      }
      var f := fds[fd].file;
      fds := fds - {fd};
      Fput(f);
      return 0;
    }
  }
}
