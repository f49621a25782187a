/** When each socket call succeeds, over the caller's raw arguments and the environment's raw
    answers, which error it gives otherwise, and what exactly it leaves in the tables. */
module SocketOutcomes {
  import opened Errno
  import opened SocketLayer
  import opened SocketRuns
  import opened Wrappers

  // ----- creation

  /** A family number and type select a family; one obsolete pair selects the packet family. */
  lemma FamilySelected(family: int, type_: int)
    ensures Family(family, type_) == if family == 2 && type_ == 10 then 17 else family
  {
  }

  /** Creation succeeds exactly when every check passes. */
  lemma CreateSucceeds(families: map<int, Module>, family: int, type_: int, e: CreateEnv)
    ensures CreateError(families, family, type_, e) == 0 <==>
            && 0 <= family < 45 && 0 <= type_ < 11
            && e.mayCreate == 0
            && e.inode.Some?
            && (if family == 2 && type_ == 10 then 17 else family) in families && e.familyHeld
            && e.created.MadeOps? && e.opsHeld
            && e.postCreate == 0
  {
  }

  /** And otherwise the first check that fails decides the error. */
  lemma CreateFails(families: map<int, Module>, family: int, type_: int, e: CreateEnv)
    ensures var err := CreateError(families, family, type_, e);
            var selected := if family == 2 && type_ == 10 then 17 else family;
            if family < 0 || 45 <= family then err == -97
            else if type_ < 0 || 11 <= type_ then err == -22
            else if e.mayCreate != 0 then err == e.mayCreate
            else if e.inode == None then err == -23
            else if selected !in families then err == -97
            else if !e.familyHeld then err == -97
            else if e.created.CreateFailed? then err == e.created.err
            else if !e.opsHeld then err == -97
            else err == e.postCreate
  {
  }

  // ----- socket

  /** Of the type argument the low four bits are the type, and of the rest only the bits 0x800 and
      0x80000 may be set. */
  ghost predicate TypeBitsOnly(type_: int) {
    exists low: int, nonblock: bool, cloexec: bool :: TypeIs(type_, low, nonblock, cloexec)
  }

  predicate TypeIs(type_: int, low: int, nonblock: bool, cloexec: bool) {
    0 <= low < 16 && type_ == low + (if nonblock then 0x800 else 0) + if cloexec then 0x80000 else 0
  }

  lemma FlagsChecked(type_: int)
    ensures FlagsAllowed(FlagBits(type_)) <==> TypeBitsOnly(type_)
    ensures 0 <= TypeBits(type_) < 16 && TypeBits(type_) == type_ % 16
  {
    var low, rest := TypeBits(type_), FlagBits(type_);
    if FlagsAllowed(rest) {
      assert TypeIs(type_, low, rest in {0x800, 0x80800}, rest in {0x80000, 0x80800});
    }
    if TypeBitsOnly(type_) {
      var low', nonblock, cloexec :| TypeIs(type_, low', nonblock, cloexec);
      assert low' == type_ % 16;
    }
  }

  lemma FlagsCheckedAlone(flags: int)
    ensures FlagsAllowed(flags) <==> flags == 0 || flags == 0x800 || flags == 0x80000 || flags == 0x80800
  {
  }

  lemma SocketSucceeds(families: map<int, Module>, family: int, type_: int, e: SocketEnv)
    ensures SocketError(families, family, type_, e) == 0 <==>
            && TypeBitsOnly(type_)
            && 0 <= family < 45 && type_ % 16 < 11
            && e.create.mayCreate == 0 && e.create.inode.Some?
            && (if family == 2 && type_ % 16 == 10 then 17 else family) in families && e.create.familyHeld
            && e.create.created.MadeOps? && e.create.opsHeld && e.create.postCreate == 0
            && e.fd.GotFd? && e.file.GotFile?
  {
    FlagsChecked(type_);
    CreateSucceeds(families, family, TypeBits(type_), e.create);
    hide CreateError;
  }

  lemma SocketFails(families: map<int, Module>, family: int, type_: int, e: SocketEnv)
    ensures var err := SocketError(families, family, type_, e);
            var created := CreateError(families, family, type_ % 16, e.create);
            if !TypeBitsOnly(type_) then err == -22
            else if created != 0 then err == created
            else if e.fd.NoFd? then err == e.fd.err
            else if e.file.NoDentry? then err == -12
            else if e.file.NoFile? then err == e.file.err
            else err == 0
  {
    FlagsChecked(type_);
    hide CreateError;
  }

  // ----- socketpair

  lemma PairSucceeds(families: map<int, Module>, family: int, type_: int, e: PairEnv)
    ensures PairError(families, family, type_, e) == 0 <==>
            && TypeBitsOnly(type_)
            && e.fd1.GotFd? && e.fd2.GotFd? && e.put1 == 0 && e.put2 == 0
            && CreateError(families, family, type_ % 16, e.create1) == 0
            && CreateError(families, family, type_ % 16, e.create2) == 0
            && e.mayPair == 0 && e.paired == 0
            && e.file1.GotFile? && e.file2.GotFile?
  {
    FlagsChecked(type_);
    hide CreateError;
  }

  lemma PairFails(families: map<int, Module>, family: int, type_: int, e: PairEnv)
    ensures var err := PairError(families, family, type_, e);
            var first := CreateError(families, family, type_ % 16, e.create1);
            var second := CreateError(families, family, type_ % 16, e.create2);
            if !TypeBitsOnly(type_) then err == -22
            else if e.fd1.NoFd? then err == e.fd1.err
            else if e.fd2.NoFd? then err == e.fd2.err
            else if e.put1 != 0 then err == e.put1
            else if e.put2 != 0 then err == e.put2
            else if first != 0 then err == first
            else if second != 0 then err == second
            else if e.mayPair != 0 then err == e.mayPair
            else if e.paired != 0 then err == e.paired
            else if e.file1.NoDentry? then err == -12
            else if e.file1.NoFile? then err == e.file1.err
            else if e.file2.NoDentry? then err == -12
            else if e.file2.NoFile? then err == e.file2.err
            else err == 0
  {
    FlagsChecked(type_);
    hide CreateError;
  }

  // ----- accept

  /** The descriptor leads through an installed file to a socket. */
  predicate IsSocket(t: Tables, fd: int) {
    fd >= 0 && fd in t.fds && t.fds[fd].Installed? && t.fds[fd].file in t.files && t.files[t.fds[fd].file].sock.Some?
  }

  lemma AcceptSucceeds(t: Tables, fd: int, flags: int, e: AcceptEnv)
    ensures AcceptError(t, fd, flags, e) == 0 <==>
            && (flags == 0 || flags == 0x800 || flags == 0x80000 || flags == 0x80800)
            && IsSocket(t, fd)
            && e.inode.Some? && e.fd.GotFd? && e.file.GotFile?
            && e.mayAccept == 0 && e.accepted == 0
            && (e.wantName ==> e.nameLen >= 0 && e.copyOut == 0)
  {
  }

  lemma AcceptFails(t: Tables, fd: int, flags: int, e: AcceptEnv)
    ensures var err := AcceptError(t, fd, flags, e);
            if !(flags == 0 || flags == 0x800 || flags == 0x80000 || flags == 0x80800) then err == -22
            else if fd < 0 || fd !in t.fds || t.fds[fd] == Reserved || t.fds[fd].file !in t.files then err == -9
            else if !IsSocket(t, fd) then err == -88
            else if e.inode == None then err == -23
            else if e.fd.NoFd? then err == e.fd.err
            else if e.file.NoDentry? then err == -12
            else if e.file.NoFile? then err == e.file.err
            else if e.mayAccept != 0 then err == e.mayAccept
            else if e.accepted != 0 then err == e.accepted
            else if e.wantName && e.nameLen < 0 then err == -103
            else if e.wantName && e.copyOut != 0 then err == e.copyOut
            else err == 0
  {
  }

  /** The new socket belongs to the listener's module. */
  lemma AcceptOwner(t: Tables, fd: int, f: FileId, s: SockId, m: Module)
    requires Linked(t) && fd >= 0 && fd in t.fds && t.fds[fd] == Installed(f)
    requires t.files[f].sock == Some(s) && t.socks[s].ops == Some(m)
    ensures LookupError(t, fd) == 0 && OwnerAt(t, fd) == m
  {
    hide FilesHeld, SockLinked;
  }

  // ----- what is left in the tables

  /** A socket added: one of each, linked, and nothing else touched. */
  lemma SocketAdded(t: Tables, fd: Fd, f: FileId, s: SockId, m: Module)
    ensures var r := WithSocket(t, fd, f, s, m);
            && r.fds.Keys == t.fds.Keys + {fd} && r.files.Keys == t.files.Keys + {f}
            && r.socks.Keys == t.socks.Keys + {s}
            && r.fds[fd] == Installed(f)
            && r.files[f].refs == 1 && r.files[f].sock == Some(s)
            && r.socks[s].ops == Some(m) && r.socks[s].file == Some(f) && r.socks[s].inodeRefs == 1
            && (forall d :: d in t.fds && d != fd ==> r.fds[d] == t.fds[d])
            && (forall g :: g in t.files && g != f ==> r.files[g] == t.files[g])
            && (forall x :: x in t.socks && x != s ==> r.socks[x] == t.socks[x])
            && r.refs[m] == t.refs[m] + 1 && forall n: Module :: n != m ==> r.refs[n] == t.refs[n]
  {
  }

  lemma RemoveAdded<K, V>(m: map<K, V>, k: K, v: V)
    requires k !in m
    ensures m[k := v] - {k} == m
  {
  }

  lemma CloseAdded(t: Tables, fd: Fd, f: FileId, s: SockId, m: Module)
    requires Linked(WithSocket(t, fd, f, s, m))
    ensures CloseError(WithSocket(t, fd, f, s, m), fd) == 0
    ensures var r := WithSocket(t, fd, f, s, m);
            Closed(r, fd) == Tables(r.fds - {fd}, r.files - {f}, r.socks - {s}, r.refs - multiset{m})
  {
    hide Linked;
  }

  /** Closing a descriptor just added gives the earlier tables back. */
  lemma CloseUndoesAdd(t: Tables, fd: Fd, f: FileId, s: SockId, m: Module)
    requires Linked(t) && fd !in t.fds && f !in t.files && s !in t.socks
    ensures Linked(WithSocket(t, fd, f, s, m))
    ensures CloseError(WithSocket(t, fd, f, s, m), fd) == 0
    ensures Closed(WithSocket(t, fd, f, s, m), fd) == t
  {
    AddLinks(t, fd, f, s, m);
    hide Linked, Closed;
    CloseAdded(t, fd, f, s, m);
    RemoveAdded(t.fds, fd, Installed(f));
    RemoveAdded(t.files, f, File(1, Some(s)));
    RemoveAdded(t.socks, s, Sock(Some(m), Some(f), 1));
    assert t.refs + multiset{m} - multiset{m} == t.refs;
  }

  /** A close that succeeds takes the descriptor, its file and the file's socket with its module
      reference, and leaves every other entry as it was. */
  lemma CloseTakes(t: Tables, fd: int)
    requires Linked(t) && CloseError(t, fd) == 0
    ensures var r, f := Closed(t, fd), t.fds[fd].file;
            var socket := t.files[f].sock;
            && r.fds.Keys == t.fds.Keys - {fd} && r.files.Keys == t.files.Keys - {f}
            && r.socks.Keys == t.socks.Keys - (if socket.Some? then {socket.value} else {})
            && (forall d :: d in r.fds ==> r.fds[d] == t.fds[d])
            && (forall g :: g in r.files ==> r.files[g] == t.files[g])
            && (forall x :: x in r.socks ==> r.socks[x] == t.socks[x])
            && (socket.None? ==> r.refs == t.refs)
            && (socket.Some? ==>
                  && socket.value in t.socks && t.socks[socket.value].ops.Some?
                  && var m := t.socks[socket.value].ops.value;
                     && r.refs[m] == t.refs[m] - 1
                     && forall n: Module :: n != m ==> r.refs[n] == t.refs[n])
  {
    hide FilesHeld;
    var f := t.fds[fd].file;
    if t.files[f].sock.Some? {
      assert SockLinked(t, t.files[f].sock.value);
    }
  }

  lemma CloseFails(t: Tables, fd: int)
    requires Linked(t)
    ensures CloseError(t, fd) == if fd >= 0 && fd in t.fds then 0 else -9
  {
    hide FilesHeld, FilesLinked, SockLinked;
  }
}
