# Verified models of the operating-system projects

Dafny models of the five most intricate parts of the repository, each with proofs of what the
part is for. `dafny verify dfyconfig.toml` checks everything.

1. **Two-machine page coherence** (`Coherence*.dfy`, from `Project_3_new/part4/part4.c`). Two
   processes keep Modified/Shared/Invalid flags per page and copy one large struct of per-page
   signals to each other on every bus operation. The signals are sticky, start uninitialised, and
   each receipt overwrites the receiver's own outgoing struct. `Coherence` gives one machine as a
   value, `CoherenceBus` the wires, `CoherenceMachine` the in-place code. Proved: atomic runs from
   *any* initial signals simulate a pure machine on mode pairs; single writer; no stuck reader;
   what a reader gets, byte for byte; every one-sided interleaving with messages in flight ends as
   if each message had been delivered at once; what the bulk commands do. Coherence does not hold
   of everything, and two results say exactly when it does: shared copies are equal if and only if
   nobody ever wrote the page, and a crossed pair of writes (`CoherenceCrossing`) is harmless in
   every later atomic run if and only if the pages differ and neither struct holds a read request
   for the page the other machine wrote. Different pages alone are not enough.
2. **Socket-layer ownership** (`SocketLayer`, `SocketRuns`, `SocketOutcomes`,
   `SendMmsg`, `SendOutcomes`, from
   `Project_1/backups/socket.c`). Descriptors, files, inodes and module references pass through
   socket, socketpair, accept and close with every failure path open. Each call is proved to fail
   with no trace or to add exactly its sockets, and conservation is proved over whole runs. The
   address cache of `sendmmsg` is proved equal to asking the security hook every time.
3. **The process tree, listed and mirrored** (`TaskTree`, `ProcListing`, `TaskMirror`,
   `MirrorProofs`, `S2fsRead`, `Text`, from `Project_4`). The indented listing and the directory
   mirror are both proved invertible; names printed into ten bytes are proved to lead back to their
   pid exactly when they fit; chunked reads deliver the task's own text and nothing else.
4. **Four indexes of one list** (`IntList`, `Numerals`, `OrderedTree`, `IntIndexes`, from
   `Project_2/submission_new/proj2.c`). The parser and its printed inverse, tree insertion under
   any rebalancing by rotations, and the agreement of list, hash, tree and radix tree.
5. **Demand paging** (`DemandPaging`, from `Project_3/part1/uffd.bu`). The eight sweeps over a
   lazily filled region, in closed form.

Where the source updates state in place the model does too: a class with the source's fields, whose
methods are proved against the functions the lemmas are about.

Everything the environment decides is a parameter, so that results hold for every choice:
uninitialised signal arrays, which calls of allocators, hooks, families and user copies fail and
with what error, the hash function, the rotations, the sizes asked for by readers.

Assumptions, each of them what the source demands of its surroundings:

- part4: page indexes are below the page count (or -1 for all), which is at most 4096. Messages are
  not empty, hold no NUL, and are shorter than a page: the source copies them with `memcpy` and no
  check. Both machines use one page size.
- socket.c: allocators return identifiers not in use; hooks and protocol calls answer zero or a
  negative error; a live socket's operations name their module. For the cache, the hook's verdict
  depends only on the destination, which is what the source's own comment relies on.
- proj4 and s2fs: pids are 32-bit. Names may be any text; where a newline in one matters, the
  result says so.
- uffd: the page size is a multiple of 2048, the larger stride, and the region is no longer than
  the largest `int`, since the sweeps step an `int` through it. `DemandPaging.SweepFitsExactly`
  and `DemandPaging.PagesThatFit` say that this is exactly the bound: 524287 pages of 4096 bytes.

Where comments and code disagree, the code is followed. In `uffd.bu`, the comment on the first sweep
says it steps by 1024 bytes, but it steps by 2048; the comment on the third says the character
changes from A to B, which the first page shows only when the page count is 1 modulo 20.

## Model

| member | source | states |
|---|---|---|
| CoherenceMachine.Machine.constructor | Project_3_new/part4/part4.c:357-363 | pages start zeroed and invalid, whatever the message struct holds |
| CoherenceMachine.Machine.BeginRead | Project_3_new/part4/part4.c:198-213 | only an invalid page is requested: it is zeroed, becomes shared, and its three signals are set; any other page changes nothing but the address fields |
| CoherenceMachine.Machine.EndRead | Project_3_new/part4/part4.c:215-217 | the reply overwrites the start of the buffer, the stale tail stays, and the request is withdrawn |
| CoherenceMachine.Machine.Write | Project_3_new/part4/part4.c:261-284 | the in-place write arm: signals by the state left, modified flag, bytes copied into this page and no other |
| CoherenceMachine.Machine.AskPage | Project_3_new/part4/part4.c:286-302 | viewing stores the page number typed and changes nothing else |
| CoherenceMachine.Machine.HandleMessage | Project_3_new/part4/part4.c:377-411 | one turn of the snoop loop: the struct is taken over whole, at most one branch of the cascade fires, and the flush stays inside the page |
| CoherenceMachine.CStringStays | Project_3_new/part4/part4.c:389-390 | with a NUL in the page's last byte, `strlen` from the page's start never leaves the page |
| CoherenceMachine.OnePageChanged | Project_3_new/part4/part4.c:204-204 | bytes changed inside one page of the flat mapping leave every other page as it was |
| CoherenceMachine.MessageCopied | Project_3_new/part4/part4.c:281-281 | copying a message at a page's offset overwrites the start of that page only |
| CoherenceMachine.RelTerminated | Project_3_new/part4/part4.c:387-391 | in every state an atomic run reaches, every page of both machines ends in NUL |
| CoherenceMachine.Machine.ReadPageFrom | Project_3_new/part4/part4.c:198-224 | a read against a live peer is one whole transaction, with exactly one reply if and only if the page was invalid |
| CoherenceMachine.Machine.WritePageTo | Project_3_new/part4/part4.c:261-284 | a write against a live peer is one whole transaction and gets no reply |
| CoherenceMachine.Machine.ReadEachPage | Project_3_new/part4/part4.c:168-196 | the read-all loop is the run of one read transaction per page in order, with one reply per message sent |
| CoherenceMachine.Machine.ReadAll | Project_3_new/part4/part4.c:164-197 | read-all sends exactly as many messages as there were invalid pages and leaves none invalid |
| CoherenceMachine.Machine.WriteEachPage | Project_3_new/part4/part4.c:238-259 | the write-all loop is the run of one write transaction per page in order |
| CoherenceMachine.Machine.WriteAll | Project_3_new/part4/part4.c:231-260 | write-all leaves every page modified here and invalid at the peer |
| CoherenceMessages.RequestSent | Project_3_new/part4/part4.c:198-213 | the struct sent for a read: read and fault signals up, invalidation down, the two write signals as they were; the page all NUL and shared, every other page untouched |
| CoherenceMessages.LocalReadSendsNothing | Project_3_new/part4/part4.c:219-223 | a read of a page held here sends nothing and stores only the address |
| CoherenceMessages.WriteSent | Project_3_new/part4/part4.c:261-283 | the struct sent for a write, per state left: a claim with a fault from invalid, an upgrade from shared, both with an invalidation and no read request, and no signal touched from modified |
| CoherenceMessages.ViewSendsNothing | Project_3_new/part4/part4.c:286-302 | a view sends nothing and stores only the number typed |
| CoherenceMessages.ReplyStored | Project_3_new/part4/part4.c:215-217 | the buffer starts with the reply and keeps its old tail, and of the struct only the request is withdrawn |
| CoherenceMessages.ReceiptMoves | Project_3_new/part4/part4.c:383-410 | the full table of what a receipt does to the flags, from each state and for every value of the four signals |
| CoherenceMessages.ReceiptAnswers | Project_3_new/part4/part4.c:387-406 | what goes back: the page's string, one blank, or nothing |
| CoherenceProofs.WriteSimulates | Project_3_new/part4/part4.c:261-283 | whatever the pair of states and the leftover signals, a write and its snoop give (M, I), send no reply, and keep the key invariant that no read request survives a modified page |
| CoherenceProofs.BusReadSimulates | Project_3_new/part4/part4.c:200-216 | a read from I and its snoop make both shared and get exactly one reply: the flush, or " " when the peer has nothing |
| CoherenceProofs.OtherPageKept | Project_3_new/part4/part4.c:381-383 | copying the whole struct to the peer disturbs no page but the addressed one |
| CoherenceProofs.RelSwap | Project_3_new/part4/part4.c:377-410 | the relation between flags and pure modes does not depend on which machine issues |
| CoherenceProofs.TransactSimulates | Project_3_new/part4/part4.c:159-303 | a whole transaction from a quiet link does what the pure machine does on every page, is never stuck and leaves no reply behind |
| CoherenceRuns.RunSimulates | Project_3_new/part4/part4.c:148-410 | refinement: every atomic run by both machines from any initial signals simulates the pure machine and ends with quiet wires |
| CoherenceRuns.SingleWriter | Project_3_new/part4/part4.c:359-410 | in every reachable quiet state the pair is (I,I), (S,S), (M,I) or (I,M), and exactly one flag is up on each side |
| CoherenceRuns.NoStuckReader | Project_3_new/part4/part4.c:185-216 | a bus read finds the peer modified or invalid and gets exactly one reply, not an empty one, so the blocking read ends; no other command gets or leaves one |
| CoherenceRuns.SpecRemembers | Project_3_new/part4/part4.c:226-284 | the pure machine's memory of a page is the most recent message either machine wrote there |
| CoherenceRuns.FlushContents | Project_3_new/part4/part4.c:387-391 | the string on an overwritten page: byte i comes from the latest message longer than i, its length is the longest message's, and the last byte of the page is NUL |
| CoherenceRuns.SpecLogs | Project_3_new/part4/part4.c:204-281 | the pure machine's log of a page is what the run shows this machine wrote since it last zeroed its copy |
| CoherenceRuns.ExactFlush | Project_3_new/part4/part4.c:387-391 | in terms of the run alone: byte i of a flush is that of the latest message longer than i that the peer wrote since it last zeroed the page |
| CoherenceRuns.CoherenceHistory | Project_3_new/part4/part4.c:387-406 | a bus read gets " " when neither machine ever wrote the page; otherwise its payload starts with the most recent message of either |
| CoherenceRuns.ReaderSees | Project_3_new/part4/part4.c:185-217 | after a bus read in any atomic run the reader's buffer starts with the most recent message of either machine, or with a blank when nobody wrote the page, and keeps its old bytes past the reply |
| CoherenceRuns.LocalReadSees | Project_3_new/part4/part4.c:219-223 | a machine that holds a page modified reads its own copy, which starts with the most recent message of either machine |
| CoherenceRuns.SharedCopies | Project_3_new/part4/part4.c:204-217 | a reader never stores the reply, so shared copies are equal if and only if neither machine ever wrote the page; once one did, exactly one of them is all zeros |
| CoherenceRuns.SharedCopiesDiffer | Project_3_new/part4/part4.c:204-217 | a run of one write and one read that leaves both copies shared and unequal |
| CoherenceRuns.NoStaleRequest | Project_3_new/part4/part4.c:174-410 | in every atomic run, from any initial signals, both structs have read signal 0 on every page that either machine has modified |
| CoherenceCrossing.CrossedOwnPage | Project_3_new/part4/part4.c:261-410 | one page of a crossed pair on different pages: the writer keeps it, the peer drops it, and the writer's struct ends with the peer's read signal |
| CoherenceCrossing.CrossedOtherPage | Project_3_new/part4/part4.c:381-383 | a page neither machine wrote stays related although both structs were replaced |
| CoherenceCrossing.CrossedRel | Project_3_new/part4/part4.c:261-410 | the crossed state is that of the two writes in a row, in either order, if and only if the pages differ and neither struct asks for a read of the page the other machine wrote |
| CoherenceCrossing.CrossedCleared | Project_3_new/part4/part4.c:261-410 | the invariant of atomic runs survives with it if and only if those two signals are 0 |
| CoherenceCrossing.CrossedWritesExactly | Project_3_new/part4/part4.c:159-410 | after a crossed pair, every later atomic run gives the pure machine's replies and leaves none behind, if and only if the pages differ and no request crosses |
| CoherenceCrossing.CrossedAfterRun | Project_3_new/part4/part4.c:159-410 | the same boundary for a crossed pair after any atomic run from any initial signals |
| CoherenceCrossing.CrossedWritesLoseBoth | Project_3_new/part4/part4.c:261-410 | two crossed writes of one page leave both copies invalid, and the next read by either machine is told there is no data |
| CoherenceCrossing.StaleRequestAnswered | Project_3_new/part4/part4.c:261-406 | a writer that holds a stale request for its modified page has its next write answered with " ", and the peer shares the page it has modified |
| CoherenceCrossing.DifferentPagesBreak | Project_3_new/part4/part4.c:159-410 | a reachable failing run on different pages: read page 0, cross writes of pages 0 and 1, write page 0 again; single writer is lost and a reply is left unread |
| CoherencePipeline.DrainAppend | Project_3_new/part4/part4.c:377-410 | a message queued last is snooped last, with its reply after the others |
| CoherencePipeline.IssueKeepsPipe | Project_3_new/part4/part4.c:198-284 | issuing with messages still queued keeps the state one drain away from immediate delivery |
| CoherencePipeline.RunKeepsPipe | Project_3_new/part4/part4.c:185-410 | at every point of every one-sided schedule the state differs from immediate delivery by exactly the queued messages and the one awaited reply |
| CoherencePipeline.Pipelining | Project_3_new/part4/part4.c:238-410 | every one-sided interleaving of issuing, snooping and receiving ends in the same states, pages and replies as delivering each message at once |
| CoherencePipeline.RepliesInFlight | Project_3_new/part4/part4.c:185-188 | a waiting issuer always has exactly one reply on its way, and not an empty one; any other has none, so no reply is left for a later read |
| CoherencePipeline.CanSettle | Project_3_new/part4/part4.c:377-410 | no deadlock: every schedule can be carried on by snooping and by receiving replies that are not empty until nothing is in flight |
| CoherenceBulk.ReadAllSends | Project_3_new/part4/part4.c:168-196 | the first k reads of read-all send one message for each of the first k pages that was invalid at the start |
| CoherenceBulk.ReadAllOnce | Project_3_new/part4/part4.c:164-197 | read-all turns exactly the invalid pages shared, here and at the peer, and a second one straight after sends nothing |
| CoherenceBulk.WriteAllTakesEverything | Project_3_new/part4/part4.c:231-260 | write-all leaves every page modified here, invalid at the peer and starting with the message |
| SocketLayer.Kernel.SockAlloc | Project_1/backups/socket.c:563-581 | a new inode is held once and its socket has no operations and no file; on failure nothing changes |
| SocketLayer.Kernel.SockRelease | Project_1/backups/socket.c:593-615 | the module reference goes with the operations; the inode goes only when no file holds the socket |
| SocketLayer.ReleaseUndoes | Project_1/backups/socket.c:593-615 | releasing a socket that never got a file gives back exactly what creating it took |
| SocketLayer.Kernel.SockAllocFile | Project_1/backups/socket.c:389-426 | on success the file is linked both ways; on either failure the socket has been released here |
| SocketLayer.Kernel.SockMapFd | Project_1/backups/socket.c:429-446 | consumes the socket: it is installed at the descriptor, or socket and descriptor are both gone |
| SocketLayer.Kernel.Fput | Project_1/backups/socket.c:1149-1153 | dropping the last reference to a socket's file frees the file, the socket and its module reference once each |
| SocketLayer.Kernel.SockfdLookup | Project_1/backups/socket.c:489-504 | the file is borrowed only when the lookup succeeds on a shared table; a descriptor that is not a socket is given back |
| SocketLayer.Kernel.SetUp | Project_1/backups/socket.c:1271-1321 | the family's borrowed reference is always returned; on failure nothing is left, on success the socket owns one reference to its operations' module |
| SocketLayer.Kernel.SockCreate | Project_1/backups/socket.c:1216-1322 | the first obstacle decides the error and leaves no trace; success adds one bare socket |
| SocketLayer.Kernel.SysSocket | Project_1/backups/socket.c:1337-1362 | any failure leaves all four tables as they were; success adds exactly one descriptor, file, socket and module reference |
| SocketLayer.Kernel.CreateBoth | Project_1/backups/socket.c:1415-1437 | both sockets of a pair or neither |
| SocketLayer.Kernel.FileBoth | Project_1/backups/socket.c:1439-1451 | files for both sockets, or both sockets gone, although one failing callee has consumed one of them |
| SocketLayer.Kernel.SysSocketpair | Project_1/backups/socket.c:1373-1463 | any failure leaves all four tables as they were; success adds exactly two linked sockets |
| SocketLayer.Kernel.AcceptOn | Project_1/backups/socket.c:1570-1631 | between lookup and put: a failure leaves no trace, success adds one socket owned by the listener's module |
| SocketLayer.Kernel.FinishAccept | Project_1/backups/socket.c:1597-1630 | a late refusal by the hook, the protocol or the name copy undoes the file and the descriptor |
| SocketLayer.Kernel.SysAccept4 | Project_1/backups/socket.c:1551-1631 | as above, and the listener's borrowed file reference is dropped exactly once on every path |
| SocketLayer.Kernel.SysClose | Project_1/backups/socket.c:1149-1153 | closing removes the descriptor, its file, its socket and one module reference, and nothing else |
| SocketOutcomes.FamilySelected | Project_1/backups/socket.c:1236-1240 | family 2 with type 10 is family 17, and every other pair keeps its family |
| SocketOutcomes.CreateSucceeds | Project_1/backups/socket.c:1216-1322 | creation succeeds if and only if family and type are in range, the hook allows it, there is an inode, the selected family is registered and held, it makes operations whose module is held, and the second hook allows it |
| SocketOutcomes.CreateFails | Project_1/backups/socket.c:1216-1322 | otherwise the error of the first of these that fails, by number |
| SocketOutcomes.FlagsChecked | Project_1/backups/socket.c:1349-1352 | a type argument passes if and only if it is four low bits with at most 0x800 and 0x80000 besides |
| SocketOutcomes.SocketSucceeds | Project_1/backups/socket.c:1337-1362 | socket succeeds if and only if every check on its raw arguments and every answer it gets passes |
| SocketOutcomes.SocketFails | Project_1/backups/socket.c:1337-1362 | and otherwise which error comes first |
| SocketOutcomes.PairSucceeds | Project_1/backups/socket.c:1373-1463 | the same for socketpair |
| SocketOutcomes.PairFails | Project_1/backups/socket.c:1373-1463 | and which error comes first |
| SocketOutcomes.AcceptSucceeds | Project_1/backups/socket.c:1551-1631 | the same for accept, whose descriptor must lead to a socket |
| SocketOutcomes.AcceptFails | Project_1/backups/socket.c:1551-1631 | and which error comes first |
| SocketOutcomes.AcceptOwner | Project_1/backups/socket.c:1575-1582 | the new socket belongs to the listener's module |
| SocketOutcomes.SocketAdded | Project_1/backups/socket.c:429-446 | a socket added is one descriptor, one file, one socket and one module reference, linked to each other, and nothing else |
| SocketOutcomes.CloseUndoesAdd | Project_1/backups/socket.c:593-615 | closing a descriptor just added gives the earlier tables back |
| SocketOutcomes.CloseTakes | Project_1/backups/socket.c:593-615 | a close takes the descriptor, its file and the file's socket with its module reference, and leaves every other entry as it was |
| SocketRuns.Perform | Project_1/backups/socket.c:1337-1631 | the kernel's tables after a call are those of the pure step the run results are about |
| SocketRuns.AddConserves | Project_1/backups/socket.c:429-446 | adding a socket keeps descriptors, files, sockets and module counts linked and counted |
| SocketRuns.CloseConserves | Project_1/backups/socket.c:593-615 | closing keeps them linked and counted |
| SocketRuns.CallConserves | Project_1/backups/socket.c:1337-1631 | every call, failed or not, keeps conservation |
| SocketRuns.RunConserves | Project_1/backups/socket.c:1216-1631 | over any run with any failures no descriptor is left reserved, live sockets and socket files pair off, and each module's references are exactly its live sockets plus those held outside |
| SocketRuns.NothingLeaks | Project_1/backups/socket.c:1216-1631 | a run that ends with every descriptor closed ends exactly where it began |
| SendMmsg.CopyHeader | Project_1/backups/socket.c:2002-2051 | a header that is accepted has no destination or one of 1 to 128 bytes |
| SendMmsg.BatchCall.SendOne | Project_1/backups/socket.c:2053-2147 | a send with the cache does what asking would do, and skips the hook only for a destination that already succeeded in this call |
| SendMmsg.BatchCall.SendAll | Project_1/backups/socket.c:2206-2247 | the loop with the cache returns and sends what the loop that always asks does |
| SendMmsg.SysSendmmsg | Project_1/backups/socket.c:2183-2248 | the same for the whole call, with the refused flag, the clamp and the failed lookup |
| SendMmsg.OnlyAllowedSent | Project_1/backups/socket.c:2116-2128 | nothing reaches the wire that the hook would refuse |
| SendMmsg.CountedAreSent | Project_1/backups/socket.c:2212-2247 | each counted message put one datagram on the wire, and at most one more was tried |
| SendOutcomes.HeaderChecked | Project_1/backups/socket.c:2002-2051 | what every header gives: its destination cut to 128 bytes, or the error of the first check that fails |
| SendOutcomes.OneTurn | Project_1/backups/socket.c:2213-2238 | one turn of the loop: what is refused and what goes out |
| SendOutcomes.BatchSends | Project_1/backups/socket.c:2206-2247 | every counted message is on the wire in order with its own destination and payload, batched unless it is the last; left-over data or the first refusal ends the loop and nothing else does; an error is returned only when nothing was counted |
| Numerals.EveryStringCuts | Project_2/submission_new/proj2.c:112-112 | every string is a sign, a prefix, all the digits that follow and a rest |
| Numerals.Answers | Project_2/submission_new/proj2.c:112-112 | what `kstrtoint` answers for it: too long, invalid, out of range, or the positional value |
| Numerals.AcceptedExactly | Project_2/submission_new/proj2.c:112-112 | a string is read as v if and only if it is a numeral for v (optional sign, prefix where base 0 allows one, digits of the radix, optional newline) and v is an `int` |
| Numerals.RefusedExactly | Project_2/submission_new/proj2.c:112-114 | and which of the two errors every other string gets |
| Numerals.TokensYield | Project_2/submission_new/proj2.c:109-121 | the numbers of the tokens before the first that is not a numeral, and that one's error |
| Numerals.ParseSucceeds | Project_2/submission_new/proj2.c:109-121 | the parameter parses if and only if every token that is not empty is a numeral for an `int` |
| Numerals.TokensJoin | Project_2/submission_new/proj2.c:109-109 | the tokens hold no comma, and with commas between them they are the parameter again |
| Text.ShowThenParse | Project_2/submission_new/proj2.c:112-112 | `kstrtoint` undoes `%d` for every 32-bit value, in base 10 and with the base guessed |
| Text.ShowIntInjective | Project_4/part1/proj4.c:29-29 | distinct 32-bit values print differently |
| ProcListing.Log.PrintLine | Project_4/part1/proj4.c:25-29 | one line with an indent of one less than the depth, and none for depths 0 and 1 |
| ProcListing.Log.RecursiveSearch | Project_4/part1/proj4.c:18-35 | the recursion over siblings appends exactly the preorder listing |
| ProcListing.LineStarts | Project_4/part1/proj4.c:25-29 | the root and its children start with the dash, and each level below with two blanks more |
| ProcListing.SampleListing | Project_4/part1/proj4.c:18-35 | the log of a task with a child and a grandchild, character by character |
| ProcListing.ReadsLine | Project_4/part1/proj4.c:25-29 | indent, name and pid can be read back from a line, even when the name has brackets or spaces in it |
| ProcListing.ReadRows | Project_4/part1/proj4.c:30-34 | a forest is recovered from its preorder rows and depths, whatever shallower rows follow |
| ProcListing.ListingReadsBack | Project_4/part1/proj4.c:18-35 | reading line one as the root and an indent of k as depth k + 1 recovers the tree that was printed, if and only if no name in it has a newline and its pids are 32-bit |
| ProcListing.NewlineConfuses | Project_4/part1/proj4.c:29-34 | two different trees, one with a newline in a name, that print alike |
| ProcListing.ListingDeterminesTree | Project_4/part1/proj4.c:18-35 | trees with printable names that print alike are equal |
| TaskMirror.FileName | Project_4/part4/s2fs.c:298-298 | the name buffer keeps at most nine characters |
| TaskMirror.CreateFile | Project_4/part4/s2fs.c:199-226 | one file is added after the directory's other entries, which keep their values |
| TaskMirror.AddChildren | Project_4/part4/s2fs.c:316-323 | the loop adds the mirror of each child, in order |
| TaskMirror.RecursiveAdd | Project_4/part4/s2fs.c:289-326 | the directory grows by exactly the mirror of the task: a file, or a directory with its own file first |
| MirrorProofs.NameRoundTrip | Project_4/part4/s2fs.c:121-125 | a file's name parses back to its pid if and only if the pid is above -10^8 and below 10^9 |
| MirrorProofs.NamesInjective | Project_4/part4/s2fs.c:298-298 | names that fit are injective |
| MirrorProofs.MirrorInverts | Project_4/part4/s2fs.c:289-326 | rebuilding from the entries gives the task tree back, if and only if every pid in it fits in nine characters |
| MirrorProofs.OneFileEach | Project_4/part4/s2fs.c:307-324 | in the order made, exactly one file per task and one directory per task with children |
| MirrorProofs.EveryFileNamesItsTask | Project_4/part4/s2fs.c:121-130 | every file anywhere in the mirror parses back to the pid of the task it was made for |
| MirrorProofs.UniqueNames | Project_4/part4/s2fs.c:307-324 | with distinct pids no directory of the mirror holds two entries of one name |
| S2fsRead.OpenFile.Read | Project_4/part4/s2fs.c:115-143 | one read of the task the file's name stands for: what is returned is what was copied out and how far the offset moved, for faults and missing tasks too |
| S2fsRead.OpenFile.ReadMany | Project_4/part4/s2fs.c:132-142 | joined reads are the joined deliveries the next two rows are about |
| S2fsRead.EachRead | Project_4/part4/s2fs.c:132-142 | every read without a fault returns the bytes it copies, as many as asked for or left, and moves the offset by them; a fault inside the text returns -14 and moves nothing |
| S2fsRead.ReturnsAddUp | Project_4/part4/s2fs.c:132-142 | over any run of reads the returns that are not errors add up to the bytes joined and to the offset |
| S2fsRead.ReadsItsTask | Project_4/part4/s2fs.c:121-142 | through the file the mirror made for it, a task whose pid fits shows its own information |
| S2fsRead.NamedExactly | Project_4/part4/s2fs.c:119-130 | a file whose name is a decimal numeral for an `int` stands for that task, and any other for task 0 |
| S2fsRead.DeliversPrefix | Project_4/part4/s2fs.c:132-142 | whatever sizes are asked for, the bytes joined are a prefix of the text, as many as asked for or all, and the offset counts them |
| S2fsRead.NothingMore | Project_4/part4/s2fs.c:132-142 | after the end, and for a missing task, every further read returns 0 and moves nothing |
| IntList.TokensAtComma | Project_2/submission_new/proj2.c:109-111 | a comma splits the tokens of its two sides, wherever it stands |
| IntList.ExtraComma | Project_2/submission_new/proj2.c:109-111 | doubling a comma anywhere never changes the parse |
| IntList.OuterComma | Project_2/submission_new/proj2.c:109-111 | nor does a comma before the first token or after the last |
| IntList.PrintedOneByOne | Project_2/submission_new/proj2.c:200-207 | every number printed is followed by one blank, the last one too |
| IntList.PrintThenParse | Project_2/submission_new/proj2.c:199-207 | the printed list line with spaces turned into commas parses back to the same list, for any 32-bit values |
| OrderedTree.RotationKeepsOrder | Project_2/submission_new/proj2.c:77-77 | a rotation anywhere keeps the in-order walk |
| OrderedTree.RotationTurns | Project_2/submission_new/proj2.c:77-77 | a rotation turns the node at its path, and turning back undoes it |
| OrderedTree.RebalancingKeepsOrder | Project_2/submission_new/proj2.c:77-77 | so does any sequence of rotations |
| OrderedTree.PlugInOrder | Project_2/submission_new/proj2.c:58-75 | the walk of the whole tree around the slot the descent has reached |
| OrderedTree.Links | Project_2/submission_new/proj2.c:76-76 | linking at the slot found keeps the walk strictly ascending and adds exactly the value |
| OrderedTree.Insert | Project_2/submission_new/proj2.c:55-79 | a value already there is refused and changes nothing; any other is added, and the walk stays strictly ascending under any rebalancing |
| IntIndexes.Indexes.constructor | Project_2/submission_new/proj2.c:24-27 | the four empty containers agree |
| IntIndexes.Indexes.StoreValue | Project_2/submission_new/proj2.c:37-44 | appends to the list |
| IntIndexes.Indexes.StoreHashValue | Project_2/submission_new/proj2.c:46-53 | adds at the head of the value's bucket and touches no other |
| IntIndexes.Indexes.RbTreeInsert | Project_2/submission_new/proj2.c:81-87 | adds the value to the tree unless it is there |
| IntIndexes.Indexes.RadixInsert | Project_2/submission_new/proj2.c:89-96 | adds the value under its unsigned key unless the key is taken |
| IntIndexes.PushCounts | Project_2/submission_new/proj2.c:46-53 | a push into any bucket adds one occurrence to the walk of the hash |
| IntIndexes.WalkPlaces | Project_2/submission_new/proj2.c:210-214 | the walk of the hash takes the buckets in order and each from its head |
| IntIndexes.HashGrows | Project_2/submission_new/proj2.c:46-53 | each bucket stays the list's values with that hash, newest first |
| IntIndexes.Indexes.StoreEverywhere | Project_2/submission_new/proj2.c:115-118 | the four stores together keep the four containers in agreement |
| IntIndexes.Indexes.ParseParams | Project_2/submission_new/proj2.c:99-124 | returns 0 if and only if every token that is not empty is a numeral; the consuming loop stores the values before the first bad token, returns that token's error, and keeps the four in agreement |
| IntIndexes.Indexes.ProcShow | Project_2/submission_new/proj2.c:180-237 | a missing parameter or a bad token prints nothing; otherwise the four lines print the four walks |
| IntIndexes.PrintLine | Project_2/submission_new/proj2.c:200-206 | each printing loop writes every value followed by a space |
| IntIndexes.NextToken | Project_2/submission_new/proj2.c:109-114 | one turn of the loop against the parse of what remains |
| IntIndexes.SameSorted | Project_2/submission_new/proj2.c:224-236 | two strictly ascending walks over the same keys are equal |
| IntIndexes.RotatedKeysAscend | Project_2/submission_new/proj2.c:94-94 | widened to unsigned, the non-negative values and then the negative ones are in ascending order of key |
| IntIndexes.RadixIsRotatedTree | Project_2/submission_new/proj2.c:224-236 | the radix walk is the tree's in-order walk rotated, non-negatives first |
| IntIndexes.FourAgree | Project_2/submission_new/proj2.c:99-237 | from empty containers: list in order, buckets and multiset of the hash, distinct ascending tree walk, rotated radix walk |
| DemandPaging.SamePage | Project_3/part1/uffd.bu:166-168 | masking an address gives the start of the one page that holds it |
| DemandPaging.Region.constructor | Project_3/part1/uffd.bu:240-260 | a new region has no page in and no fault counted |
| DemandPaging.Region.Touch | Project_3/part1/uffd.bu:157-170 | a touch of a missing page costs one fault and fills that page, and only it, with the letter 65 + count mod 20; a touch of a present page changes nothing |
| DemandPaging.Region.ReadByte | Project_3/part1/uffd.bu:287-287 | reads the byte there after any fill |
| DemandPaging.Region.Discard | Project_3/part1/uffd.bu:324-326 | no page is in any more |
| DemandPaging.Region.SetChunk | Project_3/part1/uffd.bu:364-364 | writes 1024 bytes in one page, with at most that page's fault |
| DemandPaging.Region.ReadSweep | Project_3/part1/uffd.bu:285-291 | over a discarded region each page is faulted once, in order, and holds its own fault's letter; over a present one nothing is faulted or changed; every stop is read, and the `int` that steps never overflows |
| DemandPaging.Region.WriteSweep | Project_3/part1/uffd.bu:362-368 | every byte ends as the character, with one fault for each page that was missing, stepping an `int` |
| DemandPaging.SameNumber | Project_3/part1/uffd.bu:304-309 | only one number of stops of a stride covers a region |
| DemandPaging.SweepFitsExactly | Project_3/part1/uffd.bu:284-291 | every address a sweep computes is an `int` if and only if the region is no longer than the largest one |
| DemandPaging.PagesThatFit | Project_3/part1/uffd.bu:284-291 | with 4096-byte pages that is so up to 524287 pages, and fails from 524288 on |
| DemandPaging.FaultsFit | Project_3/part1/uffd.bu:157-158 | within that bound the fault counter cannot overflow either |
| DemandPaging.Region.ReadTwice | Project_3/part1/uffd.bu:285-309 | the re-read shows the same and faults nothing |
| DemandPaging.Region.WriteAndRead | Project_3/part1/uffd.bu:362-383 | what was written is read back |
| DemandPaging.Region.ShowsPlainly | Project_3/part1/uffd.bu:284-346 | stop k of a sweep shows 65 + (faults before + stride * k / page size) mod 20, at as many stops as strides in the region |
| DemandPaging.Region.RunSweeps | Project_3/part1/uffd.bu:284-411 | closed form of the run: page i shows 'A' + i mod 20, then 'A' + (n + i) mod 20 after the discard, then '@', then '^'; 3n faults in all, for every region within the bound |

## Left out

- Concurrency in part4.c beyond whole transactions, one-sided pipelining and one crossed pair of writes: a read crossing a write, longer overlaps of both machines, the two threads' races on the shared struct, partial TCP reads, start-up. Nothing is claimed of these.
- CoherenceMachine.Machine.EndRead: does not model a reply split or merged by TCP; replies are whole messages.
- CoherenceMachine.Machine.AskPage: does not model the printing of flags, nor the printing of local reads; the page contents they print are stated instead.
- CoherenceMachine.Machine.Write: does not model an empty input line, after which the message buffer keeps its previous contents.
- `fault_handler_thread` in part4.c, which masks with the page count; pages are zero when mapped. The `flush` and `addr` fields of the message struct, which the modelled code never reads after start-up.
- SocketLayer.Kernel.Fput: does not model deferred release; the last reference releases at once.
- SocketLayer.Kernel.SysClose: the body of `close` itself is not part of this model's source; what `sock_close` does at the last reference is.
- SocketLayer.Kernel.SockfdLookup: a shared descriptor table is a flag of the call; other threads closing the descriptor meanwhile are not modelled.
- SendMmsg.SysSendmmsg: the compat header layout and the contents of control messages; their copies only succeed or fail.
- In socket.c also: `request_module`, timestamps, ioctl, xattrs, socket names, receive paths.
- TaskMirror.CreateFile: does not model failed allocations, inode numbers or `i_private`. The log lines of `recursive_add` are those of the listing.
- S2fsRead.OpenFile.Read: the information a task prints to is a parameter, and so is which tasks there are; it does not model information longer than the source's buffer.
- MirrorProofs.MirrorInverts: the mirror does not keep program names, so the tree is rebuilt without them.
- OrderedTree.Insert: works on a tree value with the path walked kept beside it, where the source keeps a pointer to the slot; node colours are not modelled, and rebalancing is any sequence of rotations.
- IntIndexes.Indexes.RadixInsert: the radix tree is a map with an ascending walk, as its library promises; its nodes are not modelled.
- IntIndexes.Indexes.ProcShow: does not model `cleanup`, which frees everything afterwards, nor failed allocations.
- Text.ShowThenParse: `kstrtoint` and `%d` belong to the kernel's library, which is not in the repository; they are written from its documented behaviour.
- DemandPaging.Region.RunSweeps: does not cover regions past the largest `int`, where the step overflows and C promises nothing, the printed addresses, and the system calls that set the region up.
- Other copies of the same programs, the earlier parts of each project, demos, build files and the cipher in the system-call patch.
