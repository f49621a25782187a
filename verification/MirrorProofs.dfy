/** The mirror is invertible, has one file per task and one directory per task with children,
    and gives distinct names to distinct pids, exactly as far as ten bytes reach. */
module MirrorProofs {
  import opened Arith
  import opened Wrappers
  import opened TaskTree
  import opened Text
  import opened TaskMirror

  // ----- what ten bytes can name

  /** Nine characters hold nine digits, or a sign and eight. */
  predicate Nameable(pid: int) {
    -100_000_000 < pid < 1_000_000_000
  }

  function Power10(k: nat): (p: nat)
    ensures p >= 1
  {
    if k == 0 then 1 else 10 * Power10(k - 1)
  }

  lemma Powers()
    ensures Power10(8) == 100_000_000 && Power10(9) == 1_000_000_000 && Power10(10) == 10_000_000_000
  {
    assert Power10(3) == 1000;
    assert Power10(6) == 1_000_000;
  }

  lemma {:induction false} DigitCount(n: nat, k: nat)
    requires 1 <= k
    ensures |Digits(n)| <= k <==> n < Power10(k)
  {
    if k == 1 {
      assert Power10(1) == 10;
    } else if n >= 10 {
      DigitCount(n / 10, k - 1);
    } else {
      AtLeastTen(k);
    }
  }

  lemma {:induction false} AtLeastTen(k: nat)
    requires 1 <= k
    ensures Power10(k) >= 10
  {
    if k > 1 {
      AtLeastTen(k - 1);
    }
  }

  /** The leading digits of a number are the digits of a smaller one. */
  lemma {:induction false} CutDigits(n: nat, k: nat) returns (m: int)
    requires 1 <= k < |Digits(n)|
    ensures 0 < m < n && Digits(n)[..k] == Digits(m)
  {
    if k == |Digits(n)| - 1 {
      m := n / 10;
    } else {
      m := CutDigits(n / 10, k);
      assert Digits(n)[..k] == Digits(n / 10)[..k];
    }
  }

  lemma NameLength(pid: int)
    ensures |ShowInt(pid)| < NAME_SIZE <==> Nameable(pid)
  {
    Powers();
    if pid < 0 {
      DigitCount(-pid, 8);
    } else {
      DigitCount(pid, 9);
    }
  }

  lemma CutNameDiffers(pid: int)
    requires IsInt(pid) && !Nameable(pid)
    ensures PidOfName(FileName(pid)) != Ok(pid)
  {
    NameLength(pid);
    if pid < 0 {
      DigitCount(-pid, 8);
      var m := CutDigits(-pid, 8);
      var w := -m;
      assert FileName(pid) == "-" + Digits(-pid)[..8] == ShowInt(w);
      ShowThenParse(w, 10);
    } else {
      DigitCount(pid, 9);
      var m := CutDigits(pid, 9);
      assert FileName(pid) == ShowInt(m);
      ShowThenParse(m, 10);
    }
  }

  /** A file's name leads back to its pid exactly when the pid fits in nine characters; among
      32-bit pids a longer one is always taken for another. */
  lemma NameRoundTrip(pid: int)
    requires IsInt(pid)
    ensures PidOfName(FileName(pid)) == Ok(pid) <==> Nameable(pid)
  {
    if Nameable(pid) {
      NameLength(pid);
      ShowThenParse(pid, 10);
    } else {
      CutNameDiffers(pid);
    }
  }

  lemma NamesInjective(p: int, q: int)
    requires Nameable(p) && Nameable(q) && FileName(p) == FileName(q)
    ensures p == q
  {
    NameRoundTrip(p);
    NameRoundTrip(q);
  }

  // ----- the inverse

  /** The tree a mirror can show: names of programs are not kept in it. */
  function Anonymous(t: Task): Task
    decreases t, 1
  {
    Task(t.pid, "", AllAnonymous(t.children))
  }

  function AllAnonymous(ts: seq<Task>): (r: seq<Task>)
    ensures |r| == |ts|
    decreases ts, 0
  {
    if ts == [] then [] else [Anonymous(ts[0])] + AllAnonymous(ts[1..])
  }

  function Rebuild(e: Entry): Option<Task>
    decreases e, 1
  {
    match e
    case FileEntry(name) =>
      (match PidOfName(name) case Ok(pid) => Some(Task(pid, "", [])) case Err(_) => None)
    case DirEntry(name, entries) =>
      if |entries| < 2 || entries[0] != FileEntry(name) then None
      else
        match PidOfName(name)
        case Err(_) => None
        case Ok(pid) =>
          match RebuildAll(entries[1..])
          case None => None
          case Some(ts) => Some(Task(pid, "", ts))
  }

  function RebuildAll(es: seq<Entry>): Option<seq<Task>>
    decreases es, 0
  {
    if es == [] then Some([])
    else
      match Rebuild(es[0])
      case None => None
      case Some(t) =>
        match RebuildAll(es[1..])
        case None => None
        case Some(ts) => Some([t] + ts)
  }

  ghost predicate HasName(t: Task) { Nameable(t.pid) }

  ghost predicate HasInt(t: Task) { IsInt(t.pid) }

  /** Rebuilding from the entries made gives the tree back exactly when every pid in it fits in
      nine characters. */
  lemma {:induction false} MirrorInverts(t: Task)
    requires Everywhere(t, HasInt)
    ensures Rebuild(Mirror(t)) == Some(Anonymous(t)) <==> Everywhere(t, HasName)
    decreases t, 1
  {
    hide Nameable, FileName, PidOfName;
    NameRoundTrip(t.pid);
    MirrorsInvert(t.children);
    if t.children != [] {
      var entries := [FileEntry(FileName(t.pid))] + Mirrors(t.children);
      assert entries[1..] == Mirrors(t.children);
    }
  }

  lemma {:induction false} MirrorsInvert(ts: seq<Task>)
    requires EverywhereIn(ts, HasInt)
    ensures RebuildAll(Mirrors(ts)) == Some(AllAnonymous(ts)) <==> EverywhereIn(ts, HasName)
    decreases ts, 0
  {
    if ts != [] {
      MirrorInverts(ts[0]);
      MirrorsInvert(ts[1..]);
      assert Mirrors(ts)[1..] == Mirrors(ts[1..]);
      assert AllAnonymous(ts)[1..] == AllAnonymous(ts[1..]);
      var head, rest := Rebuild(Mirror(ts[0])), RebuildAll(Mirrors(ts[1..]));
      if head.Some? && rest.Some? {
        assert ([head.value] + rest.value)[1..] == rest.value;
      }
    }
  }

  // ----- counting

  function Pids(t: Task): seq<int>
    decreases t, 1
  {
    [t.pid] + AllPids(t.children)
  }

  function AllPids(ts: seq<Task>): seq<int>
    decreases ts, 0
  {
    if ts == [] then [] else Pids(ts[0]) + AllPids(ts[1..])
  }

  function ParentPids(t: Task): seq<int>
    decreases t, 1
  {
    (if t.children == [] then [] else [t.pid]) + AllParentPids(t.children)
  }

  function AllParentPids(ts: seq<Task>): seq<int>
    decreases ts, 0
  {
    if ts == [] then [] else ParentPids(ts[0]) + AllParentPids(ts[1..])
  }

  function Files(e: Entry): seq<string>
    decreases e, 1
  {
    match e case FileEntry(name) => [name] case DirEntry(_, es) => AllFiles(es)
  }

  function AllFiles(es: seq<Entry>): seq<string>
    decreases es, 0
  {
    if es == [] then [] else Files(es[0]) + AllFiles(es[1..])
  }

  function Dirs(e: Entry): seq<string>
    decreases e, 1
  {
    match e case FileEntry(_) => [] case DirEntry(name, es) => [name] + AllDirs(es)
  }

  function AllDirs(es: seq<Entry>): seq<string>
    decreases es, 0
  {
    if es == [] then [] else Dirs(es[0]) + AllDirs(es[1..])
  }

  function NamesOf(pids: seq<int>): (r: seq<string>)
    ensures |r| == |pids| && forall k :: 0 <= k < |r| ==> r[k] == FileName(pids[k])
  {
    seq(|pids|, k requires 0 <= k < |pids| => FileName(pids[k]))
  }

  lemma NamesAppend(a: seq<int>, b: seq<int>)
    ensures NamesOf(a + b) == NamesOf(a) + NamesOf(b)
  {
    forall k | 0 <= k < |a + b| ensures NamesOf(a + b)[k] == (NamesOf(a) + NamesOf(b))[k] {
      assert (a + b)[k] == if k < |a| then a[k] else b[k - |a|];
    }
  }

  /** In the order made, the files are named after every task once, and the directories after
      every task with children once. */
  lemma {:induction false} OneFileEach(t: Task)
    ensures Files(Mirror(t)) == NamesOf(Pids(t))
    ensures Dirs(Mirror(t)) == NamesOf(ParentPids(t))
    decreases t, 1
  {
    hide FileName;
    NamesAppend([t.pid], AllPids(t.children));
    assert NamesOf([t.pid]) == [FileName(t.pid)];
    if t.children == [] {
      assert NamesOf(AllPids([])) == [] && NamesOf(ParentPids(t)) == [];
    } else {
      AllOneFileEach(t.children);
      OwnFileFirst(FileName(t.pid), Mirrors(t.children));
      hide Files, Dirs, AllFiles, AllDirs, Mirrors, NamesOf;
      NamesAppend([t.pid], AllParentPids(t.children));
    }
  }

  lemma OwnFileFirst(name: string, below: seq<Entry>)
    ensures Files(DirEntry(name, [FileEntry(name)] + below)) == [name] + AllFiles(below)
    ensures Dirs(DirEntry(name, [FileEntry(name)] + below)) == [name] + AllDirs(below)
  {
    var self := FileEntry(name);
    var entries := [self] + below;
    assert entries[1..] == below;
    assert AllFiles(entries) == Files(self) + AllFiles(entries[1..]);
    assert AllDirs(entries) == Dirs(self) + AllDirs(entries[1..]);
  }

  lemma {:induction false} AllOneFileEach(ts: seq<Task>)
    ensures AllFiles(Mirrors(ts)) == NamesOf(AllPids(ts))
    ensures AllDirs(Mirrors(ts)) == NamesOf(AllParentPids(ts))
    decreases ts, 0
  {
    hide FileName;
    if ts != [] {
      OneFileEach(ts[0]);
      AllOneFileEach(ts[1..]);
      assert Mirrors(ts)[1..] == Mirrors(ts[1..]);
      NamesAppend(Pids(ts[0]), AllPids(ts[1..]));
      NamesAppend(ParentPids(ts[0]), AllParentPids(ts[1..]));
    }
  }

  /** So every file anywhere in the mirror, read back by name, is that of a task it was made for. */
  lemma EveryFileNamesItsTask(t: Task, k: nat)
    requires k < |Pids(t)| && Nameable(Pids(t)[k])
    ensures |Files(Mirror(t))| == |Pids(t)|
    ensures PidOfName(Files(Mirror(t))[k]) == Ok(Pids(t)[k])
  {
    OneFileEach(t);
    NameRoundTrip(Pids(t)[k]);
  }

  // ----- names within a directory

  predicate Distinct<T(==)>(s: seq<T>) {
    forall i, j :: 0 <= i < j < |s| ==> s[i] != s[j]
  }

  function EntryNames(es: seq<Entry>): (r: seq<string>)
    ensures |r| == |es| && forall k :: 0 <= k < |r| ==> r[k] == es[k].name
  {
    seq(|es|, k requires 0 <= k < |es| => es[k].name)
  }

  /** No directory holds two entries of one name, here or below. */
  predicate NamesUnique(e: Entry)
    decreases e, 1
  {
    e.DirEntry? ==> Distinct(EntryNames(e.entries)) && AllNamesUnique(e.entries)
  }

  predicate AllNamesUnique(es: seq<Entry>)
    decreases es, 0
  {
    es == [] || (NamesUnique(es[0]) && AllNamesUnique(es[1..]))
  }

  function Heads(ts: seq<Task>): (r: seq<int>)
    ensures |r| == |ts| && forall k :: 0 <= k < |r| ==> r[k] == ts[k].pid
  {
    seq(|ts|, k requires 0 <= k < |ts| => ts[k].pid)
  }

  lemma DistinctParts<T>(a: seq<T>, b: seq<T>)
    requires Distinct(a + b)
    ensures Distinct(a) && Distinct(b)
    ensures forall x :: x in a ==> x !in b
  {
    forall i, j | 0 <= i < |a| && 0 <= j < |b| ensures a[i] != b[j] {
      assert (a + b)[i] == a[i] && (a + b)[|a| + j] == b[j];
    }
    forall i, j | 0 <= i < j < |b| ensures b[i] != b[j] {
      assert (a + b)[|a| + i] == b[i] && (a + b)[|a| + j] == b[j];
    }
    forall i, j | 0 <= i < j < |a| ensures a[i] != a[j] {
      assert (a + b)[i] == a[i] && (a + b)[j] == a[j];
    }
  }

  lemma {:induction false} HeadsDistinct(ts: seq<Task>)
    requires Distinct(AllPids(ts))
    ensures Distinct(Heads(ts))
    ensures forall x :: x in Heads(ts) ==> x in AllPids(ts)
  {
    if ts != [] {
      DistinctParts(Pids(ts[0]), AllPids(ts[1..]));
      HeadsDistinct(ts[1..]);
      assert Heads(ts) == [ts[0].pid] + Heads(ts[1..]);
      assert ts[0].pid in Pids(ts[0]);
    }
  }

  lemma {:induction false} NameableHeads(ts: seq<Task>)
    requires EverywhereIn(ts, HasName)
    ensures forall k :: 0 <= k < |ts| ==> Nameable(ts[k].pid)
    ensures forall k :: 0 <= k < |ts| ==> Mirrors(ts)[k].name == FileName(ts[k].pid)
  {
    if ts != [] {
      NameableHeads(ts[1..]);
    }
  }

  lemma ChildNamesDistinct(t: Task)
    requires Everywhere(t, HasName) && Distinct(Pids(t)) && t.children != []
    ensures Distinct(EntryNames(Mirror(t).entries))
  {
    var pids := [t.pid] + Heads(t.children);
    DistinctParts([t.pid], AllPids(t.children));
    HeadsDistinct(t.children);
    NameableHeads(t.children);
    var names := EntryNames(Mirror(t).entries);
    forall k | 0 <= k < |names| ensures names[k] == FileName(pids[k]) && Nameable(pids[k]) {
    }
    forall i, j | 0 <= i < j < |names| ensures names[i] != names[j] {
      assert t.pid in [t.pid] && pids[j] in Heads(t.children);
      if names[i] == names[j] {
        NamesInjective(pids[i], pids[j]);
      }
    }
  }

  /** With distinct pids, names are unique within every directory of the mirror. */
  lemma {:induction false} UniqueNames(t: Task)
    requires Everywhere(t, HasName) && Distinct(Pids(t))
    ensures NamesUnique(Mirror(t))
    decreases t, 1
  {
    if t.children != [] {
      ChildNamesDistinct(t);
      DistinctParts([t.pid], AllPids(t.children));
      AllUniqueNames(t.children);
      var es := Mirror(t).entries;
      assert es[1..] == Mirrors(t.children) && NamesUnique(es[0]);
    }
  }

  lemma {:induction false} AllUniqueNames(ts: seq<Task>)
    requires EverywhereIn(ts, HasName) && Distinct(AllPids(ts))
    ensures AllNamesUnique(Mirrors(ts))
    decreases ts, 0
  {
    if ts != [] {
      DistinctParts(Pids(ts[0]), AllPids(ts[1..]));
      UniqueNames(ts[0]);
      AllUniqueNames(ts[1..]);
      assert Mirrors(ts)[1..] == Mirrors(ts[1..]);
    }
  }
}
