/** The process tree mirrored as directories and files, with names printed into ten bytes. */
module TaskMirror {
  import opened Wrappers
  import opened TaskTree
  import opened Text

  const NAME_SIZE := 10

  /** `snprintf` into ten bytes keeps at most nine characters. */
  function FileName(pid: int): (s: string)
    ensures |s| <= 9 && s <= ShowInt(pid) && (|s| == 9 || s == ShowInt(pid))
  {
    var s := ShowInt(pid);
    if |s| < NAME_SIZE then s else s[..NAME_SIZE - 1]
  }

  /** What a read of a file takes its name to mean. */
  function PidOfName(name: string): Result<int> {
    KstrToInt(name, 10)
  }

  datatype Entry = FileEntry(name: string) | DirEntry(name: string, entries: seq<Entry>)

  /** What `recursive_add` makes for one task. */
  function Mirror(t: Task): Entry
    decreases t, 1
  {
    if t.children == [] then FileEntry(FileName(t.pid))
    else DirEntry(FileName(t.pid), [FileEntry(FileName(t.pid))] + Mirrors(t.children))
  }

  function Mirrors(ts: seq<Task>): (es: seq<Entry>)
    ensures |es| == |ts|
    decreases ts, 0
  {
    if ts == [] then [] else [Mirror(ts[0])] + Mirrors(ts[1..])
  }

  lemma {:induction false} MirrorsAppend(ts: seq<Task>, t: Task)
    ensures Mirrors(ts + [t]) == Mirrors(ts) + [Mirror(t)]
  {
    hide Mirror;
    if ts == [] {
      assert Mirrors([t]) == [Mirror(t)] + Mirrors([t][1..]);
    } else {
      MirrorsAppend(ts[1..], t);
      assert (ts + [t])[1..] == ts[1..] + [t];
    }
  }

  // ----- the directory tree in memory

  class Dentry {
    const name: string
    const isDir: bool
    var subdirs: seq<Dentry>
    ghost var repr: set<Dentry>

    ghost predicate Valid()
      reads this, repr
      decreases repr
    {
      && this in repr
      && (!isDir ==> subdirs == [])
      && (forall i :: 0 <= i < |subdirs| ==>
            subdirs[i] in repr && subdirs[i].repr <= repr && this !in subdirs[i].repr && subdirs[i].Valid())
      && (forall i, j :: 0 <= i < j < |subdirs| ==> subdirs[i].repr !! subdirs[j].repr)
    }

    ghost function Value(): Entry
      reads this, repr
      requires Valid()
      decreases repr, |subdirs| + 1
    {
      if isDir then DirEntry(name, Values(|subdirs|)) else FileEntry(name)
    }

    /** The first `n` entries of the directory. */
    ghost function Values(n: nat): (es: seq<Entry>)
      reads this, repr
      requires Valid() && n <= |subdirs|
      ensures |es| == n
      decreases repr, n
    {
      if n == 0 then [] else Values(n - 1) + [subdirs[n - 1].Value()]
    }

    constructor (name: string, isDir: bool)
      ensures Valid() && fresh(repr) && repr == {this} && subdirs == []
      ensures this.name == name && this.isDir == isDir
    {
      this.name, this.isDir := name, isDir;
      subdirs, repr := [], {this};
    }

    /** Entries already there keep their values when something is added after them. */
    twostate lemma ValuesKept(n: nat)
      requires old(Valid()) && Valid() && n <= old(|subdirs|) && n <= |subdirs|
      requires subdirs[..n] == old(subdirs[..n])
      requires forall d :: d in old(repr) && d != this ==> unchanged(d)
      ensures Values(n) == old(Values(n))
    {
      if n > 0 {
        assert subdirs[n - 1] == subdirs[..n][n - 1] && old(subdirs[n - 1]) == old(subdirs[..n])[n - 1];
        assert subdirs[..n - 1] == subdirs[..n][..n - 1];
        ValuesKept(n - 1);
      }
    }
  }

  /** A subtree hung on a directory adds exactly its own value. */
  twostate lemma Hung(dir: Dentry, new sub: Dentry)
    requires old(dir.Valid()) && dir.isDir && sub.Valid()
    requires dir.subdirs == old(dir.subdirs) + [sub]
    requires dir.repr == old(dir.repr) + sub.repr && old(dir.repr) !! sub.repr
    requires forall d :: d in old(dir.repr) && d != dir ==> unchanged(d)
    ensures dir.Valid()
    ensures dir.Values(|dir.subdirs|) == old(dir.Values(|dir.subdirs|)) + [sub.Value()]
  {
    var n := old(|dir.subdirs|);
    forall i | 0 <= i < |dir.subdirs|
      ensures dir.subdirs[i] in dir.repr && dir.subdirs[i].repr <= dir.repr
      ensures dir !in dir.subdirs[i].repr && dir.subdirs[i].Valid()
    {
      assert i < n ==> dir.subdirs[i] == old(dir.subdirs[i]);
    }
    assert dir.Valid();
    assert dir.subdirs[..n] == old(dir.subdirs[..n]);
    dir.ValuesKept(n);
  }

  method CreateFile(dir: Dentry, name: string)
    requires dir.Valid() && dir.isDir
    modifies dir
    ensures dir.Valid() && fresh(dir.repr - old(dir.repr)) && old(dir.repr) <= dir.repr
    ensures dir.Values(|dir.subdirs|) == old(dir.Values(|dir.subdirs|)) + [FileEntry(name)]
  {
    var d := new Dentry(name, false);
    dir.subdirs := dir.subdirs + [d];
    dir.repr := dir.repr + d.repr;
    Hung(dir, d);
  }

  method RecursiveAdd(task: Task, rootd: Dentry)
    requires rootd.Valid() && rootd.isDir
    modifies rootd
    ensures rootd.Valid() && fresh(rootd.repr - old(rootd.repr)) && old(rootd.repr) <= rootd.repr
    ensures rootd.Values(|rootd.subdirs|) == old(rootd.Values(|rootd.subdirs|)) + [Mirror(task)]
    decreases task
  {
    var fileName := FileName(task.pid);
    if task.children == [] {
      CreateFile(rootd, fileName);
    } else {
      var sub := new Dentry(fileName, true);
      rootd.subdirs := rootd.subdirs + [sub];
      assert sub.Values(|sub.subdirs|) == [];
      CreateFile(sub, fileName);
      assert sub.Values(|sub.subdirs|) == [FileEntry(fileName)];
      AddChildren(task.children, sub);
      ghost var entry := sub.Value();
      assert entry == DirEntry(fileName, [FileEntry(fileName)] + Mirrors(task.children));
      assert entry == Mirror(task);
      rootd.repr := rootd.repr + sub.repr;
      assert sub.Valid() && sub.Value() == entry;
      hide Mirror, Mirrors;
      Hung(rootd, sub);
    }
  }

  /** The loop over the children, all under the directory just made. */
  method AddChildren(children: seq<Task>, sub: Dentry)
    requires sub.Valid() && sub.isDir
    modifies sub
    ensures sub.Valid() && fresh(sub.repr - old(sub.repr)) && old(sub.repr) <= sub.repr
    ensures sub.Values(|sub.subdirs|) == old(sub.Values(|sub.subdirs|)) + Mirrors(children)
    decreases children
  {
    hide Mirror;
    ghost var before := sub.Values(|sub.subdirs|);
    var k := 0;
    assert before + [] == before;
    while k < |children|
      invariant 0 <= k <= |children|
      invariant sub.Valid() && fresh(sub.repr - old(sub.repr)) && old(sub.repr) <= sub.repr
      invariant sub.Values(|sub.subdirs|) == before + Mirrors(children[..k])
    {
      RecursiveAdd(children[k], sub);
      MirrorsAppend(children[..k], children[k]);
      assert children[..k + 1] == children[..k] + [children[k]];
      k := k + 1;
    }
    assert children[..k] == children;
  }
}
