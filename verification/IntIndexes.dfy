/** Four indexes fed from one parsed list: the list itself, a hash of eight buckets, an ordered
    tree and a radix tree.  After any run of insertions they describe the same integers. */
module IntIndexes {
  import opened Arith
  import opened Wrappers
  import opened Seqs
  import opened Text
  import opened IntList
  import opened Numerals
  import opened OrderedTree

  const BUCKETS := 8

  type Bucket = b: nat | b < BUCKETS

  /** The key given to the radix tree: an `int` widened to an unsigned long. */
  function RadixKey(v: int): nat
    requires IsInt(v)
  {
    if v < 0 then 0x1_0000_0000_0000_0000 + v else v
  }

  /** Buckets in order, each from its head. */
  function HashWalk(buckets: seq<seq<int>>): seq<int> {
    if buckets == [] then [] else buckets[0] + HashWalk(buckets[1..])
  }

  /** How many values stand in the first `h` buckets. */
  function Earlier(buckets: seq<seq<int>>, h: nat): nat
    requires h <= |buckets|
  {
    if h == 0 then 0 else Earlier(buckets, h - 1) + |buckets[h - 1]|
  }

  lemma {:induction false} EarlierShifts(buckets: seq<seq<int>>, h: nat)
    requires buckets != [] && 1 <= h <= |buckets|
    ensures Earlier(buckets, h) == |buckets[0]| + Earlier(buckets[1..], h - 1)
  {
    if h > 1 {
      EarlierShifts(buckets, h - 1);
    }
  }

  /** The walk of the hash takes the buckets in order and each from its head. */
  lemma {:induction false} WalkPlaces(buckets: seq<seq<int>>, h: nat, i: nat)
    requires h < |buckets| && i < |buckets[h]|
    ensures |HashWalk(buckets)| == Earlier(buckets, |buckets|)
    ensures Earlier(buckets, h) + i < |HashWalk(buckets)|
    ensures HashWalk(buckets)[Earlier(buckets, h) + i] == buckets[h][i]
    decreases |buckets|
  {
    EarlierShifts(buckets, |buckets|);
    WalkLength(buckets[1..]);
    if h > 0 {
      EarlierShifts(buckets, h);
      WalkPlaces(buckets[1..], h - 1, i);
    }
  }

  lemma {:induction false} WalkLength(buckets: seq<seq<int>>)
    ensures |HashWalk(buckets)| == Earlier(buckets, |buckets|)
  {
    if buckets != [] {
      EarlierShifts(buckets, |buckets|);
      WalkLength(buckets[1..]);
    }
  }

  // ----- the radix walk: slots in ascending order of index

  lemma {:induction false} LeastExists(keys: set<nat>)
    requires keys != {}
    ensures exists m :: m in keys && forall k :: k in keys ==> m <= k
  {
    var x :| x in keys;
    if keys != {x} {
      var rest := keys - {x};
      LeastExists(rest);
      var m :| m in rest && forall k :: k in rest ==> m <= k;
      var least := if x < m then x else m;
      assert forall k :: k in keys ==> k == x || k in rest;
      assert least in keys && forall k :: k in keys ==> least <= k;
    }
  }

  function Least(keys: set<nat>): (m: nat)
    requires keys != {}
    ensures m in keys && forall k :: k in keys ==> m <= k
  {
    LeastExists(keys);
    var m :| m in keys && forall k :: k in keys ==> m <= k;
    m
  }

  function SortedKeys(keys: set<nat>): (s: seq<nat>)
    ensures forall k :: k in s <==> k in keys
    ensures forall i, j :: 0 <= i < j < |s| ==> s[i] < s[j]
  {
    if keys == {} then []
    else
      var m := Least(keys);
      var rest := SortedKeys(keys - {m});
      assert forall i :: 0 <= i < |rest| ==> rest[i] in rest;
      [m] + rest
  }

  function RadixWalk(radix: map<nat, int>): (r: seq<int>)
    ensures |r| == |SortedKeys(radix.Keys)|
    ensures forall i :: 0 <= i < |r| ==> SortedKeys(radix.Keys)[i] in radix && r[i] == radix[SortedKeys(radix.Keys)[i]]
  {
    var keys := SortedKeys(radix.Keys);
    seq(|keys|, i requires 0 <= i < |keys| => radix[keys[i]])
  }

  // ----- agreement

  ghost predicate RadixAgrees(list: seq<int>, radix: map<nat, int>) {
    && (forall v :: v in list ==> IsInt(v) && RadixKey(v) in radix && radix[RadixKey(v)] == v)
    && (forall k :: k in radix ==> radix[k] in list)
    && (forall k :: k in radix ==> IsInt(radix[k]) && RadixKey(radix[k]) == k)
  }

  ghost predicate TreeAgrees(list: seq<int>, tree: Tree) {
    Ascending(InOrder(tree)) && forall v :: v in InOrder(tree) <==> v in list
  }

  /** The values of the list that hash to `h`, newest first. */
  function InBucket(list: seq<int>, hashOf: int -> Bucket, h: nat): seq<int> {
    if list == [] then []
    else
      var last := list[|list| - 1];
      (if hashOf(last) == h then [last] else []) + InBucket(list[..|list| - 1], hashOf, h)
  }

  ghost predicate HashAgrees(list: seq<int>, buckets: seq<seq<int>>, hashOf: int -> Bucket) {
    && |buckets| == BUCKETS
    && multiset(HashWalk(buckets)) == multiset(list)
    && forall h :: 0 <= h < BUCKETS ==> buckets[h] == InBucket(list, hashOf, h)
  }

  lemma HashGrows(list: seq<int>, v: int, before: seq<seq<int>>, after: seq<seq<int>>, hashOf: int -> Bucket)
    requires HashAgrees(list, before, hashOf)
    requires after == before[hashOf(v) := [v] + before[hashOf(v)]]
    ensures HashAgrees(list + [v], after, hashOf)
  {
    PushCounts(before, hashOf(v), v);
    hide HashWalk;
    assert (list + [v])[..|list|] == list;
    assert multiset(list + [v]) == multiset(list) + multiset{v};
    forall h | 0 <= h < BUCKETS ensures after[h] == InBucket(list + [v], hashOf, h) {
      assert [] + InBucket(list, hashOf, h) == InBucket(list, hashOf, h);
    }
  }

  lemma {:induction false} PushCounts(buckets: seq<seq<int>>, h: nat, v: int)
    requires h < |buckets|
    ensures multiset(HashWalk(buckets[h := [v] + buckets[h]])) == multiset(HashWalk(buckets)) + multiset{v}
  {
    var pushed := buckets[h := [v] + buckets[h]];
    if h == 0 {
      assert pushed[1..] == buckets[1..];
      Assoc([v], buckets[0], HashWalk(buckets[1..]));
    } else {
      assert pushed[1..] == buckets[1..][h - 1 := [v] + buckets[1..][h - 1]];
      PushCounts(buckets[1..], h - 1, v);
    }
  }

  class Indexes {
    const hashOf: int -> Bucket
    const rebalance: Tree -> seq<Rotation>
    const buckets: array<seq<int>>
    var list: seq<int>
    var tree: Tree
    var radix: map<nat, int>

    ghost predicate Agree()
      reads this, buckets
    {
      && HashAgrees(list, buckets[..], hashOf)
      && TreeAgrees(list, tree)
      && RadixAgrees(list, radix)
    }

    constructor (hashOf: int -> Bucket, rebalance: Tree -> seq<Rotation>)
      ensures Agree() && list == [] && fresh(buckets) && this.hashOf == hashOf
    {
      this.hashOf, this.rebalance := hashOf, rebalance;
      buckets := new seq<int>[BUCKETS](i => []);
      list, tree, radix := [], Leaf, map[];
      new;
      EmptyWalk(buckets[..]);
    }

    method StoreValue(v: int)
      modifies this`list
      ensures list == old(list) + [v]
    {
      list := list + [v];
    }

    method StoreHashValue(v: int)
      requires buckets.Length == BUCKETS
      modifies buckets
      ensures buckets[..] == old(buckets[..])[hashOf(v) := [v] + old(buckets[..])[hashOf(v)]]
    {
      var h := hashOf(v);
      buckets[h] := [v] + buckets[h];
    }

    /** A value already in the tree is refused there, and the refusal is ignored. */
    method RbTreeInsert(v: int)
      requires Ascending(InOrder(tree))
      modifies this`tree
      ensures Ascending(InOrder(tree))
      ensures forall y :: y in InOrder(tree) <==> y in InOrder(old(tree)) || y == v
    {
      var ret;
      tree, ret := Insert(tree, v, rebalance);
    }

    /** A key already in the radix tree is refused there, and the refusal is ignored. */
    method RadixInsert(v: int)
      requires IsInt(v)
      modifies this`radix
      ensures radix == if RadixKey(v) in old(radix) then old(radix) else old(radix)[RadixKey(v) := v]
      ensures (if v < 0 then 0x1_0000_0000_0000_0000 + v else v) in radix
    {
      if RadixKey(v) !in radix {
        radix := radix[RadixKey(v) := v];
      }
    }

    method StoreEverywhere(v: int)
      requires Agree() && IsInt(v)
      modifies this, buckets
      ensures Agree() && list == old(list) + [v]
    {
      hide HashAgrees, RadixAgrees, HashWalk, InOrder, Ascending;
      ghost var was := list;
      assert |buckets[..]| == BUCKETS by { BucketCount(was, buckets[..], hashOf); }
      StoreValue(v);
      StoreHashValue(v);
      RbTreeInsert(v);
      RadixInsert(v);
      HashGrows(was, v, old(buckets[..]), buckets[..], hashOf);
      RadixGrows(was, v, old(radix), radix);
    }

    /** The `strsep` loop: empty tokens are skipped, the first bad one ends it. */
    method ParseParams(intStr: string) returns (err: int)
      requires Agree()
      modifies this, buckets
      ensures Agree()
      ensures err == Parse(intStr).err && list == old(list) + Parse(intStr).vals
      ensures err == 0 <==> forall t :: t in Tokens(intStr) && t != "" ==> IsIntNumeral(t)
    {
      ParseSucceeds(intStr);
      hide IsIntNumeral;
      ghost var was := list;
      var params := Some(intStr);
      err := 0;
      assert was + Parse(intStr).vals == list + Parse(intStr).vals;
      while params.Some?
        invariant Agree() && err == 0
        invariant was + Parse(intStr).vals == list + (if params.Some? then Parse(params.value).vals else [])
        invariant Parse(intStr).err == if params.Some? then Parse(params.value).err else 0
        decreases if params.Some? then 1 + |params.value| else 0
      {
        var s := params.value;
        var n := UpToComma(s);
        var p := s[..n];
        params := if n < |s| then Some(s[n + 1..]) else None;
        NextToken(s);
        if p == "" {
          continue;
        }
        match KstrToInt(p, 0) {
          case Err(e) =>
            return e;
          case Ok(v) =>
            Assoc(list, [v], if params.Some? then Parse(params.value).vals else []);
            StoreEverywhere(v);
        }
      }
    }

    /** The four printed lines, when the parameter is there and parses. */
    method ProcShow(intStr: Option<string>) returns (err: int, text: string)
      requires Agree()
      modifies this, buckets
      ensures intStr.None? ==> err == -1 && text == ""
      ensures intStr.Some? ==> Agree() && err == Parse(intStr.value).err && list == old(list) + Parse(intStr.value).vals
      ensures intStr.Some? && err != 0 ==> text == ""
      ensures intStr.Some? && err == 0 ==>
                text == "Linked List = " + PrintList(list) + "\n"
                        + "Hash Table = " + PrintList(HashWalk(buckets[..])) + "\n"
                        + "R-B Tree = " + PrintList(InOrder(tree)) + "\n"
                        + "Radix Tree = " + PrintList(RadixWalk(radix)) + "\n"
    {
      if intStr.None? {
        return -1, "";
      }
      err := ParseParams(intStr.value);
      if err != 0 {
        return err, "";
      }
      var line1 := PrintLine(list);
      var line2 := PrintLine(HashWalk(buckets[..]));
      var line3 := PrintLine(InOrder(tree));
      var line4 := PrintLine(RadixWalk(radix));
      text := "Linked List = " + line1 + "\n"
              + "Hash Table = " + line2 + "\n"
              + "R-B Tree = " + line3 + "\n"
              + "Radix Tree = " + line4 + "\n";
    }
  }

  /** One printing loop. */
  method PrintLine(vals: seq<int>) returns (line: string)
    ensures line == PrintList(vals)
  {
    line := "";
    var k := 0;
    while k < |vals|
      invariant 0 <= k <= |vals|
      invariant PrintList(vals) == line + PrintList(vals[k..])
    {
      Assoc(line, ShowInt(vals[k]) + " ", PrintList(vals[k + 1..]));
      assert vals[k..][1..] == vals[k + 1..];
      line := line + (ShowInt(vals[k]) + " ");
      k := k + 1;
    }
  }

  lemma BucketCount(list: seq<int>, buckets: seq<seq<int>>, hashOf: int -> Bucket)
    requires HashAgrees(list, buckets, hashOf)
    ensures |buckets| == BUCKETS
  {
  }

  lemma {:induction false} EmptyWalk(buckets: seq<seq<int>>)
    requires forall i :: 0 <= i < |buckets| ==> buckets[i] == []
    ensures HashWalk(buckets) == []
  {
    if buckets != [] {
      EmptyWalk(buckets[1..]);
    }
  }

  lemma RadixGrows(list: seq<int>, v: int, before: map<nat, int>, after: map<nat, int>)
    requires IsInt(v) && RadixAgrees(list, before)
    requires after == if RadixKey(v) in before then before else before[RadixKey(v) := v]
    ensures RadixAgrees(list + [v], after)
  {
  }

  /** What one turn of the loop does to the rest of the parse. */
  lemma NextToken(s: string)
    ensures var n := UpToComma(s);
            var rest := if n < |s| then Parse(s[n + 1..]) else Parsed([], 0);
            Parse(s) ==
              if n == 0 then rest
              else match KstrToInt(s[..n], 0)
                   case Err(e) => Parsed([], e)
                   case Ok(v) => Parsed([v] + rest.vals, rest.err)
  {
    hide KstrToInt, ParseTokens;
    var n := UpToComma(s);
    var more := if n < |s| then Tokens(s[n + 1..]) else [];
    assert Tokens(s) == [s[..n]] + more;
    if n == 0 {
      assert Tokens(s)[1..] == more && Tokens(s)[0] == "";
      assert NonEmpty([]) == [];
      NothingParsed();
    } else {
      NonEmptyStep(s[..n], more);
      NothingParsed();
      ParseOne(s[..n], NonEmpty(more));
      assert n == |s| ==> NonEmpty(more) == [];
    }
  }

  lemma NothingParsed()
    ensures ParseTokens([]) == Parsed([], 0)
  {
  }

  lemma ParseOne(t: string, ts: seq<string>)
    ensures ParseTokens([t] + ts) ==
            match KstrToInt(t, 0)
            case Err(e) => Parsed([], e)
            case Ok(v) => Parsed([v] + ParseTokens(ts).vals, ParseTokens(ts).err)
  {
    hide KstrToInt;
    assert ([t] + ts)[1..] == ts;
  }

  // ----- the four walks agree

  /** Two strictly ascending walks over the same keys are the same. */
  lemma {:induction false} SameSorted(a: seq<nat>, b: seq<nat>)
    requires forall i, j :: 0 <= i < j < |a| ==> a[i] < a[j]
    requires forall i, j :: 0 <= i < j < |b| ==> b[i] < b[j]
    requires forall k :: k in a <==> k in b
    ensures a == b
  {
    if a == [] {
      SomeMember(b);
    } else {
      assert a[0] in b && b != [];
      assert b[0] in a;
      assert a[0] == b[0];
      forall k ensures k in a[1..] <==> k in b[1..] {
        TailMembers(a, k);
        TailMembers(b, k);
      }
      SameSorted(a[1..], b[1..]);
      assert a == [a[0]] + a[1..] && b == [b[0]] + b[1..];
    }
  }

  lemma SomeMember(s: seq<nat>)
    ensures s != [] ==> exists k :: k in s
  {
    if s != [] {
      assert s[0] in s;
    }
  }

  lemma TailMembers(s: seq<nat>, k: nat)
    requires s != [] && forall i, j :: 0 <= i < j < |s| ==> s[i] < s[j]
    ensures k in s[1..] <==> k in s && k != s[0]
  {
  }

  /** How many of an ascending list are negative: they come first. */
  function Negatives(s: seq<int>): (n: nat)
    requires Ascending(s)
    ensures n <= |s|
    ensures forall i :: 0 <= i < |s| ==> (s[i] < 0 <==> i < n)
  {
    if s == [] || s[0] >= 0 then 0 else 1 + Negatives(s[1..])
  }

  function Rotated(s: seq<int>): (r: seq<int>)
    requires Ascending(s)
    ensures |r| == |s|
    ensures forall i :: 0 <= i < |s| - Negatives(s) ==> r[i] == s[Negatives(s) + i]
    ensures forall i :: |s| - Negatives(s) <= i < |s| ==> r[i] == s[i - (|s| - Negatives(s))]
  {
    s[Negatives(s)..] + s[..Negatives(s)]
  }

  lemma RotatedKeysAscend(s: seq<int>, i: nat, j: nat)
    requires Ascending(s) && (forall v :: v in s ==> IsInt(v)) && i < j < |s|
    ensures IsInt(Rotated(s)[i]) && IsInt(Rotated(s)[j])
    ensures RadixKey(Rotated(s)[i]) < RadixKey(Rotated(s)[j])
  {
    hide Rotated, Negatives;
    var m := |s| - Negatives(s);
    var r := Rotated(s);
    var a, b := if i < m then Negatives(s) + i else i - m, if j < m then Negatives(s) + j else j - m;
    assert r[i] == s[a] && r[j] == s[b] && s[a] in s && s[b] in s;
  }

  lemma KeysOfRotated(s: seq<int>) returns (keys: seq<nat>)
    requires Ascending(s) && forall v :: v in s ==> IsInt(v)
    ensures |keys| == |s|
    ensures forall i :: 0 <= i < |keys| ==> IsInt(Rotated(s)[i]) && keys[i] == RadixKey(Rotated(s)[i])
    ensures forall i, j :: 0 <= i < j < |keys| ==> keys[i] < keys[j]
  {
    var r := Rotated(s);
    hide Rotated, Negatives, Ascending;
    forall i | 0 <= i < |r| ensures IsInt(r[i]) {
      RotatedMembers(s, r[i]);
      assert r[i] in r;
    }
    keys := seq(|s|, i requires 0 <= i < |s| => RadixKey(r[i]));
    forall i, j | 0 <= i < j < |keys| ensures keys[i] < keys[j] {
      RotatedKeysAscend(s, i, j);
    }
  }

  lemma SameKeys(r: seq<int>, keys: seq<nat>, radix: map<nat, int>)
    requires |keys| == |r| && forall i :: 0 <= i < |keys| ==> IsInt(r[i]) && keys[i] == RadixKey(r[i])
    requires forall v :: v in r ==> RadixKey(v) in radix
    requires forall k :: k in radix ==> radix[k] in r && RadixKey(radix[k]) == k
    ensures forall k :: k in keys <==> k in radix
  {
    forall k | k in keys ensures k in radix {
      var i :| 0 <= i < |keys| && keys[i] == k;
      assert r[i] in r;
    }
    forall k | k in radix ensures k in keys {
      var i :| 0 <= i < |r| && r[i] == radix[k];
      assert keys[i] == k;
    }
  }

  /** The radix walk is the tree's in-order walk rotated: non-negative values first, then the
      negative ones, whose keys are the largest. */
  lemma RadixIsRotatedTree(list: seq<int>, tree: Tree, radix: map<nat, int>)
    requires TreeAgrees(list, tree) && RadixAgrees(list, radix)
    ensures RadixWalk(radix) == Rotated(InOrder(tree))
  {
    hide InOrder;
    RadixIsRotated(InOrder(tree), radix);
  }

  lemma RadixIsRotated(s: seq<int>, radix: map<nat, int>)
    requires Ascending(s)
    requires forall v :: v in s ==> IsInt(v) && RadixKey(v) in radix && radix[RadixKey(v)] == v
    requires forall k :: k in radix ==> radix[k] in s
    requires forall k :: k in radix ==> IsInt(radix[k]) && RadixKey(radix[k]) == k
    ensures RadixWalk(radix) == Rotated(s)
  {
    hide Rotated, SortedKeys, Ascending, Negatives;
    var r := Rotated(s);
    var keys := KeysOfRotated(s);
    forall v ensures v in r <==> v in s {
      RotatedMembers(s, v);
    }
    SameKeys(r, keys, radix);
    SameSorted(keys, SortedKeys(radix.Keys));
    forall i | 0 <= i < |r| ensures RadixWalk(radix)[i] == r[i] {
      assert r[i] in r;
    }
  }

  lemma RotatedMembers(s: seq<int>, v: int)
    requires Ascending(s)
    ensures v in Rotated(s) <==> v in s
  {
    var n := Negatives(s);
    assert s == s[..n] + s[n..];
  }

  /** The four indexes agree: from empty containers a successful parse leaves the values in
      order in the list, each bucket of the hash holding its values newest first, the distinct
      values in ascending order in the tree, and those rotated in the radix tree. */
  method FourAgree(hashOf: int -> Bucket, rebalance: Tree -> seq<Rotation>, intStr: string)
    returns (err: int, ix: Indexes)
    ensures err == Parse(intStr).err && fresh(ix)
    ensures ix.list == Parse(intStr).vals
    ensures multiset(HashWalk(ix.buckets[..])) == multiset(ix.list) && ix.buckets.Length == BUCKETS
    ensures forall h :: 0 <= h < BUCKETS ==> ix.buckets[h] == InBucket(ix.list, hashOf, h)
    ensures Ascending(InOrder(ix.tree)) && forall v :: v in InOrder(ix.tree) <==> v in ix.list
    ensures RadixWalk(ix.radix) == Rotated(InOrder(ix.tree))
  {
    ix := new Indexes(hashOf, rebalance);
    err := ix.ParseParams(intStr);
    RadixIsRotatedTree(ix.list, ix.tree, ix.radix);
  }
}
