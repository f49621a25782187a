/** A region whose missing pages are filled on first touch by a handler that counts its faults,
    and the eight sweeps run over it. */
module DemandPaging {
  import opened Arith

  const CHUNK := 1024

  function FillChar(fault: nat): char {
    'A' + (fault % 20) as char
  }

  /** The page an address lies in, and the address that page starts at: with a page size that is
      a power of two, clearing the low bits. */
  function PageOf(l: nat, pageSize: nat): nat
    requires pageSize > 0
  {
    l / pageSize
  }

  function PageBase(l: nat, pageSize: nat): nat
    requires pageSize > 0
  {
    l - l % pageSize
  }

  lemma Quotient(i: nat, p: nat, pageSize: nat)
    requires pageSize > 0
    ensures Times(p, pageSize) <= i < Times(p, pageSize) + pageSize <==> PageOf(i, pageSize) == p
  {
    var q, r := i / pageSize, i % pageSize;
    assert i == q * pageSize + r;
    if q < p {
      TimesApart(q, p, pageSize);
    } else if p < q {
      TimesApart(p, q, pageSize);
    }
  }

  lemma SamePage(l: nat, i: nat, pageSize: nat)
    requires pageSize > 0
    ensures PageBase(l, pageSize) <= i < PageBase(l, pageSize) + pageSize
            <==> PageOf(i, pageSize) == PageOf(l, pageSize)
    ensures PageBase(l, pageSize) <= l
  {
    Quotient(i, PageOf(l, pageSize), pageSize);
    assert PageBase(l, pageSize) == Times(PageOf(l, pageSize), pageSize);
  }

  lemma PageInRange(l: nat, pages: nat, pageSize: nat)
    requires pageSize > 0
    ensures l < Times(pages, pageSize) <==> PageOf(l, pageSize) < pages
    ensures l < Times(pages, pageSize) ==> PageBase(l, pageSize) + pageSize <= Times(pages, pageSize)
  {
    var p := PageOf(l, pageSize);
    Quotient(l, p, pageSize);
    if p < pages {
      TimesApart(p, pages, pageSize);
      assert PageBase(l, pageSize) == Times(p, pageSize);
    } else if pages < p {
      TimesApart(pages, p, pageSize);
    }
  }

  /** One stride of at most a page goes to the same page or the next. */
  lemma NextPage(l: nat, stride: nat, pageSize: nat)
    requires 0 < stride <= pageSize
    ensures PageOf(l, pageSize) <= PageOf(l + stride, pageSize) <= PageOf(l, pageSize) + 1
  {
    var p, q := PageOf(l, pageSize), PageOf(l + stride, pageSize);
    Quotient(l, p, pageSize);
    Quotient(l + stride, q, pageSize);
    if q < p {
      TimesApart(q, p, pageSize);
    } else if p + 1 < q {
      TimesApart(p + 1, q, pageSize);
      TimesApart(p, p + 1, pageSize);
    }
  }

  /** How many pages a sweep that is about to visit `l` has visited. */
  function Visited(l: nat, stride: nat, pageSize: nat): nat
    requires 0 < stride <= pageSize
  {
    if l < stride then 0 else PageOf(l - stride, pageSize) + 1
  }

  lemma VisitedNext(l: nat, stride: nat, pageSize: nat)
    requires 0 < stride <= pageSize && (l == 0 || l >= stride)
    ensures Visited(l, stride, pageSize) - 1 <= PageOf(l, pageSize) <= Visited(l, stride, pageSize)
    ensures Visited(l + stride, stride, pageSize) == PageOf(l, pageSize) + 1
  {
    if l == 0 {
      Quotient(0, 0, pageSize);
    } else {
      NextPage(l - stride, stride, pageSize);
    }
  }

  lemma VisitedAll(l: nat, stride: nat, pages: nat, pageSize: nat)
    requires 0 < stride <= pageSize && Times(pages, pageSize) <= l
    requires l == 0 || (l >= stride && l - stride < Times(pages, pageSize))
    ensures Visited(l, stride, pageSize) == pages
  {
    if l == 0 {
      if pages > 0 { TimesApart(0, pages, pageSize); }
    } else {
      PageInRange(l - stride, pages, pageSize);
      var p := PageOf(l - stride, pageSize);
      Quotient(l - stride, p, pageSize);
      if p + 1 < pages {
        TimesApart(p, p + 1, pageSize);
        TimesApart(p + 1, pages, pageSize);
      }
    }
  }

  predicate Aligned(l: nat) { l % CHUNK == 0 }

  lemma AlignedNext(l: nat, length: nat)
    requires Aligned(l) && Aligned(length) && l < length
    ensures l + CHUNK <= length && Aligned(l + CHUNK)
  {
  }

  class Region {
    const pageSize: nat
    const pages: nat
    const mem: array<char>
    const present: array<bool>
    var faults: nat

    ghost predicate Valid() {
      pageSize > 0 && mem.Length == Times(pages, pageSize) && present.Length == pages
    }

    ghost predicate AllAbsent()
      reads this, present
    {
      forall p :: 0 <= p < present.Length ==> !present[p]
    }

    ghost predicate AllPresent()
      reads this, present
    {
      forall p :: 0 <= p < present.Length ==> present[p]
    }

    constructor (pages: nat, pageSize: nat)
      requires pageSize > 0
      ensures Valid() && AllAbsent() && faults == 0
      ensures this.pages == pages && this.pageSize == pageSize
      ensures fresh(mem) && fresh(present)
    {
      this.pages, this.pageSize := pages, pageSize;
      mem := new char[Times(pages, pageSize)];
      present := new bool[pages](i => false);
      faults := 0;
    }

    /** A touch of a missing page stops for the handler, which fills the whole page. */
    method Touch(l: nat)
      requires Valid() && l < mem.Length
      modifies this`faults, mem, present
      ensures PageOf(l, pageSize) < present.Length
      ensures old(present[PageOf(l, pageSize)]) ==> faults == old(faults) && mem[..] == old(mem[..])
      ensures !old(present[PageOf(l, pageSize)]) ==>
                && faults == old(faults) + 1
                && forall i :: 0 <= i < mem.Length ==>
                     mem[i] == if PageOf(i, pageSize) == PageOf(l, pageSize) then FillChar(old(faults)) else old(mem[i])
      ensures !old(present[PageOf(l, pageSize)]) ==>
                forall i :: 0 <= i < mem.Length && i / pageSize == l / pageSize ==>
                  mem[i] as int == 65 + old(faults) % 20 && 'A' <= mem[i] <= 'T'
      ensures present[..] == old(present[..])[PageOf(l, pageSize) := true]
    {
      PageInRange(l, pages, pageSize);
      var p := PageOf(l, pageSize);
      if !present[p] {
        var dst := PageBase(l, pageSize);
        var c := FillChar(faults);
        faults := faults + 1;
        forall i | dst <= i < dst + pageSize {
          mem[i] := c;
        }
        present[p] := true;
        forall i: nat ensures dst <= i < dst + pageSize <==> PageOf(i, pageSize) == p {
          SamePage(l, i, pageSize);
        }
      }
    }

    method ReadByte(l: nat) returns (c: char)
      requires Valid() && l < mem.Length
      modifies this`faults, mem, present
      ensures PageOf(l, pageSize) < present.Length
      ensures old(present[PageOf(l, pageSize)]) ==> faults == old(faults) && mem[..] == old(mem[..])
      ensures !old(present[PageOf(l, pageSize)]) ==>
                && faults == old(faults) + 1
                && forall i :: 0 <= i < mem.Length ==>
                     mem[i] == if PageOf(i, pageSize) == PageOf(l, pageSize) then FillChar(old(faults)) else old(mem[i])
      ensures present[..] == old(present[..])[PageOf(l, pageSize) := true]
      ensures c == mem[l]
    {
      Touch(l);
      c := mem[l];
    }

    /** `madvise(MADV_DONTNEED)` over the whole region. */
    method Discard()
      modifies present
      ensures AllAbsent()
    {
      forall p | 0 <= p < present.Length {
        present[p] := false;
      }
    }

    /** A sweep of a discarded region in progress: exactly the first `v` pages are in, each
        filled by its own fault. */
    ghost predicate Swept(start: nat, v: nat)
      reads this, mem, present
      requires Valid()
    {
      && v <= pages && faults == start + v
      && (forall p :: 0 <= p < pages ==> (present[p] <==> p < v))
      && (forall i :: 0 <= i < mem.Length && PageOf(i, pageSize) < v ==>
            mem[i] == FillChar(start + PageOf(i, pageSize)))
    }

    /** What a sweep has read: each stop's byte, as it still is, all in the first `v` pages. */
    ghost predicate ReadOut(out: seq<char>, stride: nat, v: nat)
      reads this, mem
      requires Valid()
    {
      forall k :: 0 <= k < |out| ==>
        Times(k, stride) < mem.Length && out[k] == mem[Times(k, stride)] && PageOf(Times(k, stride), pageSize) < v
    }

    /** Where a read sweep is: the first `v` pages of a discarded region are in, or a present
        region is as it was. */
    ghost predicate Sweeping(absent: bool, start: nat, was: seq<char>, v: nat)
      reads this, mem, present
      requires Valid()
    {
      if absent then Swept(start, v) else AllPresent() && faults == start && mem[..] == was
    }

    method ReadNext(l: nat, ghost absent: bool, ghost start: nat, ghost was: seq<char>, ghost v: nat,
                    ghost out: seq<char>, ghost stride: nat)
      returns (c: char)
      requires Valid() && l < mem.Length && PageOf(l, pageSize) < pages
      requires v - 1 <= PageOf(l, pageSize) <= v && l == Times(|out|, stride)
      requires ReadOut(out, stride, v) && Sweeping(absent, start, was, v)
      modifies this`faults, mem, present
      ensures c == mem[l] && ReadOut(out + [c], stride, PageOf(l, pageSize) + 1)
      ensures Sweeping(absent, start, was, PageOf(l, pageSize) + 1)
    {
      hide PageOf, FillChar, Times;
      c := ReadByte(l);
    }

    /** The loop of a read sweep. */
    method ReadEach(stride: nat, ghost absent: bool, ghost start: nat, ghost was: seq<char>) returns (out: seq<char>)
      requires Valid() && 0 < stride <= pageSize && mem.Length + stride <= INT_MAX + 1
      requires Sweeping(absent, start, was, 0)
      modifies this`faults, mem, present
      ensures ReadOut(out, stride, pages) && StopsEnd(|out|, stride) && Sweeping(absent, start, was, pages)
    {
      assert Visited(0, stride, pageSize) == 0 && Times(0, stride) == 0 && Times(0, pageSize) == 0;
      assert ReadOut([], stride, 0);
      hide PageOf, Times, Visited, FillChar, ReadOut, Sweeping;
      out := [];
      var l: Int32 := 0;
      while l < mem.Length
        invariant l == Times(|out|, stride) && (l == 0 || (l >= stride && l - stride < mem.Length))
        invariant ReadOut(out, stride, Visited(l, stride, pageSize))
        invariant Sweeping(absent, start, was, Visited(l, stride, pageSize))
        decreases mem.Length + stride - l
      {
        VisitedNext(l, stride, pageSize);
        PageInRange(l, pages, pageSize);
        var c := ReadNext(l, absent, start, was, Visited(l, stride, pageSize), out, stride);
        TimesNext(|out|, stride);
        out := out + [c];
        l := l + stride;
      }
      VisitedAll(l, stride, pages, pageSize);
      StopsAt(|out|, stride, l);
    }

    /** A read sweep: over a discarded region it faults each page in once, in order; over a
        present one it faults nothing and changes nothing. */
    method ReadSweep(stride: nat) returns (out: seq<char>)
      requires Valid() && 0 < stride <= pageSize && (AllAbsent() || AllPresent())
      requires mem.Length + stride <= INT_MAX + 1
      modifies this`faults, mem, present
      ensures AllPresent()
      ensures forall k :: 0 <= k < |out| ==> Times(k, stride) < mem.Length && out[k] == mem[Times(k, stride)]
      ensures StopsEnd(|out|, stride)
      ensures old(AllPresent()) ==> faults == old(faults) && mem[..] == old(mem[..])
      ensures old(AllAbsent()) ==> faults == old(faults) + pages
      ensures old(AllAbsent()) ==>
                forall i :: 0 <= i < mem.Length ==> mem[i] == FillChar(old(faults) + PageOf(i, pageSize))
    {
      ghost var absent, start := !AllPresent(), faults;
      assert AllAbsent() && AllPresent() ==> pages == 0 by {
        if pages > 0 { assert present[0] || !present[0]; }
      }
      assert Times(0, pageSize) == 0;
      hide PageOf, Times, FillChar, ReadOut;
      out := ReadEach(stride, absent, start, mem[..]);
      ReadOutAll(out, stride);
      if absent {
        SweptAll(start);
      }
    }

    lemma ReadOutAll(out: seq<char>, stride: nat)
      requires Valid() && ReadOut(out, stride, pages)
      ensures forall k :: 0 <= k < |out| ==> Times(k, stride) < mem.Length && out[k] == mem[Times(k, stride)]
    {
      hide PageOf, Times;
    }

    lemma StopsAt(n: nat, stride: nat, l: nat)
      requires Valid() && stride > 0 && l == Times(n, stride) >= mem.Length
      requires l == 0 || (l >= stride && l - stride < mem.Length)
      ensures StopsEnd(n, stride)
    {
      if n > 0 {
        TimesNext(n - 1, stride);
      }
    }

    lemma SweptAll(start: nat)
      requires Valid() && Swept(start, pages)
      ensures AllPresent() && faults == start + pages
      ensures forall i :: 0 <= i < mem.Length ==> mem[i] == FillChar(start + PageOf(i, pageSize))
    {
      hide PageOf, FillChar;
      forall i | 0 <= i < mem.Length ensures PageOf(i, pageSize) < pages {
        PageInRange(i, pages, pageSize);
      }
    }

    /** `memset` of one chunk, which never crosses a page. */
    method SetChunk(l: nat, c: char)
      requires Valid() && l + CHUNK <= mem.Length && pageSize % CHUNK == 0 && Aligned(l)
      modifies this`faults, mem, present
      ensures PageOf(l, pageSize) < present.Length
      ensures faults == old(faults) + if old(present[PageOf(l, pageSize)]) then 0 else 1
      ensures present[..] == old(present[..])[PageOf(l, pageSize) := true]
      ensures forall i :: l <= i < l + CHUNK ==> mem[i] == c
      ensures forall i :: 0 <= i < mem.Length && !(l <= i < l + CHUNK) ==>
                || mem[i] == old(mem[i])
                || (PageOf(i, pageSize) == PageOf(l, pageSize) && !old(present[PageOf(l, pageSize)]))
    {
      Touch(l);
      forall i | l <= i < l + CHUNK {
        mem[i] := c;
      }
    }

    /** A write sweep: chunk by chunk, reading each back.  It faults a missing page once and
        leaves every byte of the region holding the character. */
    method WriteSweep(c: char) returns (out: seq<char>)
      requires Valid() && pageSize % CHUNK == 0 && (AllAbsent() || AllPresent())
      requires mem.Length <= INT_MAX
      modifies this`faults, mem, present
      ensures AllPresent()
      ensures forall k :: 0 <= k < |out| ==> out[k] == c
      ensures Times(|out|, CHUNK) == mem.Length
      ensures forall i :: 0 <= i < mem.Length ==> mem[i] == c
      ensures old(AllPresent()) ==> faults == old(faults)
      ensures old(AllAbsent()) ==> faults == old(faults) + pages
    {
      ghost var absent, start := !AllPresent(), faults;
      assert AllAbsent() && AllPresent() ==> pages == 0 by {
        if pages > 0 { assert present[0] || !present[0]; }
      }
      WholeChunks(pages, pageSize);
      assert Visited(0, CHUNK, pageSize) == 0 && Times(0, CHUNK) == 0 && Times(0, pageSize) == 0;
      assert absent ==> Written(start, 0, 0);
      assert Aligned(0) && Aligned(mem.Length);
      hide PageOf, Times, Visited, Written, Aligned;
      out := [];
      var l: Int32 := 0;
      while l < mem.Length
        invariant l == Times(|out|, CHUNK) && Aligned(l) && l <= mem.Length
        invariant l == 0 || l >= CHUNK
        invariant forall k :: 0 <= k < |out| ==> out[k] == c
        invariant forall i :: 0 <= i < l ==> mem[i] == c
        invariant if absent then Written(start, Visited(l, CHUNK, pageSize), l) else AllPresent() && faults == start
      {
        VisitedNext(l, CHUNK, pageSize);
        PageInRange(l, pages, pageSize);
        AlignedNext(l, mem.Length);
        WriteNext(l, c, absent, start, Visited(l, CHUNK, pageSize));
        TimesNext(|out|, CHUNK);
        out := out + [mem[l]];
        l := l + CHUNK;
      }
      VisitedAll(l, CHUNK, pages, pageSize);
      if absent {
        WrittenAll(start);
      }
    }

    lemma WrittenAll(start: nat)
      requires Valid() && Written(start, pages, mem.Length)
      ensures AllPresent() && faults == start + pages
    {
    }

    /** A write sweep of a discarded region in progress. */
    ghost predicate Written(start: nat, v: nat, l: nat)
      reads this, present
      requires Valid()
    {
      && v <= pages && faults == start + v
      && (forall p :: 0 <= p < pages ==> (present[p] <==> p < v))
      && (forall i :: 0 <= i < l ==> PageOf(i, pageSize) < v)
    }

    method WriteNext(l: nat, c: char, ghost absent: bool, ghost start: nat, ghost v: nat)
      requires Valid() && l + CHUNK <= mem.Length && pageSize % CHUNK == 0 && Aligned(l)
      requires PageOf(l, pageSize) < pages
      requires if absent then Written(start, v, l) && v - 1 <= PageOf(l, pageSize) <= v
               else AllPresent() && faults == start
      requires forall i :: 0 <= i < l ==> mem[i] == c
      modifies this`faults, mem, present
      ensures forall i :: 0 <= i < l + CHUNK ==> mem[i] == c
      ensures if absent then Written(start, PageOf(l, pageSize) + 1, l + CHUNK) else AllPresent() && faults == start
    {
      ChunkOnePage(l, pageSize);
      hide PageOf;
      SetChunk(l, c);
    }

    /** A sweep of a region with no page in, and the same sweep again. */
    method ReadTwice(stride: nat) returns (out: seq<char>, again: seq<char>)
      requires Valid() && 0 < stride <= pageSize && AllAbsent()
      requires mem.Length + stride <= INT_MAX + 1
      modifies this`faults, mem, present
      ensures AllPresent() && faults == old(faults) + pages
      ensures Shows(out, stride, old(faults)) && again == out
    {
      hide Times, PageOf, FillChar;
      out := ReadSweep(stride);
      again := ReadSweep(stride);
      SameStops(out, again, stride);
    }

    /** A sweep that writes, and one that reads what was written. */
    method WriteAndRead(c: char) returns (out: seq<char>, again: seq<char>)
      requires Valid() && pageSize >= CHUNK && pageSize % CHUNK == 0 && (AllAbsent() || AllPresent())
      requires mem.Length + CHUNK <= INT_MAX + 1
      modifies this`faults, mem, present
      ensures AllPresent() && forall i :: 0 <= i < mem.Length ==> mem[i] == c
      ensures ShowsOnly(out, c) && again == out
      ensures old(AllPresent()) ==> faults == old(faults)
      ensures old(AllAbsent()) ==> faults == old(faults) + pages
    {
      hide Times, PageOf, FillChar;
      out := WriteSweep(c);
      again := ReadSweep(CHUNK);
      ReadsWritten(out, again, c);
    }

    /** The eight sweeps, over a region whose addresses fit in an `int`: what each shows, what is
        left, and every fault accounted for. */
    method RunSweeps() returns (outs: seq<seq<char>>)
      requires Valid() && AllAbsent() && faults == 0 && pageSize % (2 * CHUNK) == 0
      requires Times(pages, pageSize) <= INT_MAX
      modifies this`faults, mem, present
      ensures |outs| == 8
      ensures faults == 3 * pages && IsInt(faults)
      ensures forall i :: 0 <= i < mem.Length ==> mem[i] == '^'
      ensures Shows(outs[0], 2 * CHUNK, 0) && outs[1] == outs[0]
      ensures Shows(outs[2], CHUNK, pages) && outs[3] == outs[2]
      ensures ShowsOnly(outs[4], '@') && outs[5] == outs[4]
      ensures ShowsOnly(outs[6], '^') && outs[7] == outs[6]
      ensures Letters(outs[0], 2048, 0) && Letters(outs[2], 1024, pages)
      ensures Solid(outs[4], '@') && Solid(outs[6], '^')
    {
      PageSizeHolds(pageSize);
      RoomForStride(pages, pageSize);
      FaultsFit(pages, pageSize);
      hide Shows, ShowsOnly, Times, PageOf, Letters, Solid;
      var out1, out2 := ReadTwice(2 * CHUNK);
      Discard();
      var out3, out4 := ReadTwice(CHUNK);
      Discard();
      var out5, out6 := WriteAndRead('@');
      var out7, out8 := WriteAndRead('^');
      ShowsPlainly(out1, 2 * CHUNK, 0);
      ShowsPlainly(out3, CHUNK, pages);
      ShowsOnlyPlainly(out5, '@');
      ShowsOnlyPlainly(out7, '^');
      return [out1, out2, out3, out4, out5, out6, out7, out8];
    }

    /** One character per stop of a sweep that faulted from count `from` on: the fill of the
        stop's page. */
    predicate Shows(out: seq<char>, stride: nat, from: nat)
      requires Valid()
    {
      && StopsEnd(|out|, stride)
      && forall k :: 0 <= k < |out| ==> out[k] == FillChar(from + PageOf(Times(k, stride), pageSize))
    }

    predicate ShowsOnly(out: seq<char>, c: char)
      requires Valid()
    {
      StopsEnd(|out|, CHUNK) && forall k :: 0 <= k < |out| ==> out[k] == c
    }

    /** The sweep stopped at every multiple of its stride inside the region. */
    predicate StopsEnd(n: nat, stride: nat)
      requires Valid()
    {
      Times(n, stride) >= mem.Length && (n > 0 ==> Times(n - 1, stride) < mem.Length)
    }

    /** In plain arithmetic: as many stops as strides in the region, and stop `k` shows the letter
        its page's fault brought, with 'A' again after 'T'. */
    predicate Letters(out: seq<char>, stride: nat, from: nat)
      requires Valid()
    {
      && stride * |out| == pages * pageSize
      && forall k :: 0 <= k < |out| ==> out[k] as int == 65 + (from + stride * k / pageSize) % 20
    }

    /** As many stops as chunks in the region, and the same character at each. */
    predicate Solid(out: seq<char>, c: char)
      requires Valid()
    {
      1024 * |out| == pages * pageSize && forall k :: 0 <= k < |out| ==> out[k] == c
    }

    lemma ShowsPlainly(out: seq<char>, stride: nat, from: nat)
      requires Valid() && 0 < stride && pageSize % stride == 0 && Shows(out, stride, from)
      ensures Letters(out, stride, from)
    {
      StopsPlainly(|out|, stride);
      forall k | 0 <= k < |out| ensures out[k] as int == 65 + (from + stride * k / pageSize) % 20 {
        assert Times(k, stride) == stride * k;
      }
    }

    lemma ShowsOnlyPlainly(out: seq<char>, c: char)
      requires Valid() && pageSize % CHUNK == 0 && ShowsOnly(out, c)
      ensures Solid(out, c)
    {
      StopsPlainly(|out|, CHUNK);
    }

    lemma StopsPlainly(n: nat, stride: nat)
      requires Valid() && 0 < stride && pageSize % stride == 0 && StopsEnd(n, stride)
      ensures stride * n == pages * pageSize
    {
      var m := pageSize / stride;
      assert Times(m, stride) == pageSize;
      TimesTimes(pages, m, stride);
      var whole := Times(pages, m);
      if whole > 0 {
        TimesApart(whole - 1, whole, stride);
      }
      SameNumber(n, whole, stride, mem.Length);
      assert Times(n, stride) == stride * n && Times(pages, pageSize) == pages * pageSize;
    }

    lemma SameStops(out: seq<char>, again: seq<char>, stride: nat)
      requires Valid() && stride > 0
      requires StopsEnd(|out|, stride) && StopsEnd(|again|, stride)
      requires forall k :: 0 <= k < |out| ==> Times(k, stride) < mem.Length && out[k] == mem[Times(k, stride)]
      requires forall k :: 0 <= k < |again| ==> Times(k, stride) < mem.Length && again[k] == mem[Times(k, stride)]
      ensures out == again
    {
      SameNumber(|out|, |again|, stride, mem.Length);
    }

    lemma ReadsWritten(out: seq<char>, again: seq<char>, c: char)
      requires Valid() && Times(|out|, CHUNK) == mem.Length && StopsEnd(|again|, CHUNK)
      requires forall k :: 0 <= k < |out| ==> out[k] == c
      requires forall k :: 0 <= k < |again| ==> Times(k, CHUNK) < mem.Length && again[k] == mem[Times(k, CHUNK)]
      requires forall i :: 0 <= i < mem.Length ==> mem[i] == c
      ensures out == again && ShowsOnly(out, c)
    {
      if |out| > 0 {
        TimesNext(|out| - 1, CHUNK);
      }
      SameNumber(|out|, |again|, CHUNK, mem.Length);
    }
  }

  /** Only one number of stops of a given stride just covers a length. */
  lemma SameNumber(m: nat, n: nat, stride: nat, length: nat)
    requires Times(m, stride) >= length && (m > 0 ==> Times(m - 1, stride) < length)
    requires Times(n, stride) >= length && (n > 0 ==> Times(n - 1, stride) < length)
    ensures m == n
  {
    if n > 0 {
      TimesGrows(m, n - 1, stride);
    }
    if m > 0 {
      TimesGrows(n, m - 1, stride);
    }
  }

  lemma PageSizeHolds(pageSize: nat)
    requires pageSize > 0 && pageSize % (2 * CHUNK) == 0
    ensures pageSize >= 2 * CHUNK && pageSize % CHUNK == 0
  {
  }

  lemma ChunkOnePage(l: nat, pageSize: nat)
    requires pageSize > 0 && pageSize % CHUNK == 0 && l % CHUNK == 0
    ensures forall i :: l <= i < l + CHUNK ==> PageOf(i, pageSize) == PageOf(l, pageSize)
  {
    var base := PageBase(l, pageSize);
    SamePage(l, l, pageSize);
    BaseAligned(l, pageSize);
    forall i | l <= i < l + CHUNK ensures PageOf(i, pageSize) == PageOf(l, pageSize) {
      SamePage(l, i, pageSize);
    }
  }

  lemma BaseAligned(l: nat, pageSize: nat)
    requires pageSize > 0 && pageSize % CHUNK == 0 && l % CHUNK == 0
    ensures PageBase(l, pageSize) % CHUNK == 0
    ensures l + CHUNK <= PageBase(l, pageSize) + pageSize
  {
    SamePage(l, l, pageSize);
    WholeChunks(PageOf(l, pageSize), pageSize);
    assert PageBase(l, pageSize) == Times(PageOf(l, pageSize), pageSize);
  }

  lemma WholeChunks(k: nat, n: nat)
    requires n % CHUNK == 0
    ensures Times(k, n) % CHUNK == 0
  {
    TimesTimes(k, n / CHUNK, CHUNK);
    assert n == Times(n / CHUNK, CHUNK);
    hide Times;
    ManyChunks(Times(k, n / CHUNK));
  }

  lemma ManyChunks(w: nat)
    ensures Times(w, CHUNK) % CHUNK == 0
  {
  }

  // ----- how large a region an `int` can step over

  /** Every address a sweep computes, its stops and the one that ends it, is an `int`. */
  ghost predicate SweepFits(length: nat, stride: nat) {
    forall k: nat :: StepFits(k, length, stride)
  }

  predicate StepFits(k: nat, length: nat, stride: nat) {
    k == 0 || Times(k - 1, stride) < length ==> IsInt(Times(k, stride))
  }

  lemma SweepFitsTo(n: nat, stride: nat)
    requires stride > 0
    ensures SweepFits(Times(n, stride), stride) <==> Times(n, stride) <= INT_MAX
  {
    TimesNone(stride);
    hide Times;
    if n > 0 {
      TimesApart(n - 1, n, stride);
    }
    if Times(n, stride) <= INT_MAX {
      forall k: nat ensures StepFits(k, Times(n, stride), stride) {
        if k > 0 {
          TimesGrows(n, k - 1, stride);
          TimesGrows(k, n, stride);
        }
      }
    } else {
      assert !StepFits(n, Times(n, stride), stride);
    }
  }

  /** A sweep whose stride divides the page size stays within an `int` exactly when the region
      is no longer than the largest one. */
  lemma SweepFitsExactly(pages: nat, pageSize: nat, stride: nat)
    requires 0 < stride && pageSize % stride == 0
    ensures SweepFits(Times(pages, pageSize), stride) <==> Times(pages, pageSize) <= INT_MAX
  {
    var m := pageSize / stride;
    assert Times(m, stride) == pageSize;
    TimesTimes(pages, m, stride);
    hide Times;
    SweepFitsTo(Times(pages, m), stride);
  }

  /** With pages of 4096 bytes the eight sweeps fit up to 524287 pages, and none of them from
      524288 on. */
  lemma PagesThatFit(pages: nat)
    ensures SweepFits(Times(pages, 4096), 2 * CHUNK) <==> pages < 524_288
    ensures SweepFits(Times(pages, 4096), CHUNK) <==> pages < 524_288
  {
    SweepFitsExactly(pages, 4096, 2 * CHUNK);
    SweepFitsExactly(pages, 4096, CHUNK);
    assert Times(pages, 4096) == pages * 4096;
  }

  /** A region that an `int` can step over also has too few pages for the fault counter to
      overflow. */
  lemma FaultsFit(pages: nat, pageSize: nat)
    requires pageSize >= 2 * CHUNK && Times(pages, pageSize) <= INT_MAX
    ensures IsInt(3 * pages)
  {
    assert Times(pages, pageSize) == Times(pages, 2 * CHUNK) + Times(pages, pageSize - 2 * CHUNK);
    assert Times(pages, 2 * CHUNK) == 2048 * pages;
  }

  lemma RoomForStride(pages: nat, pageSize: nat)
    requires pageSize % (2 * CHUNK) == 0 && Times(pages, pageSize) <= INT_MAX
    ensures Times(pages, pageSize) + 2 * CHUNK <= INT_MAX + 1
  {
    var m := pageSize / (2 * CHUNK);
    assert pageSize == Times(m, 2 * CHUNK);
    TimesTimes(pages, m, 2 * CHUNK);
    assert Times(Times(pages, m), 2 * CHUNK) == 2048 * Times(pages, m);
  }
}
