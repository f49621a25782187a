/** The indented process listing.  Although the root and its children are printed with the same
    indent, the listing determines the tree: a reader recovers it exactly. */
module ProcListing {
  import opened Arith
  import opened Wrappers
  import opened TaskTree
  import opened Seqs
  import opened Text

  const NEWLINE: char := '\n'

  function Repeat(s: string, n: nat): string {
    if n == 0 then "" else Repeat(s, n - 1) + s
  }

  /** The loop that indents starts at 1: depths 0 and 1 both get none. */
  function IndentOf(space: nat): nat {
    if space == 0 then 0 else space - 1
  }

  function Line(indent: nat, comm: string, pid: int): string {
    Repeat("  ", indent) + "-" + comm + " [" + ShowInt(pid) + "]"
  }

  function Listing(t: Task, space: nat): string
    decreases t, 1
  {
    Line(IndentOf(space), t.comm, t.pid) + [NEWLINE] + Listings(t.children, space + 1)
  }

  function Listings(ts: seq<Task>, space: nat): string
    decreases ts, 0
  {
    if ts == [] then "" else Listing(ts[0], space) + Listings(ts[1..], space)
  }

  lemma {:induction false} ListingsAppend(ts: seq<Task>, t: Task, space: nat)
    ensures Listings(ts + [t], space) == Listings(ts, space) + Listing(t, space)
  {
    hide Listing;
    if ts == [] {
      assert Listings([t], space) == Listing(t, space) + Listings([t][1..], space);
    } else {
      ListingsAppend(ts[1..], t, space);
      assert (ts + [t])[1..] == ts[1..] + [t];
    }
  }

  lemma LineText(indent: nat, comm: string, pid: int)
    ensures Repeat("  ", indent) + ("-" + comm + " [" + ShowInt(pid) + "]\n") == Line(indent, comm, pid) + [NEWLINE]
  {
  }

  /** The kernel log, which the printer only appends to. */
  class Log {
    var text: string

    constructor ()
      ensures text == ""
    {
      text := "";
    }

    method Printk(s: string)
      modifies this
      ensures text == old(text) + s
    {
      text := text + s;
    }

    method PrintLine(space: nat, comm: string, pid: int)
      modifies this
      ensures text == old(text) + (Line(IndentOf(space), comm, pid) + [NEWLINE])
    {
      var i := 1;
      while i < space
        invariant 1 <= i && (if space == 0 then i == 1 else i <= space)
        invariant text == old(text) + Repeat("  ", i - 1)
      {
        Printk("  ");
        i := i + 1;
      }
      ghost var indent := Repeat("  ", IndentOf(space));
      assert text == old(text) + indent;
      var line := "-" + comm + " [" + ShowInt(pid) + "]\n";
      Printk(line);
      hide Repeat, Line;
      LineText(IndentOf(space), comm, pid);
      Assoc(old(text), indent, line);
    }

    method RecursiveSearch(task: Task, space: nat)
      modifies this
      ensures text == old(text) + Listing(task, space)
      decreases task
    {
      hide Line, Listings;
      PrintLine(space, task.comm, task.pid);
      ghost var head := text;
      var spaceNum := space + 1;
      var k := 0;
      assert Listings(task.children[..0], spaceNum) == "" by { ListingsNone(spaceNum); }
      while k < |task.children|
        invariant 0 <= k <= |task.children|
        invariant text == head + Listings(task.children[..k], spaceNum)
      {
        ghost var done, was := task.children[..k], text;
        RecursiveSearch(task.children[k], spaceNum);
        ListingsAppend(done, task.children[k], spaceNum);
        assert task.children[..k + 1] == done + [task.children[k]];
        Assoc(head, Listings(done, spaceNum), Listing(task.children[k], spaceNum));
        k := k + 1;
      }
      assert task.children[..k] == task.children;
      Assoc(old(text), Line(IndentOf(space), task.comm, task.pid) + [NEWLINE], Listings(task.children, spaceNum));
    }
  }

  lemma ListingsNone(space: nat)
    ensures Listings([], space) == ""
  {
  }

  lemma {:induction false} RepeatIsBlank(n: nat)
    ensures |Repeat("  ", n)| == 2 * n && forall i :: 0 <= i < 2 * n ==> Repeat("  ", n)[i] == ' '
  {
    if n > 0 {
      RepeatIsBlank(n - 1);
    }
  }

  /** A task at depth `d` is printed after two blanks for each level past the first: the root and
      its children both start with the dash. */
  lemma LineStarts(d: nat, comm: string, pid: int)
    ensures var line := Line(IndentOf(d), comm, pid);
            var blanks := if d <= 1 then 0 else 2 * (d - 1);
            && |line| > blanks && (forall i :: 0 <= i < blanks ==> line[i] == ' ')
            && line[blanks..] == "-" + comm + " [" + ShowInt(pid) + "]"
  {
    RepeatIsBlank(IndentOf(d));
    var blanks, rest := Repeat("  ", IndentOf(d)), "-" + comm + " [" + ShowInt(pid) + "]";
    Cut(blanks, rest);
    LineParts(IndentOf(d), comm, pid);
    assert "-" + (comm + " [" + ShowInt(pid)) + "]" == rest;
    hide Repeat, ShowInt;
  }

  lemma LeafListing(pid: int, comm: string, space: nat)
    ensures Listing(Task(pid, comm, []), space) == Line(IndentOf(space), comm, pid) + "\n"
  {
    hide Line;
  }

  lemma OnlyChildListing(pid: int, comm: string, child: Task, space: nat)
    ensures Listing(Task(pid, comm, [child]), space)
            == Line(IndentOf(space), comm, pid) + "\n" + Listing(child, space + 1)
  {
    hide Line;
    assert [child][1..] == [];
    assert Listings([child], space + 1) == Listing(child, space + 1) + Listings([child][1..], space + 1);
  }

  lemma SampleLines()
    ensures Line(IndentOf(0), "swapper", 0) == "-swapper [0]"
    ensures Line(IndentOf(1), "init", 1) == "-init [1]"
    ensures Line(IndentOf(2), "sh", 25) == "  -sh [25]"
  {
    assert ShowInt(0) == "0" && ShowInt(1) == "1" && Digits(2) == "2" && ShowInt(25) == "25";
    assert Repeat("  ", 0) == "" && Repeat("  ", 1) == "  ";
  }

  /** The log of a task with a child and a grandchild. */
  lemma SampleListing()
    ensures Listing(Task(0, "swapper", [Task(1, "init", [Task(25, "sh", [])])]), 0)
            == "-swapper [0]\n-init [1]\n  -sh [25]\n"
  {
    hide Listing, Listings, Line, IndentOf;
    var sh := Task(25, "sh", []);
    SampleLines();
    LeafListing(25, "sh", 2);
    OnlyChildListing(1, "init", sh, 1);
    OnlyChildListing(0, "swapper", Task(1, "init", [sh]), 0);
  }

  // ----- reading a listing back

  datatype Row = Row(depth: nat, comm: string, pid: int)

  /** The lines of a text in which each line is ended by a newline. */
  function SplitLines(s: string): (lines: seq<string>)
    decreases |s|
  {
    if s == "" then []
    else
      var n := LineLength(s);
      [s[..n]] + if n < |s| then SplitLines(s[n + 1..]) else []
  }

  function LineLength(s: string): (n: nat)
    ensures n <= |s|
    ensures n < |s| ==> s[n] == NEWLINE
    ensures NEWLINE !in s[..n]
  {
    if s == "" || s[0] == NEWLINE then 0
    else
      var n := LineLength(s[1..]);
      assert s[..n + 1] == [s[0]] + s[1..][..n];
      n + 1
  }

  function LeadingSpaces(s: string): (n: nat)
    ensures n <= |s|
  {
    if s == "" || s[0] != ' ' then 0 else 1 + LeadingSpaces(s[1..])
  }

  /** Index just past the last '[', or 0. */
  function AfterBracket(s: string): (n: nat)
    ensures n <= |s|
  {
    if s == "" then 0 else if s[|s| - 1] == '[' then |s| else AfterBracket(s[..|s| - 1])
  }

  datatype Entry = Entry(indent: nat, comm: string, pid: int)

  function ReadLine(line: string): (r: Option<Entry>) {
    var n := LeadingSpaces(line);
    var rest := line[n..];
    if |rest| < 2 || rest[0] != '-' || rest[|rest| - 1] != ']' then None
    else
      var body := rest[1..|rest| - 1];
      var k := AfterBracket(body);
      if k < 2 then None
      else
        match KstrToInt(body[k..], 10)
        case Err(_) => None
        case Ok(pid) => Some(Entry(n / 2, body[..k - 2], pid))
  }

  /** The tasks at `depth` at the front of `rows`, with everything below them, and the rest. */
  function ReadForest(rows: seq<Row>, depth: nat): (r: (seq<Task>, seq<Row>))
    ensures |r.1| <= |rows|
    decreases |rows|
  {
    if rows == [] || rows[0].depth != depth then ([], rows)
    else
      var (below, after) := ReadForest(rows[1..], depth + 1);
      var (siblings, rest) := ReadForest(after, depth);
      ([Task(rows[0].pid, rows[0].comm, below)] + siblings, rest)
  }

  /** The first line is the root; an indent of k after it means depth k + 1. */
  function RowsOf(lines: seq<string>, first: bool): (r: Option<seq<Row>>) {
    if lines == [] then Some([])
    else
      match ReadLine(lines[0])
      case None => None
      case Some(e) =>
        match RowsOf(lines[1..], false)
        case None => None
        case Some(rows) => Some([Row(if first then 0 else e.indent + 1, e.comm, e.pid)] + rows)
  }

  function ReadListing(text: string): (r: Option<Task>) {
    match RowsOf(SplitLines(text), true)
    case None => None
    case Some(rows) =>
      var (roots, rest) := ReadForest(rows, 0);
      if |roots| == 1 && rest == [] then Some(roots[0]) else None
  }

  // ----- the round trip

  /** A name fits on a line when it has no newline in it; a pid is an `int`. */
  ghost predicate Printable(t: Task) {
    NEWLINE !in t.comm && IsInt(t.pid)
  }

  function Rows(t: Task, depth: nat): seq<Row>
    decreases t, 1
  {
    [Row(depth, t.comm, t.pid)] + AllRows(t.children, depth + 1)
  }

  function AllRows(ts: seq<Task>, depth: nat): seq<Row>
    decreases ts, 0
  {
    if ts == [] then [] else Rows(ts[0], depth) + AllRows(ts[1..], depth)
  }

  lemma {:induction false} ReadRows(ts: seq<Task>, depth: nat, rest: seq<Row>)
    requires rest == [] || rest[0].depth < depth
    ensures ReadForest(AllRows(ts, depth) + rest, depth) == (ts, rest)
    decreases ts
  {
    if ts == [] {
      assert AllRows(ts, depth) + rest == rest;
    } else {
      var t, more := ts[0], AllRows(ts[1..], depth) + rest;
      var head, below := [Row(depth, t.comm, t.pid)], AllRows(t.children, depth + 1);
      var rows := AllRows(ts, depth) + rest;
      assert AllRows(ts, depth) == head + below + AllRows(ts[1..], depth);
      Assoc(head, below, AllRows(ts[1..], depth));
      Assoc(head, below + AllRows(ts[1..], depth), rest);
      Assoc(below, AllRows(ts[1..], depth), rest);
      assert rows == head + (below + more);
      assert rows[1..] == below + more;
      FirstRow(ts[1..], depth);
      ReadRows(t.children, depth + 1, more);
      ReadRows(ts[1..], depth, rest);
      assert [t] + ts[1..] == ts;
    }
  }

  lemma FirstRow(ts: seq<Task>, depth: nat)
    ensures AllRows(ts, depth) == [] || AllRows(ts, depth)[0].depth == depth
  {
  }

  function Render(rows: seq<Row>): string {
    if rows == [] then ""
    else Line(IndentOf(rows[0].depth), rows[0].comm, rows[0].pid) + [NEWLINE] + Render(rows[1..])
  }

  lemma {:induction false} RenderAppend(a: seq<Row>, b: seq<Row>)
    ensures Render(a + b) == Render(a) + Render(b)
  {
    hide Line;
    if a == [] {
      assert a + b == b;
    } else {
      RenderAppend(a[1..], b);
      var c := a + b;
      assert c[1..] == a[1..] + b && c[0] == a[0];
      var head := Line(IndentOf(a[0].depth), a[0].comm, a[0].pid) + [NEWLINE];
      assert Render(c) == head + Render(c[1..]);
      Assoc(head, Render(a[1..]), Render(b));
    }
  }

  lemma {:induction false} ListingsRender(ts: seq<Task>, depth: nat)
    ensures Listings(ts, depth) == Render(AllRows(ts, depth))
    decreases ts
  {
    if ts != [] {
      var t := ts[0];
      ListingsRender(t.children, depth + 1);
      ListingsRender(ts[1..], depth);
      RenderAppend(Rows(t, depth), AllRows(ts[1..], depth));
      assert Rows(t, depth)[1..] == AllRows(t.children, depth + 1);
    }
  }

  ghost predicate PrintableRows(rows: seq<Row>) {
    forall k :: 0 <= k < |rows| ==> NEWLINE !in rows[k].comm && IsInt(rows[k].pid)
  }

  lemma {:induction false} RowsPrintable(ts: seq<Task>, depth: nat)
    requires EverywhereIn(ts, Printable)
    ensures PrintableRows(AllRows(ts, depth))
    ensures forall k :: 0 <= k < |AllRows(ts, depth)| ==> AllRows(ts, depth)[k].depth >= depth
    decreases ts
  {
    if ts != [] {
      RowsPrintable(ts[0].children, depth + 1);
      RowsPrintable(ts[1..], depth);
    }
  }

  lemma {:induction false} SpacesOf(n: nat, rest: string)
    requires rest == "" || rest[0] != ' '
    ensures LeadingSpaces(Repeat("  ", n) + rest) == 2 * n
    ensures |Repeat("  ", n)| == 2 * n
  {
    if n == 0 {
      assert Repeat("  ", 0) + rest == rest;
    } else {
      SpacesFront(n - 1);
      SpacesOf(n - 1, rest);
      var s := Repeat("  ", n) + rest;
      assert s == "  " + (Repeat("  ", n - 1) + rest);
      assert s[1..][1..] == Repeat("  ", n - 1) + rest;
    }
  }

  lemma {:induction false} SpacesFront(n: nat)
    ensures Repeat("  ", n) + "  " == "  " + Repeat("  ", n)
  {
    if n > 0 {
      SpacesFront(n - 1);
    }
  }

  lemma {:induction false} BracketFound(s: string, tail: string)
    requires '[' !in tail && s != "" && s[|s| - 1] == '['
    ensures AfterBracket(s + tail) == |s|
  {
    if tail == "" {
      assert s + tail == s;
    } else {
      var n := |tail| - 1;
      assert (s + tail)[..|s| + n] == s + tail[..n];
      BracketFound(s, tail[..n]);
    }
  }

  lemma ReadsLine(indent: nat, comm: string, pid: int)
    requires IsInt(pid)
    ensures ReadLine(Line(indent, comm, pid)) == Some(Entry(indent, comm, pid))
  {
    hide Repeat, Line, LeadingSpaces, AfterBracket, ShowInt, KstrToInt;
    var digits := ShowInt(pid);
    var body := comm + " [" + digits;
    var rest := "-" + body + "]";
    var line := Line(indent, comm, pid);
    LineParts(indent, comm, pid);
    SpacesOf(indent, rest);
    assert LeadingSpaces(line) == 2 * indent;
    Cut(Repeat("  ", indent), rest);
    assert rest[1..|rest| - 1] == body;
    BracketFound(comm + " [", digits);
    Cut(comm + " [", digits);
    assert body[..|comm|] == comm;
    ShowThenParse(pid, 10);
  }

  lemma LineParts(indent: nat, comm: string, pid: int)
    ensures Line(indent, comm, pid) == Repeat("  ", indent) + ("-" + (comm + " [" + ShowInt(pid)) + "]")
  {
  }

  lemma LineHasNoBreak(indent: nat, comm: string, pid: int)
    requires NEWLINE !in comm
    ensures NEWLINE !in Line(indent, comm, pid) && Line(indent, comm, pid) != ""
  {
    RepeatHasNoBreak(indent);
  }

  lemma {:induction false} RepeatHasNoBreak(n: nat)
    ensures NEWLINE !in Repeat("  ", n)
  {
    if n > 0 {
      RepeatHasNoBreak(n - 1);
    }
  }

  lemma {:induction false} LineEnds(line: string, rest: string)
    requires NEWLINE !in line
    ensures LineLength(line + [NEWLINE] + rest) == |line|
  {
    if line != "" {
      LineEnds(line[1..], rest);
      assert (line + [NEWLINE] + rest)[1..] == line[1..] + [NEWLINE] + rest;
    }
  }

  lemma {:induction false} ReadsRows(rows: seq<Row>, first: bool)
    requires PrintableRows(rows)
    requires forall k :: 0 <= k < |rows| ==> (rows[k].depth == 0 <==> k == 0 && first)
    ensures RowsOf(SplitLines(Render(rows)), first) == Some(rows)
    decreases |rows|, 1
  {
    if rows == [] {
      assert Render(rows) == "" && SplitLines("") == [];
    } else {
      hide *;
      ReadsRowsStep(rows, first);
    }
  }

  lemma {:induction false} ReadsRowsStep(rows: seq<Row>, first: bool)
    requires rows != [] && PrintableRows(rows)
    requires forall k :: 0 <= k < |rows| ==> (rows[k].depth == 0 <==> k == 0 && first)
    ensures RowsOf(SplitLines(Render(rows)), first) == Some(rows)
    decreases |rows|, 0
  {
    hide Line, ReadLine, SplitLines, RowsOf;
    var r, rest := rows[0], rows[1..];
    var line := Line(IndentOf(r.depth), r.comm, r.pid);
    LineHasNoBreak(IndentOf(r.depth), r.comm, r.pid);
    ReadsLine(IndentOf(r.depth), r.comm, r.pid);
    ReadsRows(rest, false);
    SplitsOff(line, Render(rest));
    RowsOfCons(line, SplitLines(Render(rest)), first, Entry(IndentOf(r.depth), r.comm, r.pid), rest);
    assert rows == [r] + rest;
  }

  lemma RowsOfCons(line: string, lines: seq<string>, first: bool, e: Entry, rest: seq<Row>)
    requires ReadLine(line) == Some(e) && RowsOf(lines, false) == Some(rest)
    ensures RowsOf([line] + lines, first) == Some([Row(if first then 0 else e.indent + 1, e.comm, e.pid)] + rest)
  {
    hide ReadLine;
    assert ([line] + lines)[1..] == lines;
  }

  lemma SplitsOff(line: string, rest: string)
    requires NEWLINE !in line
    ensures SplitLines(line + [NEWLINE] + rest) == [line] + SplitLines(rest)
  {
    var s := line + [NEWLINE] + rest;
    LineEnds(line, rest);
    assert s[..|line|] == line && s[|line| + 1..] == rest;
  }

  /** The printed listing of a tree with printable names reads back as the tree. */
  lemma PrintableReadsBack(t: Task)
    requires Everywhere(t, Printable)
    ensures ReadListing(Listing(t, 0)) == Some(t)
  {
    var rows := AllRows([t], 0);
    OneTree(t);
    ListingsRender([t], 0);
    RowsPrintable(t.children, 1);
    RowsPrintable([t], 0);
    hide Listing, Listings, AllRows, Everywhere, EverywhereIn, Render, ReadForest, RowsOf;
    ReadsRows(rows, true);
    ReadRows([t], 0, []);
    assert rows + [] == rows;
  }

  lemma OneTree(t: Task)
    ensures Listings([t], 0) == Listing(t, 0)
    ensures Everywhere(t, Printable) ==> EverywhereIn([t], Printable) && EverywhereIn(t.children, Printable)
    ensures AllRows([t], 0) == [Row(0, t.comm, t.pid)] + AllRows(t.children, 1)
  {
    assert [t][1..] == [];
    assert Listings([t], 0) == Listing(t, 0) + Listings([t][1..], 0);
    assert AllRows([t], 0) == Rows(t, 0) + AllRows([t][1..], 0);
  }

  // ----- and no other tree can be read

  lemma {:induction false} LinesHaveNoBreak(s: string)
    ensures forall k :: 0 <= k < |SplitLines(s)| ==> NEWLINE !in SplitLines(s)[k]
    decreases |s|
  {
    var n := LineLength(s);
    if n < |s| {
      LinesHaveNoBreak(s[n + 1..]);
    }
  }

  lemma EntryPrintable(line: string)
    requires NEWLINE !in line
    ensures ReadLine(line).Some? ==> NEWLINE !in ReadLine(line).value.comm && IsInt(ReadLine(line).value.pid)
  {
    hide KstrToInt, AfterBracket, LeadingSpaces;
    if ReadLine(line).Some? {
      var rest := line[LeadingSpaces(line)..];
      var body := rest[1..|rest| - 1];
      assert forall c :: c in body[..AfterBracket(body) - 2] ==> c in line;
    }
  }

  lemma {:induction false} RowsReadPrintable(lines: seq<string>, first: bool)
    requires (forall k :: 0 <= k < |lines| ==> NEWLINE !in lines[k]) && RowsOf(lines, first).Some?
    ensures PrintableRows(RowsOf(lines, first).value)
  {
    hide ReadLine;
    if lines != [] {
      EntryPrintable(lines[0]);
      RowsReadPrintable(lines[1..], false);
    }
  }

  lemma {:induction false} ForestPrintable(rows: seq<Row>, depth: nat)
    requires PrintableRows(rows)
    ensures EverywhereIn(ReadForest(rows, depth).0, Printable) && PrintableRows(ReadForest(rows, depth).1)
    decreases |rows|
  {
    if rows != [] && rows[0].depth == depth {
      var (below, after) := ReadForest(rows[1..], depth + 1);
      ForestPrintable(rows[1..], depth + 1);
      ForestPrintable(after, depth);
      var (siblings, rest) := ReadForest(after, depth);
      var t := Task(rows[0].pid, rows[0].comm, below);
      assert Everywhere(t, Printable);
      assert ([t] + siblings)[1..] == siblings;
    }
  }

  lemma OnlyPrintableRead(text: string)
    ensures ReadListing(text).Some? ==> Everywhere(ReadListing(text).value, Printable)
  {
    if ReadListing(text).Some? {
      LinesHaveNoBreak(text);
      RowsReadPrintable(SplitLines(text), true);
      ForestPrintable(RowsOf(SplitLines(text), true).value, 0);
    }
  }

  /** Reading the printed listing of a tree gives the tree back exactly when every name in it
      is free of newlines and every pid is an `int`. */
  lemma ListingReadsBack(t: Task)
    ensures ReadListing(Listing(t, 0)) == Some(t) <==> Everywhere(t, Printable)
  {
    hide *;
    if Everywhere(t, Printable) {
      PrintableReadsBack(t);
    }
    if ReadListing(Listing(t, 0)) == Some(t) {
      OnlyPrintableRead(Listing(t, 0));
    }
  }

  /** A newline in a name can make a lone task print like a parent and its child. */
  lemma NewlineConfuses()
    ensures Listing(Task(0, "a", [Task(1, "b", [])]), 0) == Listing(Task(1, "a [0]\n-b", []), 0)
  {
    var child := Task(1, "b", []);
    assert ShowInt(0) == "0" && ShowInt(1) == "1";
    assert Listings([child], 1) == Listing(child, 1) + Listings([child][1..], 1);
  }

  /** So two trees that print alike are the same tree. */
  lemma ListingDeterminesTree(t: Task, u: Task)
    requires Everywhere(t, Printable) && Everywhere(u, Printable)
    requires Listing(t, 0) == Listing(u, 0)
    ensures t == u
  {
    ListingReadsBack(t);
    ListingReadsBack(u);
  }
}
