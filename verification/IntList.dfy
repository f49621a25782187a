/** The module parameter: a comma-separated list of integers, and the printed form it has an
    inverse in. */
module IntList {
  import opened Arith
  import opened Wrappers
  import opened Seqs
  import opened Text

  const COMMA: char := ','

  function UpToComma(s: string): (n: nat)
    ensures n <= |s| && COMMA !in s[..n]
    ensures n < |s| ==> s[n] == COMMA
  {
    if s == "" || s[0] == COMMA then 0
    else
      var n := UpToComma(s[1..]);
      assert s[..n + 1] == [s[0]] + s[1..][..n];
      n + 1
  }

  /** Every stretch between commas, empty ones included. */
  function Tokens(s: string): (ts: seq<string>)
    decreases |s|
  {
    var n := UpToComma(s);
    [s[..n]] + if n < |s| then Tokens(s[n + 1..]) else []
  }

  function NonEmpty(ts: seq<string>): seq<string> {
    if ts == [] then []
    else if ts[0] == "" then NonEmpty(ts[1..])
    else [ts[0]] + NonEmpty(ts[1..])
  }

  datatype Parsed = Parsed(vals: seq<int>, err: int)

  /** The values before the first token that is not a number, and its error. */
  function ParseTokens(ts: seq<string>): (r: Parsed)
    ensures forall k :: 0 <= k < |r.vals| ==> IsInt(r.vals[k])
  {
    if ts == [] then Parsed([], 0)
    else
      match KstrToInt(ts[0], 0)
      case Err(e) => Parsed([], e)
      case Ok(v) =>
        var rest := ParseTokens(ts[1..]);
        Parsed([v] + rest.vals, rest.err)
  }

  function Parse(s: string): Parsed {
    ParseTokens(NonEmpty(Tokens(s)))
  }

  function PrintList(vals: seq<int>): string {
    if vals == [] then "" else ShowInt(vals[0]) + " " + PrintList(vals[1..])
  }

  /** Every number is followed by one blank, the last one too. */
  lemma {:induction false} PrintedOneByOne(vals: seq<int>, v: int)
    ensures PrintList([]) == ""
    ensures PrintList(vals + [v]) == PrintList(vals) + ShowInt(v) + [' ']
  {
    hide ShowInt;
    var all := vals + [v];
    if vals == [] {
      assert all[1..] == [];
      assert PrintList(all) == ShowInt(v) + " " + PrintList(all[1..]);
    } else {
      PrintedOneByOne(vals[1..], v);
      assert all[1..] == vals[1..] + [v];
      Assoc(ShowInt(vals[0]) + " ", PrintList(vals[1..]), ShowInt(v));
      Assoc(ShowInt(vals[0]) + " ", PrintList(vals[1..]) + ShowInt(v), [' ']);
    }
  }

  function SpacesToCommas(s: string): (r: string)
    ensures |r| == |s| && forall i :: 0 <= i < |s| ==> r[i] == if s[i] == ' ' then COMMA else s[i]
  {
    seq(|s|, i requires 0 <= i < |s| => if s[i] == ' ' then COMMA else s[i])
  }

  // ----- commas

  lemma {:induction false} CommaAt(a: string, b: string)
    requires COMMA !in a
    ensures UpToComma(a + [COMMA] + b) == |a|
  {
    if a != "" {
      CommaAt(a[1..], b);
      assert (a + [COMMA] + b)[1..] == a[1..] + [COMMA] + b;
    }
  }

  lemma {:induction false} NonEmptyAppend(a: seq<string>, b: seq<string>)
    ensures NonEmpty(a + b) == NonEmpty(a) + NonEmpty(b)
  {
    if a == [] {
      assert a + b == b;
    } else {
      NonEmptyAppend(a[1..], b);
      var c := a + b;
      assert c[1..] == a[1..] + b && c[0] == a[0];
      Assoc([a[0]], NonEmpty(a[1..]), NonEmpty(b));
    }
  }

  lemma TokensHead(a: string, b: string)
    requires COMMA !in a
    ensures Tokens(a + [COMMA] + b) == [a] + Tokens(b)
  {
    var s := a + [COMMA] + b;
    CommaAt(a, b);
    assert s[..|a|] == a && s[|a| + 1..] == b;
  }

  lemma Regroup(head: string, tail: string, b: string)
    ensures head + [COMMA] + tail + [COMMA] + b == head + [COMMA] + (tail + [COMMA] + b)
  {
  }

  lemma NoCommaToken(a: string)
    requires UpToComma(a) == |a|
    ensures Tokens(a) == [a] && COMMA !in a
  {
    assert a[..|a|] == a;
  }

  lemma TokensStep(head: string, tail: string, b: string)
    requires COMMA !in head && Tokens(tail + [COMMA] + b) == Tokens(tail) + Tokens(b)
    ensures Tokens(head + [COMMA] + tail + [COMMA] + b) == Tokens(head + [COMMA] + tail) + Tokens(b)
  {
    hide Tokens, UpToComma;
    Regroup(head, tail, b);
    TokensHead(head, tail + [COMMA] + b);
    TokensHead(head, tail);
    Assoc([head], Tokens(tail), Tokens(b));
  }

  /** A comma separates: what is left of it and right of it is cut up on its own. */
  lemma {:induction false} TokensAtComma(a: string, b: string)
    ensures Tokens(a + [COMMA] + b) == Tokens(a) + Tokens(b)
    decreases |a|
  {
    hide Tokens;
    var n := UpToComma(a);
    if n == |a| {
      NoCommaToken(a);
      TokensHead(a, b);
    } else {
      var head, tail := a[..n], a[n + 1..];
      assert a == head + [COMMA] + tail;
      hide UpToComma;
      TokensAtComma(tail, b);
      TokensStep(head, tail, b);
    }
  }

  /** Doubling a comma anywhere changes nothing. */
  lemma ExtraComma(a: string, b: string)
    ensures Parse(a + [COMMA] + b) == Parse(a + [COMMA] + ([COMMA] + b))
  {
    TokensAtComma(a, b);
    TokensAtComma(a, [COMMA] + b);
    TokensAtComma("", b);
    assert "" + [COMMA] + b == [COMMA] + b;
    assert Tokens("") == [""];
    NonEmptyAppend(Tokens(a), Tokens(b));
    NonEmptyAppend(Tokens(a), Tokens([COMMA] + b));
    NonEmptyAppend([""], Tokens(b));
    assert NonEmpty([""]) == [];
    assert [] + NonEmpty(Tokens(b)) == NonEmpty(Tokens(b));
  }

  /** A comma before the first token or after the last changes nothing either. */
  lemma OuterComma(s: string)
    ensures Parse([COMMA] + s) == Parse(s) == Parse(s + [COMMA])
  {
    TokensAtComma("", s);
    TokensAtComma(s, "");
    assert "" + [COMMA] + s == [COMMA] + s && s + [COMMA] + "" == s + [COMMA];
    assert Tokens("") == [""] && NonEmpty([""]) == [];
    NonEmptyAppend([""], Tokens(s));
    NonEmptyAppend(Tokens(s), [""]);
    assert [] + NonEmpty(Tokens(s)) == NonEmpty(Tokens(s)) == NonEmpty(Tokens(s)) + [];
  }

  // ----- printing and parsing

  /** Parsing undoes printing for any 32-bit values: the printed line with its spaces turned
      into commas parses back to the list it was printed from. */
  lemma {:induction false} PrintThenParse(vals: seq<int>)
    requires forall k :: 0 <= k < |vals| ==> IsInt(vals[k])
    ensures Parse(SpacesToCommas(PrintList(vals))) == Parsed(vals, 0)
  {
    if vals == [] {
      assert SpacesToCommas("") == "";
      assert Tokens("") == [""] && NonEmpty([""]) == [];
    } else {
      PrintThenParse(vals[1..]);
      PrintedStep(vals[0], PrintList(vals[1..]), vals[1..]);
      assert vals == [vals[0]] + vals[1..];
    }
  }

  lemma PrintedStep(v: int, tail: string, vals: seq<int>)
    requires IsInt(v) && Parse(SpacesToCommas(tail)) == Parsed(vals, 0)
    ensures Parse(SpacesToCommas(ShowInt(v) + " " + tail)) == Parsed([v] + vals, 0)
  {
    hide ShowInt, KstrToInt, Tokens, NonEmpty, ParseTokens, SpacesToCommas;
    var head, rest := ShowInt(v), SpacesToCommas(tail);
    NumbersHaveNoSeparator(v);
    ShowThenParse(v, 0);
    CommasOver(head, tail);
    TokensHead(head, rest);
    NonEmptyStep(head, Tokens(rest));
    ParseTokensStep(head, v, NonEmpty(Tokens(rest)));
  }

  lemma CommasOver(head: string, tail: string)
    requires ' ' !in head
    ensures SpacesToCommas(head + " " + tail) == head + [COMMA] + SpacesToCommas(tail)
  {
    var s := head + " " + tail;
    forall i | 0 <= i < |s| ensures SpacesToCommas(s)[i] == (head + [COMMA] + SpacesToCommas(tail))[i] {
      if i < |head| {
        assert s[i] == head[i] && head[i] in head;
      }
    }
  }

  lemma NumbersHaveNoSeparator(v: int)
    ensures COMMA !in ShowInt(v) && ' ' !in ShowInt(v)
  {
  }

  lemma NonEmptyStep(t: string, ts: seq<string>)
    requires t != ""
    ensures NonEmpty([t] + ts) == [t] + NonEmpty(ts)
  {
    assert ([t] + ts)[1..] == ts;
  }

  lemma ParseTokensStep(t: string, v: int, ts: seq<string>)
    requires KstrToInt(t, 0) == Ok(v)
    ensures ParseTokens([t] + ts) == Parsed([v] + ParseTokens(ts).vals, ParseTokens(ts).err)
  {
    assert ([t] + ts)[1..] == ts;
  }
}
