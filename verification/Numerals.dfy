/** What `kstrtoint` takes for a number, said without it: which strings are numerals, what each
    of them is worth, and what is answered for every other string. */
module Numerals {
  import opened Arith
  import opened IntList
  import opened Seqs
  import opened Text
  import opened Wrappers

  const LOWER := "0123456789abcdef"
  const UPPER := "0123456789ABCDEF"

  predicate DigitIs(c: char, v: nat) {
    v < 16 && (c == LOWER[v] || c == UPPER[v])
  }

  predicate IsDigitOf(c: char, radix: nat) {
    exists v: nat :: v < radix && DigitIs(c, v)
  }

  function Power(b: nat, k: nat): nat {
    if k == 0 then 1 else b * Power(b, k - 1)
  }

  /** The first of `n` digits counts for the power `n - 1` of the radix. */
  function Positional(values: seq<nat>, radix: nat): nat {
    if values == [] then 0
    else values[0] * Power(radix, |values| - 1) + Positional(values[1..], radix)
  }

  // ----- numerals

  datatype Numeral = Numeral(
    sign: string, prefix: string, digits: string, values: seq<nat>, radix: nat, end: string)
  {
    function Tail(): string { digits + end }

    function Body(): string { prefix + Tail() }

    function Text(): string { sign + Body() }

    function Worth(): int {
      if sign == "-" then 0 - Positional(values, radix) else Positional(values, radix)
    }

    /** The digits are of the radix, and these are their values. */
    predicate Digital() {
      && |values| == |digits|
      && forall i :: 0 <= i < |digits| ==> values[i] < radix && DigitIs(digits[i], values[i])
    }

    /** An optional sign, a prefix where base 0 allows one, at least one digit, and an optional
        newline.  In base 0 the digits themselves tell octal from decimal. */
    predicate WellFormed(base: nat) {
      && (sign == "" || sign == "+" || sign == "-")
      && (end == "" || end == "\n")
      && digits != "" && Digital()
      && if base == 10 then prefix == "" && radix == 10
         else
           || ((prefix == "0x" || prefix == "0X") && radix == 16)
           || (prefix == "" && radix == 8 && digits[0] == '0')
           || (prefix == "" && radix == 10 && digits[0] != '0')
    }
  }

  ghost predicate Denotes(s: string, base: nat, v: int) {
    exists n: Numeral :: n.WellFormed(base) && n.Text() == s && n.Worth() == v
  }

  // ----- any string, cut up

  /** Base 0 is sixteen after 0x and a digit for it, eight after any other 0, and else ten. */
  predicate RadixRule(body: string, base: nat, prefix: string, radix: nat) {
    if base == 10 then prefix == "" && radix == 10
    else if |body| >= 3 && (body[..2] == "0x" || body[..2] == "0X") && IsDigitOf(body[2], 16) then
      prefix == body[..2] && radix == 16
    else if body != "" && body[0] == '0' then prefix == "" && radix == 8
    else prefix == "" && radix == 10
  }

  predicate SignRule(s: string, sign: string) {
    if s != "" && (s[0] == '+' || s[0] == '-') then sign == [s[0]] else sign == ""
  }

  /** Any string is a sign, a prefix, all the digits that follow, and a rest. */
  predicate Cuts(n: Numeral, s: string, base: nat) {
    && n.Text() == s && SignRule(s, n.sign)
    && RadixRule(n.Body(), base, n.prefix, n.radix)
    && n.Digital()
    && (n.end == "" || !IsDigitOf(n.end[0], n.radix))
  }

  /** What is answered: a number too long for 64 bits is out of range whatever follows it; then
      no digits, or anything but a newline after them, is invalid; then a value that is not an
      `int` is out of range. */
  function Answer(n: Numeral): Result<int> {
    if Positional(n.values, n.radix) >= 0x1_0000_0000_0000_0000 then Err(-34)
    else if n.digits == "" || (n.end != "" && n.end != "\n") then Err(-22)
    else if -0x8000_0000 <= n.Worth() <= 0x7FFF_FFFF then Ok(n.Worth())
    else Err(-34)
  }

  // ----- digits

  lemma DigitsAgree(c: char, radix: nat)
    requires radix == 8 || radix == 10 || radix == 16
    ensures DigitValue(c, radix) >= 0 <==> IsDigitOf(c, radix)
    ensures DigitValue(c, radix) >= 0 ==> DigitIs(c, DigitValue(c, radix))
  {
    var v := DigitValue(c, radix);
    if v >= 0 {
      assert DigitIs(c, v);
    }
    forall w: nat | w < radix && DigitIs(c, w) ensures v == w {
      DigitWorth(c, w, radix);
    }
  }

  lemma DigitWorth(c: char, v: nat, radix: nat)
    requires (radix == 8 || radix == 10 || radix == 16) && v < radix && DigitIs(c, v)
    ensures DigitValue(c, radix) == v
  {
  }

  lemma {:induction false} RunIs(digits: string, values: seq<nat>, rest: string, radix: nat)
    requires (radix == 8 || radix == 10 || radix == 16) && |values| == |digits|
    requires forall i :: 0 <= i < |digits| ==> values[i] < radix && DigitIs(digits[i], values[i])
    requires rest == "" || !IsDigitOf(rest[0], radix)
    ensures DigitRun(digits + rest, radix) == |digits|
  {
    hide DigitIs, DigitValue, IsDigitOf;
    var s := digits + rest;
    if digits == "" {
      if rest != "" {
        assert s[0] == rest[0];
        DigitsAgree(rest[0], radix);
      }
    } else {
      DigitWorth(digits[0], values[0], radix);
      assert s[0] == digits[0] && s[1..] == digits[1..] + rest;
      RunIs(digits[1..], values[1..], rest, radix);
    }
  }

  lemma Distribute(a: nat, b: nat, p: nat, q: nat)
    ensures a * (b * p) + q * b == (a * p + q) * b
  {
  }

  lemma {:induction false} PositionalNext(values: seq<nat>, v: nat, radix: nat)
    ensures Positional(values + [v], radix) == Times(Positional(values, radix), radix) + v
  {
    var all := values + [v];
    if values == [] {
      assert all[1..] == [];
      assert Positional(all, radix) == v * Power(radix, 0) + Positional(all[1..], radix);
    } else {
      PositionalNext(values[1..], v, radix);
      assert all[1..] == values[1..] + [v];
      Distribute(values[0], radix, Power(radix, |values| - 1), Positional(values[1..], radix));
    }
  }

  lemma {:induction false} ValueIs(digits: string, values: seq<nat>, radix: nat)
    requires (radix == 8 || radix == 10 || radix == 16) && |values| == |digits|
    requires forall i :: 0 <= i < |digits| ==> values[i] < radix && DigitIs(digits[i], values[i])
    ensures forall i :: 0 <= i < |digits| ==> DigitValue(digits[i], radix) >= 0
    ensures ValueOf(digits, radix) == Positional(values, radix)
  {
    hide DigitIs, DigitValue, Times, Positional;
    if digits != "" {
      var k := |digits| - 1;
      ValueIs(digits[..k], values[..k], radix);
      DigitWorth(digits[k], values[k], radix);
      PositionalNext(values[..k], values[k], radix);
      assert values == values[..k] + [values[k]];
    } else {
      assert values == [];
      PositionalNone(radix);
    }
  }

  lemma PositionalNone(radix: nat)
    ensures Positional([], radix) == 0
  {
  }

  // ----- every string is answered

  /** The body without the prefix that a radix of sixteen drops. */
  function Undressed(body: string, radix: nat): string {
    if radix == 16 && |body| >= 2 && body[0] == '0' && (body[1] == 'x' || body[1] == 'X') then body[2..] else body
  }

  lemma RadixFixed(body: string, base: nat, prefix: string, tail: string, radix: nat)
    requires (base == 0 || base == 10) && RadixRule(body, base, prefix, radix) && body == prefix + tail
    ensures FixBase(body, base) == radix && (radix == 8 || radix == 10 || radix == 16)
    ensures Undressed(body, radix) == tail
  {
    hide IsDigitOf, DigitValue;
    if |body| >= 3 {
      DigitsAgree(body[2], 16);
      assert body[..2] == [body[0], body[1]];
    }
    assert prefix == "" ==> body == tail;
    Cut(prefix, tail);
  }

  lemma UnsignedBy(body: string, base: nat, radix: nat, digits: string, end: string, worth: nat)
    requires FixBase(body, base) == radix && Undressed(body, radix) == digits + end
    requires DigitRun(digits + end, radix) == |digits|
    requires forall i :: 0 <= i < |digits| ==> DigitValue(digits[i], radix) >= 0
    requires ValueOf(digits, radix) == worth
    ensures ParseUnsigned(body, base) ==
              if worth >= 0x1_0000_0000_0000_0000 then Err(-34)
              else if digits == "" || (end != "" && end != "\n") then Err(-22)
              else Ok(worth)
  {
    hide FixBase, DigitRun, ValueOf, DigitValue;
    Cut(digits, end);
  }

  lemma UnsignedAnswer(n: Numeral, s: string, base: nat)
    requires (base == 0 || base == 10) && Cuts(n, s, base)
    ensures var worth := Positional(n.values, n.radix);
            ParseUnsigned(n.Body(), base) ==
              if worth >= 0x1_0000_0000_0000_0000 then Err(-34)
              else if n.digits == "" || (n.end != "" && n.end != "\n") then Err(-22)
              else Ok(worth)
  {
    hide FixBase, DigitRun, ValueOf, Positional, DigitIs, DigitValue, IsDigitOf, RadixRule, SignRule, ParseUnsigned,
         Undressed;
    RadixFixed(n.Body(), base, n.prefix, n.Tail(), n.radix);
    RunIs(n.digits, n.values, n.end, n.radix);
    ValueIs(n.digits, n.values, n.radix);
    UnsignedBy(n.Body(), base, n.radix, n.digits, n.end, Positional(n.values, n.radix));
  }

  lemma SignedBy(s: string, base: nat, sign: string, body: string)
    requires s == sign + body && SignRule(s, sign)
    ensures KstrToInt(s, base) ==
            match ParseUnsigned(body, base)
            case Err(e) => Err(e)
            case Ok(v) =>
              var signed: int := if sign == "-" then 0 - v else v;
              if IsInt(signed) then Ok(signed) else Err(-34)
  {
    hide ParseUnsigned;
    Cut(sign, body);
  }

  /** However a string is cut up, the answer is that of its cut. */
  lemma Answers(n: Numeral, s: string, base: nat)
    requires (base == 0 || base == 10) && Cuts(n, s, base)
    ensures KstrToInt(s, base) == Answer(n)
  {
    UnsignedAnswer(n, s, base);
    hide ParseUnsigned, Positional, KstrToInt, RadixRule, IsDigitOf;
    SignedBy(s, base, n.sign, n.Body());
  }

  lemma CutDigits(t: string, radix: nat) returns (values: seq<nat>)
    requires radix == 8 || radix == 10 || radix == 16
    ensures var k := DigitRun(t, radix);
            && |values| == k
            && (forall i :: 0 <= i < k ==> values[i] < radix && DigitIs(t[i], values[i]))
            && (k < |t| ==> !IsDigitOf(t[k], radix))
  {
    var k := DigitRun(t, radix);
    values := seq(k, i requires 0 <= i < k => DigitValue(t[i], radix));
    forall i | 0 <= i < k ensures DigitIs(t[i], values[i]) {
      DigitsAgree(t[i], radix);
    }
    if k < |t| {
      DigitsAgree(t[k], radix);
    }
  }

  lemma CutSign(s: string) returns (sign: string, body: string)
    ensures SignRule(s, sign) && s == sign + body
  {
    sign := if s != "" && (s[0] == '+' || s[0] == '-') then [s[0]] else "";
    body := s[|sign|..];
  }

  lemma CutPrefix(body: string, base: nat) returns (prefix: string, tail: string, radix: nat)
    requires base == 0 || base == 10
    ensures RadixRule(body, base, prefix, radix) && body == prefix + tail
    ensures radix == 8 || radix == 10 || radix == 16
  {
    hide IsDigitOf;
    if base == 0 && |body| >= 3 && (body[..2] == "0x" || body[..2] == "0X") && IsDigitOf(body[2], 16) {
      prefix, tail, radix := body[..2], body[2..], 16;
    } else {
      prefix, tail := "", body;
      radix := if base == 0 && body != "" && body[0] == '0' then 8 else 10;
    }
  }

  /** And every string can be cut up. */
  lemma EveryStringCuts(s: string, base: nat) returns (n: Numeral)
    requires base == 0 || base == 10
    ensures Cuts(n, s, base)
  {
    hide DigitRun, DigitIs, DigitValue, IsDigitOf, RadixRule, SignRule;
    var sign, body := CutSign(s);
    var prefix, tail, radix := CutPrefix(body, base);
    var values := CutDigits(tail, radix);
    var k := DigitRun(tail, radix);
    n := Numeral(sign, prefix, tail[..k], values, radix, tail[k..]);
    CutFits(n, s, base, body, tail);
  }

  lemma CutFits(n: Numeral, s: string, base: nat, body: string, tail: string)
    requires s == n.sign + body && SignRule(s, n.sign)
    requires body == n.prefix + tail && RadixRule(body, base, n.prefix, n.radix)
    requires |n.digits| <= |tail| && n.digits == tail[..|n.digits|] && n.end == tail[|n.digits|..]
    requires |n.values| == |n.digits|
    requires forall i :: 0 <= i < |n.digits| ==> n.values[i] < n.radix && DigitIs(tail[i], n.values[i])
    requires |n.digits| < |tail| ==> !IsDigitOf(tail[|n.digits|], n.radix)
    ensures Cuts(n, s, base)
  {
    hide DigitIs, IsDigitOf, RadixRule, SignRule;
    assert n.Tail() == tail;
  }

  // ----- the numerals are exactly what is accepted

  lemma NumeralCuts(n: Numeral, base: nat)
    requires (base == 0 || base == 10) && n.WellFormed(base)
    ensures Cuts(n, n.Text(), base)
  {
    NumeralSign(n, base);
    NumeralRadix(n, base);
    NoDigits();
    hide DigitIs, IsDigitOf, RadixRule, SignRule;
  }

  lemma NumeralSign(n: Numeral, base: nat)
    requires n.WellFormed(base)
    ensures SignRule(n.Text(), n.sign)
  {
    DigitIsNoSign(n.digits[0], n.values[0]);
    hide DigitIs;
    assert n.prefix != "" ==> |n.prefix| == 2 && n.Body()[0] == n.prefix[0] == '0';
    assert n.prefix == "" ==> n.Body()[0] == n.digits[0];
    assert n.sign == "" ==> n.Text()[0] == n.Body()[0];
    assert n.sign != "" ==> n.Text()[0] == n.sign[0];
  }

  lemma NumeralRadix(n: Numeral, base: nat)
    requires (base == 0 || base == 10) && n.WellFormed(base)
    ensures RadixRule(n.Body(), base, n.prefix, n.radix)
  {
    var body := n.Body();
    if n.radix == 16 {
      assert body[..2] == n.prefix && body[2] == n.digits[0];
    } else {
      assert body == n.digits + n.end;
      if |body| >= 2 {
        SecondIsNoX(n, base);
        assert body[..2] == [body[0], body[1]];
      }
    }
  }

  lemma SecondIsNoX(n: Numeral, base: nat)
    requires n.WellFormed(base) && |n.Tail()| >= 2
    ensures n.Tail()[1] != 'x' && n.Tail()[1] != 'X'
  {
    if |n.digits| >= 2 {
      DigitIsNoX(n.digits[1], n.values[1]);
    }
  }

  lemma DigitIsNoSign(c: char, v: nat)
    requires DigitIs(c, v)
    ensures c != '+' && c != '-'
  {
  }

  lemma DigitIsNoX(c: char, v: nat)
    requires DigitIs(c, v)
    ensures c != 'x' && c != 'X'
  {
  }

  lemma NoDigits()
    ensures !IsDigitOf('\n', 8) && !IsDigitOf('\n', 10) && !IsDigitOf('\n', 16)
  {
  }

  /** A string is read as a number exactly when it is a numeral for it and the number is an
      `int`. */
  lemma AcceptedExactly(s: string, base: nat, v: int)
    requires base == 0 || base == 10
    ensures KstrToInt(s, base) == Ok(v) <==> Denotes(s, base, v) && -0x8000_0000 <= v <= 0x7FFF_FFFF
  {
    hide KstrToInt, Positional, DigitIs, IsDigitOf;
    if KstrToInt(s, base) == Ok(v) {
      var n := EveryStringCuts(s, base);
      Answers(n, s, base);
      CutIsNumeral(n, s, base);
      assert n.WellFormed(base) && n.Text() == s && n.Worth() == v;
    }
    if Denotes(s, base, v) && -0x8000_0000 <= v <= 0x7FFF_FFFF {
      var n: Numeral :| n.WellFormed(base) && n.Text() == s && n.Worth() == v;
      NumeralCuts(n, base);
      Answers(n, s, base);
    }
  }

  lemma CutIsNumeral(n: Numeral, s: string, base: nat)
    requires (base == 0 || base == 10) && Cuts(n, s, base)
    requires n.digits != "" && (n.end == "" || n.end == "\n")
    ensures n.WellFormed(base)
  {
    hide DigitIs, IsDigitOf;
    assert n.prefix == "" ==> n.Body()[0] == n.digits[0];
  }

  /** Every other string is refused: as out of range when it starts with a number that is too
      long for 64 bits or is a numeral for a number that is not an `int`, and as invalid
      otherwise. */
  lemma RefusedExactly(s: string, base: nat) returns (n: Numeral)
    requires base == 0 || base == 10
    ensures Cuts(n, s, base)
    ensures var r := KstrToInt(s, base);
            && (r == Err(-34) <==>
                  || Positional(n.values, n.radix) >= 0x1_0000_0000_0000_0000
                  || (n.WellFormed(base) && !(-0x8000_0000 <= n.Worth() <= 0x7FFF_FFFF)))
            && (r == Err(-22) <==>
                  && Positional(n.values, n.radix) < 0x1_0000_0000_0000_0000
                  && !n.WellFormed(base))
  {
    hide KstrToInt, Positional, DigitIs, IsDigitOf;
    n := EveryStringCuts(s, base);
    Answers(n, s, base);
    if n.digits != "" && (n.end == "" || n.end == "\n") {
      CutIsNumeral(n, s, base);
    }
  }

  // ----- the parameter

  ghost predicate IsIntNumeral(s: string) {
    exists v: int :: Denotes(s, 0, v) && -0x8000_0000 <= v <= 0x7FFF_FFFF
  }

  lemma TokenAccepted(s: string)
    ensures KstrToInt(s, 0).Ok? <==> IsIntNumeral(s)
    ensures KstrToInt(s, 0).Ok? ==> Denotes(s, 0, KstrToInt(s, 0).value)
  {
    hide KstrToInt, Denotes;
    if KstrToInt(s, 0).Ok? {
      AcceptedExactly(s, 0, KstrToInt(s, 0).value);
    }
    if IsIntNumeral(s) {
      var v :| Denotes(s, 0, v) && -0x8000_0000 <= v <= 0x7FFF_FFFF;
      AcceptedExactly(s, 0, v);
    }
  }

  /** What a list of tokens yields: the numbers of those before the first that is not a numeral,
      and that one's error. */
  lemma {:induction false} TokensYield(ts: seq<string>)
    ensures var r := ParseTokens(ts);
            && |r.vals| <= |ts|
            && (forall k :: 0 <= k < |r.vals| ==> Denotes(ts[k], 0, r.vals[k]))
            && (r.err == 0 ==> |r.vals| == |ts|)
            && (r.err != 0 ==>
                  && |r.vals| < |ts| && !IsIntNumeral(ts[|r.vals|])
                  && KstrToInt(ts[|r.vals|], 0) == Err(r.err))
  {
    hide KstrToInt, Denotes, IsIntNumeral;
    if ts != [] {
      TokenAccepted(ts[0]);
      TokensYield(ts[1..]);
    }
  }

  lemma {:induction false} NonEmptyMembers(ts: seq<string>, t: string)
    ensures t in NonEmpty(ts) <==> t in ts && t != ""
  {
    if ts != [] {
      NonEmptyMembers(ts[1..], t);
      assert t in ts <==> t == ts[0] || t in ts[1..];
    }
  }

  /** The parameter parses exactly when every token between its commas is empty or a numeral for
      an `int`. */
  lemma ParseSucceeds(s: string)
    ensures Parse(s).err == 0 <==> forall t :: t in Tokens(s) && t != "" ==> IsIntNumeral(t)
  {
    hide Tokens, NonEmpty, ParseTokens, IsIntNumeral, Denotes;
    var ts := NonEmpty(Tokens(s));
    TokensYield(ts);
    forall t ensures t in ts <==> t in Tokens(s) && t != "" {
      NonEmptyMembers(Tokens(s), t);
    }
    if Parse(s).err == 0 {
      NoneRefused(ts);
    } else {
      assert ts[|Parse(s).vals|] in ts;
    }
  }

  lemma {:induction false} NoneRefused(ts: seq<string>)
    requires ParseTokens(ts).err == 0
    ensures forall t :: t in ts ==> IsIntNumeral(t)
  {
    hide KstrToInt, Denotes, IsIntNumeral;
    if ts != [] {
      TokenAccepted(ts[0]);
      NoneRefused(ts[1..]);
    }
  }

  function CommaJoin(ts: seq<string>): string {
    if ts == [] then "" else if |ts| == 1 then ts[0] else ts[0] + "," + CommaJoin(ts[1..])
  }

  /** The tokens hold no comma, and with commas between them they are the parameter again. */
  lemma {:induction false} TokensJoin(s: string)
    ensures |Tokens(s)| >= 1 && CommaJoin(Tokens(s)) == s
    ensures forall k :: 0 <= k < |Tokens(s)| ==> ',' !in Tokens(s)[k]
    decreases |s|
  {
    hide Tokens, CommaJoin;
    var n := UpToComma(s);
    if n < |s| {
      var head, tail := s[..n], s[n + 1..];
      TokensJoin(tail);
      JoinStep(head, tail);
      assert s == head + [COMMA] + tail;
    } else {
      NoCommaToken(s);
      CommaJoinOne(s);
    }
  }

  lemma CommaJoinOne(t: string)
    ensures CommaJoin([t]) == t
  {
  }

  lemma JoinStep(head: string, tail: string)
    requires ',' !in head && |Tokens(tail)| >= 1 && CommaJoin(Tokens(tail)) == tail
    requires forall k :: 0 <= k < |Tokens(tail)| ==> ',' !in Tokens(tail)[k]
    ensures var s := head + [COMMA] + tail;
            && |Tokens(s)| >= 1 && CommaJoin(Tokens(s)) == s
            && forall k :: 0 <= k < |Tokens(s)| ==> ',' !in Tokens(s)[k]
  {
    hide Tokens, UpToComma, CommaJoin;
    TokensHead(head, tail);
    CommaJoinMore(head, Tokens(tail));
  }

  lemma CommaJoinMore(t: string, ts: seq<string>)
    requires ts != []
    ensures CommaJoin([t] + ts) == t + "," + CommaJoin(ts)
  {
    assert ([t] + ts)[1..] == ts;
  }
}
