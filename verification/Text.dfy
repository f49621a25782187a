/** Printing and parsing integers the way the kernel's `%d` and `kstrtoint` do. */
module Text {
  import opened Arith
  import opened Errno
  import opened Wrappers

  // ----- printing

  function DigitChar(d: nat): char
    requires d < 10
  {
    '0' + d as char
  }

  predicate IsDigit(c: char) { '0' <= c <= '9' }

  function Digits(n: nat): (s: string)
    ensures |s| >= 1
    ensures forall i :: 0 <= i < |s| ==> IsDigit(s[i])
    ensures s[0] == '0' <==> n == 0
    ensures s[0] == '0' ==> |s| == 1
  {
    if n < 10 then [DigitChar(n)] else Digits(n / 10) + [DigitChar(n % 10)]
  }

  function ShowInt(v: int): (s: string)
    ensures |s| >= 1
    ensures forall i :: 0 <= i < |s| ==> IsDigit(s[i]) || s[i] == '-'
    ensures s[0] == '-' <==> v < 0
    ensures v >= 0 ==> (s[0] == '0' ==> s == "0")
  {
    if v < 0 then "-" + Digits(-v) else Digits(v)
  }

  // ----- parsing

  /** The value of a digit in `base`, or -1. */
  function DigitValue(c: char, base: nat): (v: int)
    ensures -1 <= v < base || v == -1
  {
    var v :=
      if IsDigit(c) then c as int - '0' as int
      else if 'a' <= c <= 'f' then c as int - 'a' as int + 10
      else if 'A' <= c <= 'F' then c as int - 'A' as int + 10
      else base;
    if v < base then v else -1
  }

  function DigitRun(s: string, base: nat): (n: nat)
    ensures n <= |s|
    ensures forall i :: 0 <= i < n ==> DigitValue(s[i], base) >= 0
    ensures n < |s| ==> DigitValue(s[n], base) < 0
  {
    if s == "" || DigitValue(s[0], base) < 0 then 0 else 1 + DigitRun(s[1..], base)
  }

  function ValueOf(s: string, base: nat): nat
    requires forall i :: 0 <= i < |s| ==> DigitValue(s[i], base) >= 0
  {
    if s == "" then 0
    else Times(ValueOf(s[..|s| - 1], base), base) + DigitValue(s[|s| - 1], base)
  }

  /** Base 0 means: hexadecimal after 0x, octal after another leading 0, decimal otherwise. */
  function FixBase(s: string, base: nat): nat {
    if base != 0 then base
    else if s != "" && s[0] == '0' then
      if |s| >= 3 && (s[1] == 'x' || s[1] == 'X') && DigitValue(s[2], 16) >= 0 then 16 else 8
    else 10
  }

  function ParseUnsigned(s: string, base: nat): (r: Result<nat>)
    ensures r.Ok? ==> r.value < 0x1_0000_0000_0000_0000
    ensures r.Err? ==> r.error == EINVAL || r.error == ERANGE
  {
    var b := FixBase(s, base);
    var t := if b == 16 && |s| >= 2 && s[0] == '0' && (s[1] == 'x' || s[1] == 'X') then s[2..] else s;
    var n := DigitRun(t, b);
    if ValueOf(t[..n], b) >= 0x1_0000_0000_0000_0000 then Err(ERANGE)
    else if n == 0 then Err(EINVAL)
    else if t[n..] != "" && t[n..] != "\n" then Err(EINVAL)
    else Ok(ValueOf(t[..n], b))
  }

  /** `kstrtoint`: an optional sign, one number, an optional final newline. */
  function KstrToInt(s: string, base: nat): (r: Result<int>)
    ensures r.Ok? ==> IsInt(r.value)
    ensures r.Err? ==> r.error == EINVAL || r.error == ERANGE
  {
    var negative := s != "" && s[0] == '-';
    var body := if s != "" && (s[0] == '-' || s[0] == '+') then s[1..] else s;
    match ParseUnsigned(body, base)
    case Err(e) => Err(e)
    case Ok(v) =>
      var signed: int := if negative then 0 - v else v;
      if IsInt(signed) then Ok(signed) else Err(ERANGE)
  }

  // ----- round trip

  lemma {:induction false} RunOfDigits(s: string, base: nat)
    requires forall i :: 0 <= i < |s| ==> DigitValue(s[i], base) >= 0
    ensures DigitRun(s, base) == |s|
  {
    if s != "" {
      RunOfDigits(s[1..], base);
    }
  }

  lemma {:induction false} ValueOfDigits(n: nat)
    ensures forall i :: 0 <= i < |Digits(n)| ==> DigitValue(Digits(n)[i], 10) >= 0
    ensures ValueOf(Digits(n), 10) == n
  {
    if n >= 10 {
      ValueOfDigits(n / 10);
      assert Digits(n)[..|Digits(n)| - 1] == Digits(n / 10);
    }
  }

  lemma ParseZero(base: nat)
    requires base == 0 || base == 10
    ensures ParseUnsigned("0", base) == Ok(0)
  {
    assert "0"[..1] == "0" && "0"[1..] == "" && "0"[..0] == "";
    assert DigitRun("0", 8) == 1 && DigitRun("0", 10) == 1;
    assert ValueOf("0", 8) == 0 && ValueOf("0", 10) == 0;
  }

  lemma FixDecimal(s: string, base: nat)
    requires (base == 0 || base == 10) && s != "" && s[0] != '0'
    ensures FixBase(s, base) == 10
  {
  }

  lemma ParseWhole(s: string, base: nat, v: nat)
    requires FixBase(s, base) == 10 && s != "" && v < 0x1_0000_0000_0000_0000
    requires DigitRun(s, 10) == |s| && ValueOf(s, 10) == v
    ensures ParseUnsigned(s, base) == Ok(v)
  {
    hide FixBase, DigitRun, ValueOf, DigitValue, Times;
    assert s[..|s|] == s && s[|s|..] == "";
  }

  lemma ParseDigits(n: nat, base: nat)
    requires (base == 0 || base == 10) && n < 0x1_0000_0000_0000_0000
    ensures ParseUnsigned(Digits(n), base) == Ok(n)
  {
    hide Digits, ParseUnsigned, FixBase, DigitRun, ValueOf, DigitValue, Times;
    if n == 0 {
      assert Digits(0) == "0" by { ZeroDigits(); }
      ParseZero(base);
    } else {
      var s := Digits(n);
      ValueOfDigits(n);
      RunOfDigits(s, 10);
      FixDecimal(s, base);
      ParseWhole(s, base, n);
    }
  }

  lemma ZeroDigits()
    ensures Digits(0) == "0"
  {
  }

  /** Printing and parsing undo each other for every 32-bit value, in base 10 and when the base
      is guessed. */
  lemma ShowThenParse(v: int, base: nat)
    requires IsInt(v) && (base == 0 || base == 10)
    ensures KstrToInt(ShowInt(v), base) == Ok(v)
  {
    hide Digits, ParseUnsigned;
    if v < 0 {
      ParseDigits(-v, base);
      assert ShowInt(v)[1..] == Digits(-v);
    } else {
      ParseDigits(v, base);
      assert IsDigit(ShowInt(v)[0]);
    }
  }

  lemma ShowIntInjective(v: int, w: int)
    requires IsInt(v) && IsInt(w) && ShowInt(v) == ShowInt(w)
    ensures v == w
  {
    ShowThenParse(v, 10);
    ShowThenParse(w, 10);
  }
}
