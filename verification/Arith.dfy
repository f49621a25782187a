/** The C `int`, and products kept behind a name so that the solver sees no multiplication
    unless a proof is about one. */
module Arith {
  const INT_MIN := -0x8000_0000
  const INT_MAX := 0x7FFF_FFFF

  predicate IsInt(v: int) { INT_MIN <= v <= INT_MAX }

  type Int32 = v: int | IsInt(v) witness 0

  function Times(k: nat, n: nat): nat {
    k * n
  }

  lemma TimesNone(n: nat)
    ensures Times(0, n) == 0
  {
  }

  lemma TimesNext(k: nat, n: nat)
    ensures Times(k + 1, n) == Times(k, n) + n
  {
  }

  lemma {:induction false} TimesApart(p: nat, q: nat, n: nat)
    requires p < q
    ensures Times(p, n) + n <= Times(q, n)
  {
    if p + 1 == q {
      TimesNext(p, n);
    } else {
      TimesApart(p, q - 1, n);
      TimesNext(q - 1, n);
    }
  }

  lemma TimesGrows(p: nat, q: nat, n: nat)
    ensures p <= q ==> Times(p, n) <= Times(q, n)
  {
    hide Times;
    if p < q {
      TimesApart(p, q, n);
    }
  }

  /** A multiple of a multiple. */
  lemma TimesTimes(k: nat, m: nat, n: nat)
    ensures Times(k, Times(m, n)) == Times(Times(k, m), n)
  {
  }
}
