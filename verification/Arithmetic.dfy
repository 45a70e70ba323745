/** Ranges of numbers; and products, quotients and remainders of numbers that are both unknown, defined so that proofs
    about them use the laws below and nothing else.  That Mul is the product says MulIs; that Div and Mod are the
    quotient and the remainder say DivMod and Quotient. */
module Arithmetic {

  predicate Between(lo: nat, a: nat, hi: int) {
    lo <= a < hi
  }

  /** The numbers from lo to before hi. */
  function Range(lo: nat, hi: int): set<nat> {
    set a: nat | lo <= a < hi && Between(lo, a, hi)
  }

  function Mul(a: nat, b: nat): nat {
    if a == 0 then 0 else Mul(a - 1, b) + b
  }

  function Div(a: nat, m: nat): nat
    requires m >= 1
  {
    if a < m then 0 else Div(a - m, m) + 1
  }

  function Mod(a: nat, m: nat): nat
    requires m >= 1
  {
    if a < m then a else Mod(a - m, m)
  }

  lemma {:induction false} MulIs(a: nat, b: nat)
    ensures Mul(a, b) == a * b
  {
    if a > 0 {
      MulIs(a - 1, b);
    }
  }

  lemma {:induction false} MulAdd(a: nat, b: nat, m: nat)
    ensures Mul(a + b, m) == Mul(a, m) + Mul(b, m)
  {
    if b > 0 {
      MulAdd(a, b - 1, m);
    }
  }

  lemma MulMore(a: nat, b: nat, m: nat)
    requires a < b
    ensures Mul(a, m) + m <= Mul(b, m)
  {
    MulAdd(a + 1, b - (a + 1), m);
  }

  lemma MulUpTo(a: nat, b: nat, m: nat)
    requires a <= b
    ensures Mul(a, m) <= Mul(b, m)
  {
    MulAdd(a, b - a, m);
  }

  lemma {:induction false} MulAssoc(a: nat, b: nat, c: nat)
    ensures Mul(a, Mul(b, c)) == Mul(Mul(a, b), c)
  {
    if a > 0 {
      MulAssoc(a - 1, b, c);
      MulAdd(Mul(a - 1, b), b, c);
    }
  }

  lemma {:induction false} DivMod(a: nat, m: nat)
    requires m >= 1
    ensures a == Mul(Div(a, m), m) + Mod(a, m) && Mod(a, m) < m
  {
    if a >= m {
      DivMod(a - m, m);
    }
  }

  lemma Quotient(k: nat, d: nat, m: nat)
    requires d < m
    ensures Div(Mul(k, m) + d, m) == k && Mod(Mul(k, m) + d, m) == d
  {
    var a := Mul(k, m) + d;
    DivMod(a, m);
    if Div(a, m) < k {
      MulMore(Div(a, m), k, m);
    } else if Div(a, m) > k {
      MulMore(k, Div(a, m), m);
    }
  }

  lemma SameMultiple(k: nat, l: nat, a: nat, m: nat)
    requires Mul(k, m) <= a < Mul(k, m) + m && Mul(l, m) <= a < Mul(l, m) + m
    ensures k == l
  {
    Quotient(k, a - Mul(k, m), m);
    Quotient(l, a - Mul(l, m), m);
  }
}
