/** Products, quotients and indices round a ring: the arithmetic that the solver is led through step by step. */
module Arithmetic {

  function Quotient(a: nat, b: nat): nat
    requires b > 0
  {
    a / b
  }

  /** `q` is `a / b`: what fixes a quotient. */
  lemma {:induction false} QuotientIs(a: nat, b: nat, q: nat)
    requires b > 0 && q * b <= a < q * b + b
    ensures a / b == q
  {
    var r := a % b;
    assert a == a / b * b + r;
    if a / b < q {
      MulMono(a / b + 1, q, b);
    } else if a / b > q {
      MulMono(q + 1, a / b, b);
    }
  }

  lemma {:induction false} MulMono(a: int, b: int, c: nat)
    requires a <= b
    ensures a * c <= b * c
  {
  }

  lemma {:induction false} QuotientBounds(a: nat, b: nat)
    requires b > 0
    ensures a / b * b <= a < a / b * b + b
  {
    assert a == a / b * b + a % b;
  }

  lemma {:induction false} QuotientMono(a: nat, b: nat, c: nat)
    requires c > 0 && a <= b
    ensures a / c <= b / c
  {
    QuotientBounds(a, c);
    QuotientBounds(b, c);
    if b / c < a / c {
      MulMono(b / c + 1, a / c, c);
    }
  }

  lemma {:induction false} Distribute(a: nat, b: nat, c: nat)
    ensures (a + b) * c == a * c + b * c
  {
  }

  /** The index after `idx`, round a ring of `n`. */
  function NextIdx(idx: nat, n: nat): (next: nat)
    ensures idx < n ==> next < n
  {
    if idx + 1 == n then 0 else idx + 1
  }
}
