/** The few facts about products and quotients that the other proofs cite by name. */
module Nonlinear {

  lemma {:induction false} ScaleLe(a: int, b: int, t: int)
    requires a <= b && 0 <= t
    ensures a * t <= b * t
  {
  }

  lemma {:induction false} Distribute(a: int, b: int, t: int)
    ensures (a + b) * t == a * t + b * t
  {
  }

  lemma {:induction false} Commute(a: int, b: int)
    ensures a * b == b * a
  {
  }

  lemma {:induction false} Associate(a: int, b: int, c: int)
    ensures a * (b * c) == (a * b) * c
  {
  }

  lemma {:induction false} ProductPositive(a: nat, b: nat)
    requires a * b > 0
    ensures a > 0 && b > 0
  {
  }

  lemma {:induction false} QuotientBound(v: nat, q: nat, t: nat)
    requires t > 0 && v < q * t
    ensures v / t < q && v == (v / t) * t + v % t
  {
    if v / t >= q { ScaleLe(q, v / t, t); assert false; }
  }
}
