/** Binomial counts by the Pascal recurrences. */
module Binomial {

  /** k-subsets of n things. */
  function Choose(n: nat, k: nat): nat {
    if k == 0 then 1 else if n == 0 then 0 else Choose(n - 1, k - 1) + Choose(n - 1, k)
  }

  /** k-multisets of n things. */
  function Multichoose(n: nat, k: nat): nat {
    if k == 0 then 1 else if n == 0 then 0 else Multichoose(n, k - 1) + Multichoose(n - 1, k)
  }

  lemma {:induction false} ChooseTooMany(n: nat, k: nat)
    requires k > n
    ensures Choose(n, k) == 0
  {
    if n > 0 {
      ChooseTooMany(n - 1, k - 1);
      ChooseTooMany(n - 1, k);
    }
  }

  lemma {:induction false} ChoosePositive(n: nat, k: nat)
    requires k <= n
    ensures Choose(n, k) >= 1
  {
    if k > 0 { ChoosePositive(n - 1, k - 1); }
  }

  /** Multisets are subsets of a longer row: C(n + k - 1, k). */
  lemma {:induction false} MultichooseIsChoose(n: nat, k: nat)
    requires n + k > 0
    ensures Multichoose(n, k) == Choose(n + k - 1, k)
    decreases n + k
  {
    if k > 0 {
      if n == 0 {
        ChooseTooMany(k - 1, k);
      } else {
        MultichooseIsChoose(n, k - 1);
        MultichooseIsChoose(n - 1, k);
      }
    }
  }
}
