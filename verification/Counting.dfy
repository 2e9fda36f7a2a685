/** n_choose_k and n_perm_k: counts computed from rising products, and their
    agreement with the lengths of the complete comb and perm runs. */
module Counting {
  import opened Nonlinear
  import opened Binomial
  import MixedRadix
  import Perm
  import Comb
  import Rcomb

  /** lo * (lo + 1) * ... * hi. */
  function Product(lo: int, hi: int): (p: int)
    ensures lo >= 1 ==> p >= 1
    decreases hi - lo
  {
    if lo > hi then 1 else Product(lo, hi - 1) * hi
  }

  function Factorial(n: nat): (f: int)
    ensures f >= 1
  {
    if n == 0 then 1 else Factorial(n - 1) * n
  }

  /** n (n - 1) ... (n - k + 1). */
  function Falling(n: nat, k: nat): nat
    requires k <= n
  {
    MixedRadix.Total(Perm.Radix(n, k))
  }

  method RisingProduct(m: int, n: int) returns (acc: int)
    ensures acc == Product(if m < 1 then 1 else m, n)
  {
    if n < 1 { return 1; }
    if m > n { return 1; }
    var next := if m < 1 then 1 else m;
    ghost var lo := next;
    acc := next;
    next := next + 1;
    while next <= n
      invariant lo < next <= n + 1
      invariant acc == Product(lo, next - 1)
    {
      acc := acc * next;
      next := next + 1;
    }
  }

  lemma {:induction false} ProductFromOne(n: nat)
    ensures Product(1, n) == Factorial(n)
  {
    if n > 0 { ProductFromOne(n - 1); }
  }

  lemma {:induction false} FallingFirst(n: nat, k: nat)
    requires 1 <= k <= n
    ensures Falling(n, k) == n * Falling(n - 1, k - 1)
  {
    assert Perm.Radix(n, k)[1..] == Perm.Radix(n - 1, k - 1);
  }

  lemma {:induction false} ProductIsFalling(n: nat, k: nat)
    requires k <= n
    ensures Product(n - k + 1, n) == Falling(n, k)
  {
    if k > 0 {
      ProductIsFalling(n - 1, k - 1);
      FallingFirst(n, k);
      assert n - 1 - (k - 1) + 1 == n - k + 1;
      Commute(Falling(n - 1, k - 1), n);
    }
  }

  /** The falling product, taken from its other end. */
  lemma {:induction false} FallingLast(n: nat, k: nat)
    requires k < n
    ensures Falling(n, k + 1) == Falling(n, k) * (n - k)
  {
    if k > 0 {
      FallingLast(n - 1, k - 1);
      FallingFirst(n, k);
      Associate(n, Falling(n - 1, k - 1), n - k);
    }
    FallingFirst(n, k + 1);
  }

  lemma {:induction false} PascalStep(a: int, b: int, g: int, k: int, n: int, f: int)
    requires a * g == f && b * (g * k) == f * (n - k)
    ensures (a + b) * (g * k) == n * f
  {
    Distribute(a, b, g * k);
    Associate(a, g, k);
    Commute(f, n - k);
    Commute(f, k);
    Distribute(k, n - k, f);
  }

  /** k! times the Pascal binomial is the falling product: the division is exact. */
  lemma {:induction false} ChooseTimesFactorial(n: nat, k: nat)
    requires k <= n
    ensures Choose(n, k) * Factorial(k) == Falling(n, k)
  {
    if k == 0 {
      assert Falling(n, 0) == 1;
    } else {
      var f, a, b, g := Falling(n - 1, k - 1), Choose(n - 1, k - 1), Choose(n - 1, k), Factorial(k - 1);
      ChooseTimesFactorial(n - 1, k - 1);
      assert b * (g * k) == f * (n - k) by {
        if k == n {
          ChooseTooMany(n - 1, k);
        } else {
          ChooseTimesFactorial(n - 1, k);
          FallingLast(n - 1, k - 1);
        }
      }
      PascalStep(a, b, g, k, n, f);
      FallingFirst(n, k);
    }
  }

  lemma {:induction false} ExactQuotient(q: nat, d: int)
    requires d >= 1
    ensures (q * d) / d == q && (q * d) % d == 0
  {
    var m: int := q * d;
    var z := m / d - q;
    assert z * d + m % d == 0 by { Distribute(m / d, -(q as int), d); }
    if z >= 1 { ScaleLe(1, z, d); assert false; }
    if z <= -1 { ScaleLe(z, -1, d); assert false; }
  }

  lemma {:induction false} FactorialGrows(n: nat, k: nat)
    requires 1 <= n < k
    ensures Factorial(n) < Factorial(k)
  {
    ScaleLe(2, k, Factorial(k - 1));
    if n < k - 1 { FactorialGrows(n, k - 1); }
  }

  lemma {:induction false} FormulaIsChoose(n: nat, k: nat)
    ensures var r := Product(if n - k + 1 < 1 then 1 else n - k + 1, n) / Product(1, k);
            (r == Choose(n, k) <==> !(n == 0 && k == 1)) && (n == 0 && k == 1 ==> r == 1)
  {
    ProductFromOne(k);
    if k <= n {
      assert Product(n - k + 1, n) == Choose(n, k) * Factorial(k) by {
        ProductIsFalling(n, k);
        ChooseTimesFactorial(n, k);
      }
      ExactQuotient(Choose(n, k), Factorial(k));
    } else {
      ProductFromOne(n);
      ChooseTooMany(n, k);
      FormulaTooMany(n, k);
    }
  }

  lemma {:induction false} FormulaTooMany(n: nat, k: nat)
    requires n < k
    ensures Factorial(n) / Factorial(k) == if n == 0 && k == 1 then 1 else 0
  {
    if n == 0 && k == 1 {
      assert Factorial(0) == 1 && Factorial(1) == 1;
    } else {
      assert Factorial(n) < Factorial(k) by {
        if n == 0 { FactorialGrows(1, k); assert Factorial(1) == 1; } else { FactorialGrows(n, k); }
      }
      SmallQuotient(Factorial(n), Factorial(k));
    }
  }

  lemma {:induction false} SmallQuotient(a: int, b: int)
    requires 0 <= a < b
    ensures a / b == 0
  {
  }

  /** n_choose_k. It is the binomial for all nonnegative arguments except (0, 1),
      where it answers 1. Negative ones give 1 for k up to 1 and 0 above. */
  method NChooseK(n: int, k: int) returns (r: int)
    ensures 0 <= n && 0 <= k ==> (r == Choose(n, k) <==> !(n == 0 && k == 1))
    ensures n == 0 && k == 1 ==> r == 1
    ensures n < 0 || k < 0 ==> r == if k <= 1 then 1 else 0
  {
    var top := RisingProduct(n - k + 1, n);
    var bottom := RisingProduct(1, k);
    r := top / bottom;
    if 0 <= n && 0 <= k { FormulaIsChoose(n, k); }
    if n < 0 && k >= 1 { ProductFromOne(k); FormulaTooMany(0, k); }
  }

  /** n_perm_k. With more picks than things it answers n! instead of 0, and 1 for negative
      arguments. */
  method NPermK(n: int, k: int) returns (r: int)
    ensures 0 <= k <= n ==> r == Falling(n, k)
    ensures 0 <= n < k ==> r == Factorial(n) > 0
    ensures n < 0 || k < 0 ==> r == 1
  {
    r := RisingProduct(n - k + 1, n);
    if 0 <= k <= n { ProductIsFalling(n, k); }
    if 0 <= n < k { ProductFromOne(n); }
  }

  /** The three run lengths, in closed form. */
  lemma {:induction false} RunLengths<T>(list: seq<T>, k: nat)
    ensures k <= |list| ==> |Comb.Subsets(list, k)| * Factorial(k) == Product(|list| - k + 1, |list|)
    ensures k <= |list| ==> |Perm.Arranged(list, k)| == Product(|list| - k + 1, |list|)
    ensures list != [] ==> |Rcomb.Selections(list, k)| == Choose(|list| + k - 1, k)
  {
    if k <= |list| {
      ProductIsFalling(|list|, k);
      ChooseTimesFactorial(|list|, k);
    }
    if list != [] { MultichooseIsChoose(|list|, k); }
  }

  /** Counting a run by formula: the length of the complete comb and perm runs. */
  method CountRuns<T>(list: seq<T>, k: nat) returns (combs: int, perms: int)
    requires k <= |list|
    ensures combs == |Comb.Subsets(list, k)|
    ensures perms == |Perm.Arranged(list, k)|
  {
    combs := NChooseK(|list|, k);
    perms := NPermK(|list|, k);
  }
}
