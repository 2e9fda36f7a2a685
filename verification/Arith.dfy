/** Integers as the arithmetic functions see them: fixnums, and bignums, which some
    operations leave in place of a fixnum of the same value. Every branch on the two kinds
    of operand is written out, for a build whose bignum digits are as wide as a word. */
module Arith {
  import opened Fixnum
  import opened Nonlinear

  datatype Num = Fix(n: int) | Big(n: int)
  {
    /** How integers are read and most results are returned: small ones are fixnums. */
    predicate Proper() {
      Fix? <==> IsFixnum(n)
    }
  }

  function Abs(n: int): nat {
    if n < 0 then -n else n
  }

  /** normalize, and num for a machine integer. */
  function Normal(n: int): (r: Num)
    ensures r.n == n && r.Proper()
  {
    if IsFixnum(n) then Fix(n) else Big(n)
  }

  function Neg(a: Num): (r: Num)
    ensures r.n == -a.n
  {
    if a.Fix? then Normal(-a.n) else Big(-a.n)
  }

  function Plus(a: Num, b: Num): Num {
    match (a, b)
    case (Fix(x), Fix(y)) => Normal(x + y)
    case (Fix(x), Big(y)) => if x == 0 then b else Normal(if x > 0 then y + Abs(x) else y - Abs(x))
    case (Big(x), Fix(y)) => if y == 0 then a else Normal(if y > 0 then x + Abs(y) else x - Abs(y))
    case (Big(x), Big(y)) => Normal(x + y)
  }

  /** The test for the sign of a fixnum from which a bignum is taken looks at its absolute
      value. */
  function Minus(a: Num, b: Num): Num {
    match (a, b)
    case (Fix(x), Fix(y)) => Normal(x - y)
    case (Fix(x), Big(y)) => if x == 0 then Big(-y) else Normal(-(if Abs(x) > 0 then y - Abs(x) else y + Abs(x)))
    case (Big(x), Fix(y)) => if y == 0 then a else Normal(if y > 0 then x - Abs(y) else x + Abs(y))
    case (Big(x), Big(y)) => Normal(x - y)
  }

  /** So does the test for the sign of a fixnum that multiplies a bignum. */
  function Mul(a: Num, b: Num): Num {
    match (a, b)
    case (Fix(x), Fix(y)) => Normal(x * y)
    case (Fix(x), Big(y)) => if x == 1 then b else Big(if Abs(x) < 0 then -(y * Abs(x)) else y * Abs(x))
    case (Big(x), Fix(y)) => if y == 1 then a else Big(if y < 0 then -(x * Abs(y)) else x * Abs(y))
    case (Big(x), Big(y)) => Big(x * y)
  }

  /** Any bignum compares as if it were beyond every fixnum. */
  predicate Lt(a: Num, b: Num) {
    match (a, b)
    case (Fix(x), Fix(y)) => x < y
    case (Fix(_), Big(y)) => y > 0
    case (Big(x), Fix(_)) => x < 0
    case (Big(x), Big(y)) => x < y
  }

  /** eq on two results of which at least one has just been computed: two bignums are then
      different objects. */
  predicate Eq(a: Num, b: Num) {
    a.Fix? && b.Fix? && a.n == b.n
  }

  // ---- When they are exact ----------------------------------------------------------

  lemma {:induction false} PlusExact(a: Num, b: Num)
    ensures Plus(a, b).n == a.n + b.n
  {
  }

  /** Subtraction is exact unless a bignum is taken from a negative fixnum. */
  lemma {:induction false} MinusExact(a: Num, b: Num)
    ensures Minus(a, b).n == a.n - b.n <==> !(a.Fix? && a.n < 0 && b.Big?)
    ensures a.Fix? && a.n < 0 && b.Big? ==> Minus(a, b).n == -a.n - b.n
  {
  }

  /** Multiplication is exact unless a negative fixnum on the left multiplies a bignum on the
      right; it then has the wrong sign. */
  lemma {:induction false} MulExact(a: Num, b: Num)
    ensures Mul(a, b).n == a.n * b.n <==> !(a.Fix? && a.n < 0 && b.Big? && b.n != 0)
    ensures a.Fix? && a.n < 0 && b.Big? ==> Mul(a, b).n == -(a.n * b.n)
  {
    NegateProduct(a.n, b.n);
    NegateProduct(b.n, a.n);
    Commute(a.n, b.n);
    if a.Fix? && a.n < 0 && b.Big? && b.n != 0 {
      if b.n > 0 { ScaleLe(a.n, -1, b.n); } else { ScaleLe(a.n, -1, -b.n); NegateProduct(a.n, b.n); }
    }
  }

  lemma {:induction false} NegateProduct(x: int, y: int)
    ensures x * -y == -(x * y)
  {
  }

  lemma {:induction false} LtExact(a: Num, b: Num)
    requires a.Proper() && b.Proper()
    ensures Lt(a, b) <==> a.n < b.n
  {
  }

  /** The sign is lost on the smallest operands there are. */
  lemma {:induction false} LostSigns()
    ensures var b := 0x2000_0000_0000_0000;
            Mul(Fix(-1), Big(b)).n == b && Minus(Fix(-1), Big(b)).n == 1 - b
  {
  }
}
