/** The four division flavours on fixnums and bignums, and the integer square root. */
module Division {
  import opened Wrappers
  import opened Nonlinear
  import opened Bits
  import opened Fixnum
  import opened Arith

  /** C's a % b, which takes the sign of a. */
  function CRem(a: int, b: int): int
    requires b > 0
  {
    if a < 0 then -(-a % b) else a % b
  }

  /** The quotient of the magnitudes with its sign, which is how machine integers and the
      bignum library divide. */
  function Truncated(a: int, b: int): int
    requires b != 0
  {
    var quot: int := Abs(a) / Abs(b);
    if (a < 0) != (b < 0) then -quot else quot
  }

  /** One less if the signs differ and something is left over. */
  function Floored(a: int, b: int): int
    requires b != 0
  {
    Truncated(a, b) - if (a < 0) != (b < 0) && Abs(a) % Abs(b) != 0 then 1 else 0
  }

  /** trunc; Error for division by zero. */
  function Trunc(a: Num, b: Num): Result<Num> {
    match (a, b)
    case (Fix(x), Fix(y)) => if y == 0 then Error else Ok(Normal(Truncated(x, y)))
    case (Fix(_), Big(_)) => Ok(Fix(0))
    case (Big(x), _) => if b == Fix(1) then Ok(a) else if b.n == 0 then Error else Ok(Normal(Truncated(x, b.n)))
  }

  /** floor with two arguments. */
  function Floordiv(a: Num, b: Num): Result<Num> {
    match (a, b)
    case (Fix(x), Fix(y)) =>
      if y == 0 then Error else
        var quot: int := Abs(x) / Abs(y);
        Ok(Normal(if (x < 0 && y > 0) || (x > 0 && y < 0) then
                    (if quot * Abs(y) != Abs(x) then -quot - 1 else -quot)
                  else quot))
    case (Fix(x), Big(y)) => Ok(Fix(if (x < 0 && y >= 0) || (x > 0 && y < 0) then -1 else 0))
    case (Big(x), _) => if b == Fix(1) then Ok(a) else if b.n == 0 then Error else Ok(Normal(Floored(x, b.n)))
  }

  /** mp_mod_d, which does not look at the sign of a number larger than the divisor. */
  function ModDigit(x: int, d: nat): int
    requires d > 0
  {
    if Abs(x) > d then Abs(x) % d else if x < 0 then d - Abs(x) else x
  }

  function Mod(a: Num, b: Num): Result<Num> {
    if b.n == 0 then Error else
      match (a, b)
      case (Fix(x), Fix(y)) =>
        if y < 0 then
          var m := CRem(-x, -y);
          Ok(Normal(-(if m < 0 then m - y else m)))
        else
          var m := CRem(x, y);
          Ok(Normal(if m < 0 then m + y else m))
      case (Big(x), Fix(y)) => Ok(Normal(if y < 0 then -ModDigit(-x, -y) else ModDigit(x, y)))
      case (_, Big(y)) => Ok(Normal(if y < 0 then -(-a.n % -y) else a.n % y))
  }

  function Ceildiv(a: Num, b: Num): Result<Num> {
    match Floordiv(Neg(a), b)
    case Ok(q) => Ok(Neg(q))
    case Error => Error
  }

  /** round with two arguments. */
  function Roundiv(anum: Num, bnum: Num): Result<Num> {
    var a := if bnum.n < 0 then Neg(anum) else anum;
    var b := if bnum.n < 0 then Neg(bnum) else bnum;
    match Floordiv(a, b)
    case Error => Error
    case Ok(quot) =>
      var rem := Minus(a, Mul(quot, b));
      var drem := Normal(2 * rem.n);
      Ok(if Eq(drem, b) then (if quot.n < 0 then quot else Plus(quot, Fix(1)))
         else if Lt(drem, b) then quot else Plus(quot, Fix(1)))
  }

  // ---- Quotient and remainder ---------------------------------------------------------

  lemma {:induction false} TruncatedLaw(a: int, b: int)
    requires b != 0
    ensures var r := a - Truncated(a, b) * b;
            r == (if a < 0 then -(Abs(a) % Abs(b)) else Abs(a) % Abs(b)) && Abs(r) < Abs(b)
  {
    var n, d := Abs(a), Abs(b);
    var quot: int, rem: int := n / d, n % d;
    assert n == d * quot + rem && 0 <= rem < d;
    Commute(d, quot);
    SignedProducts(quot, d);
    if a == 0 { RemainderUnique(0, d, 0, 0); }
    var q := Truncated(a, b);
    assert q * b == if a < 0 then -(quot * d) else quot * d;
  }

  lemma {:induction false} FlooredLaw(a: int, b: int)
    requires b != 0
    ensures var m := a - Floored(a, b) * b; if b > 0 then 0 <= m < b else b < m <= 0
  {
    TruncatedLaw(a, b);
    Distribute(Truncated(a, b), -1, b);
  }

  lemma {:induction false} SignedProducts(x: int, y: int)
    ensures -x * y == -(x * y) && x * -y == -(x * y) && -x * -y == x * y
  {
    NegateProduct(x, y);
    NegateProduct(-x, y);
    NegateProduct(y, x);
    Commute(-x, y);
    Commute(x, y);
  }

  /** What the operations may be given: a result of one of them, or a proper number. */
  predicate Operand(a: Num) {
    a.Fix? ==> IsFixnum(a.n)
  }

  /** A dividend no larger than the divisor. */
  lemma {:induction false} FlooredSmall(a: int, b: int)
    requires b != 0 && (Abs(a) < Abs(b) || a == -b)
    ensures Floored(a, b) == if (a < 0 && b >= 0) || (a > 0 && b < 0) then -1 else 0
  {
    var n, d := Abs(a), Abs(b);
    if n < d { RemainderUnique(n, d, 0, n); } else { RemainderUnique(n, d, 1, 0); }
  }

  lemma {:induction false} FlooredByOne(a: int)
    ensures Floored(a, 1) == a
  {
    RemainderUnique(Abs(a), 1, Abs(a), 0);
  }

  lemma {:induction false} FloorFixnums(x: int, y: int)
    requires y != 0
    ensures var quot: int := Abs(x) / Abs(y);
            Floored(x, y) == if (x < 0 && y > 0) || (x > 0 && y < 0) then
                               (if quot * Abs(y) != Abs(x) then -quot - 1 else -quot)
                             else quot
  {
    var n, d := Abs(x), Abs(y);
    var quot: int, rem: int := n / d, n % d;
    assert n == d * quot + rem;
    Commute(d, quot);
    if n == 0 { RemainderUnique(0, d, 0, 0); }
  }

  /** Every branch of floor computes the floor. */
  lemma {:induction false} FloorLaw(a: Num, b: Num)
    requires Operand(a) && b.Proper() && b.n != 0
    ensures Floordiv(a, b).Ok? && Floordiv(a, b).value.n == Floored(a.n, b.n)
    ensures a.Proper() || b != Fix(1) ==> Floordiv(a, b).value.Proper()
  {
    if a.Fix? && b.Fix? {
      FloorFixnums(a.n, b.n);
    } else if a.Fix? {
      FlooredSmall(a.n, b.n);
    } else if b == Fix(1) {
      FlooredByOne(a.n);
    }
  }

  /** trunc drops the fraction, so that the remainder is smaller than the divisor and has the
      dividend's sign, for all operands but one pair: the least fixnum over its negative, for
      which it returns 0. */
  lemma {:induction false} TruncLaw(a: Num, b: Num)
    requires a.Proper() && b.Proper() && b.n != 0
    ensures Trunc(a, b).Ok?
    ensures var r := a.n - Trunc(a, b).value.n * b.n;
            Abs(r) < Abs(b.n) && (a.n >= 0 ==> r >= 0) && (a.n <= 0 ==> r <= 0)
            <==> !(a.n == NUM_MIN && b.n == -NUM_MIN)
  {
    Trunc0(a, b);
    if !(a.n == NUM_MIN && b.n == -NUM_MIN) { TruncatedSigns(a.n, b.n); }
  }

  lemma {:induction false} TruncatedSigns(a: int, b: int)
    requires b != 0
    ensures var r := a - Truncated(a, b) * b; Abs(r) < Abs(b) && (a >= 0 ==> r >= 0) && (a <= 0 ==> r <= 0)
  {
    TruncatedLaw(a, b);
    if a == 0 { RemainderUnique(0, Abs(b), 0, 0); }
  }

  lemma {:induction false} Trunc0(a: Num, b: Num)
    requires a.Proper() && b.Proper() && b.n != 0
    ensures Trunc(a, b).Ok?
    ensures Trunc(a, b).value.n == if a.n == NUM_MIN && b.n == -NUM_MIN then 0 else Truncated(a.n, b.n)
  {
    if b == Fix(1) { RemainderUnique(Abs(a.n), 1, Abs(a.n), 0); }
    if a.Fix? && b.Big? && Abs(a.n) < Abs(b.n) { RemainderUnique(Abs(a.n), Abs(b.n), 0, Abs(a.n)); }
  }

  /** The pairs for which mod takes the magnitude's remainder for the number's own. */
  predicate ModIgnoresSign(a: Num, b: Num)
    requires b.n != 0
  {
    a.Big? && b.Fix? && (a.n < 0) != (b.n < 0)
  }

  /** mod is the remainder of floor, with the divisor's sign, unless a bignum is taken modulo
      a fixnum of the other sign and what is left over is neither nothing nor half. */
  lemma {:induction false} FloorModLaw(a: Num, b: Num)
    requires a.Proper() && b.Proper() && b.n != 0
    ensures Floordiv(a, b).Ok? && Mod(a, b).Ok?
    ensures var q, m := Floordiv(a, b).value.n, Mod(a, b).value.n;
            && (q * b.n + m == a.n <==>
                  !(ModIgnoresSign(a, b) && Abs(a.n) % Abs(b.n) != 0 && 2 * (Abs(a.n) % Abs(b.n)) != Abs(b.n)))
            && (if b.n > 0 then 0 <= m < b.n else b.n < m <= 0)
            && (if b.n > 0 then 0 <= a.n - q * b.n < b.n else b.n < a.n - q * b.n <= 0)
  {
    FloorLaw(a, b);
    FlooredLaw(a.n, b.n);
    ModIs(a, b);
    FlooredRemainder(a.n, b.n);
  }

  /** Remainders from magnitudes. */
  function FloorRem(a: int, b: int): int
    requires b != 0
  {
    SignedRem(Abs(a) % Abs(b), a, b)
  }

  function SignedRem(r: int, a: int, b: int): int {
    if r == 0 then 0
    else if b > 0 then (if a < 0 then b - r else r)
    else (if a <= 0 then -r else b + r)
  }

  lemma {:induction false} FlooredRemainder(a: int, b: int)
    requires b != 0
    ensures a - Floored(a, b) * b == FloorRem(a, b)
  {
    TruncatedLaw(a, b);
    Distribute(Truncated(a, b), -1, b);
  }

  lemma {:induction false} EuclidRem(a: int, d: int)
    requires d > 0
    ensures a % d == FloorRem(a, d)
  {
    FlooredRemainder(a, d);
    FlooredLaw(a, d);
    Commute(d, Floored(a, d));
    RemainderUnique(a, d, Floored(a, d), FloorRem(a, d));
  }

  lemma {:induction false} FlipRem(a: int, b: int)
    requires b != 0
    ensures FloorRem(-a, -b) == -FloorRem(a, b)
  {
    var r := Abs(a) % Abs(b);
    if a == 0 { RemainderUnique(0, Abs(b), 0, 0); }
    assert SignedRem(r, -a, -b) == -SignedRem(r, a, b);
  }

  lemma {:induction false} ModIs(a: Num, b: Num)
    requires a.Proper() && b.Proper() && b.n != 0
    ensures Mod(a, b).Ok?
    ensures var r := Abs(a.n) % Abs(b.n);
            Mod(a, b).value.n ==
            if ModIgnoresSign(a, b) then (if b.n > 0 then r else -r) else FloorRem(a.n, b.n)
  {
    if b.n < 0 {
      FlipRem(a.n, b.n);
      ModByPositive(a, b, -a.n, -b.n);
    } else {
      ModByPositive(a, b, a.n, b.n);
    }
  }

  /** All three kinds of branch, with the signs moved into the number. */
  lemma {:induction false} ModByPositive(a: Num, b: Num, x: int, d: int)
    requires a.Proper() && b.Proper() && d > 0 && Abs(x) == Abs(a.n) && Abs(d) == Abs(b.n)
    requires if b.n < 0 then x == -a.n && d == -b.n else x == a.n && d == b.n
    ensures a.Fix? && b.Fix? ==> FloorRem(x, d) == if CRem(x, d) < 0 then CRem(x, d) + d else CRem(x, d)
    ensures b.Big? ==> x % d == FloorRem(x, d)
    ensures a.Big? && b.Fix? ==> ModDigit(x, d) == if x < 0 then Abs(x) % d else FloorRem(x, d)
  {
    if b.Big? {
      EuclidRem(x, d);
    } else if a.Big? {
      DigitRem(x, d);
    } else {
      FixnumRem(x, d);
    }
  }

  lemma {:induction false} FixnumRem(x: int, d: nat)
    requires d > 0
    ensures var m := CRem(x, d); FloorRem(x, d) == if m < 0 then m + d else m
  {
  }

  lemma {:induction false} DigitRem(x: int, d: nat)
    requires d > 0 && (Abs(x) > d || x + d == 0)
    ensures ModDigit(x, d) == Abs(x) % d
  {
    if Abs(x) == d { RemainderUnique(d, d, 1, 0); }
  }

  /** -2^62 modulo 3 is 2, but comes out as 1. */
  lemma {:induction false} ModExample()
    ensures Mod(Big(-0x4000_0000_0000_0000), Fix(3)) == Ok(Fix(1)) && -0x4000_0000_0000_0000 % 3 == 2
  {
  }

  /** All five raise the division error exactly for a zero divisor. */
  lemma {:induction false} ZeroDivisor(a: Num, b: Num)
    requires a.Proper() && b.Proper()
    ensures Trunc(a, b).Error? <==> b.n == 0
    ensures Floordiv(a, b).Error? <==> b.n == 0
    ensures Mod(a, b).Error? <==> b.n == 0
    ensures Ceildiv(a, b).Error? <==> b.n == 0
    ensures Roundiv(a, b).Error? <==> b.n == 0
  {
  }

  // ---- Rounding up and to nearest -------------------------------------------------------

  /** q is at least a / b. */
  predicate AtLeast(q: int, a: int, b: int) {
    if b > 0 then q * b >= a else q * b <= a
  }

  /** ceil is the least integer that is at least a / b. */
  lemma {:induction false} CeilingLaw(a: Num, b: Num)
    requires a.Proper() && b.Proper() && b.n != 0
    ensures Ceildiv(a, b).Ok? && AtLeast(Ceildiv(a, b).value.n, a.n, b.n)
    ensures forall p: int | AtLeast(p, a.n, b.n) :: Ceildiv(a, b).value.n <= p
  {
    FloorLaw(Neg(a), b);
    FlooredLaw(-a.n, b.n);
    var f := Floored(-a.n, b.n);
    SignedProducts(f, b.n);
    forall p: int | AtLeast(p, a.n, b.n) ensures -f <= p { LeastAbove(p, f, a.n, b.n); }
  }

  lemma {:induction false} LeastAbove(p: int, f: int, a: int, b: int)
    requires b != 0 && AtLeast(p, a, b) && f == Floored(-a, b)
    ensures -f <= p
  {
    FlooredLaw(-a, b);
    SignedProducts(f, b);
    if p < -f {
      Distribute(-f, -1, b);
      if b > 0 {
        ScaleLe(p, -f - 1, b);
      } else {
        ScaleLe(p, -f - 1, -b);
        NegateProduct(p, b);
        NegateProduct(-f - 1, b);
      }
      assert false;
    }
  }

  /** Twice the distance from q to a / b, in units of 1 / |b|. */
  function Distance(q: int, a: int, b: int): int {
    2 * Abs(a - q * b)
  }

  /** The dividend and divisor after the signs are moved into the dividend, and their floor. */
  function Dividend(a: Num, b: Num): int { if b.n < 0 then -a.n else a.n }

  function FloorOf(a: Num, b: Num): int
    requires b.n != 0
  {
    Floored(Dividend(a, b), Abs(b.n))
  }

  /** What is above the floor, out of |b|. */
  function Above(a: Num, b: Num): (m: int)
    requires b.n != 0
    ensures 0 <= m < Abs(b.n)
  {
    FlooredLaw(Dividend(a, b), Abs(b.n));
    Dividend(a, b) - FloorOf(a, b) * Abs(b.n)
  }

  /** The product of floor and divisor loses its sign, so that round returns the floor. */
  predicate ProductLost(a: Num, b: Num)
    requires b.n != 0
  {
    FloorOf(a, b) < 0 && IsFixnum(FloorOf(a, b)) && !IsFixnum(Abs(b.n))
  }

  /** The product is a bignum that is taken from a negative fixnum, so that round returns one
      more than the floor. */
  predicate DifferenceLost(a: Num, b: Num)
    requires b.n != 0
  {
    && Dividend(a, b) < 0 && IsFixnum(a.n) && IsFixnum(Dividend(a, b))
    && IsFixnum(Abs(b.n)) && !IsFixnum(FloorOf(a, b) * Abs(b.n))
  }

  /** The rounded quotient is the floor or one more. */
  lemma {:induction false} RoundPicks(a: Num, b: Num)
    requires a.Proper() && b.Proper() && b.n != 0
    ensures Roundiv(a, b).Ok?
    ensures var f, m, d := FloorOf(a, b), Above(a, b), Abs(b.n);
            Roundiv(a, b).value.n ==
            if ProductLost(a, b) then f
            else if DifferenceLost(a, b) then f + 1
            else if 2 * m < d || (2 * m == d && IsFixnum(d) && f < 0) then f else f + 1
  {
    var x := if b.n < 0 then Neg(a) else a;
    var y := if b.n < 0 then Neg(b) else b;
    var m := Above(a, b);
    QuotientIs(x, y, m);
    var quot := Floordiv(x, y).value;
    PlusExact(quot, Fix(1));
    RoundTests(x, y, quot, m);
  }

  /** The first quotient, and what is left above it. */
  lemma {:induction false} QuotientIs(x: Num, y: Num, m: int)
    requires Operand(x) && y.Proper() && y.n > 0 && m == x.n - Floored(x.n, y.n) * y.n && 0 <= m < y.n
    ensures Floordiv(x, y).Ok? && Floordiv(x, y).value.n == Floored(x.n, y.n)
    ensures var quot := Floordiv(x, y).value;
            && (x.Proper() || y != Fix(1) ==> quot.Proper())
            && (quot.n < 0 <==> x.n < 0) && (quot.n < 0 ==> quot.n * y.n <= -y.n) && (quot.n < -1 ==> x.n < -y.n)
            && (x.Fix? ==> IsFixnum(quot.n) && quot.Fix?)
  {
    FloorLaw(x, y);
    FloorRange(Floored(x.n, y.n), m, x.n, y.n);
    if x.Fix? { FlooredFixnum(Floored(x.n, y.n), m, x.n, y.n); }
  }

  /** The remainder's double, as it comes out, against the divisor. */
  lemma {:induction false} RoundTests(x: Num, y: Num, quot: Num, m: int)
    requires Operand(x) && y.Proper() && y.n > 0 && 0 <= m < y.n && m == x.n - quot.n * y.n
    requires quot.Proper() || y == Fix(1)
    requires quot.n < 0 <==> x.n < 0
    requires quot.n < 0 ==> quot.n * y.n <= -y.n
    requires quot.n < -1 ==> x.n < -y.n
    requires x.Fix? ==> IsFixnum(quot.n) && quot.Fix?
    ensures var drem := Normal(2 * Minus(x, Mul(quot, y)).n);
            if quot.n < 0 && quot.Fix? && y.Big? then !Eq(drem, y) && Lt(drem, y)
            else if x.Fix? && x.n < 0 && y.Fix? && !IsFixnum(quot.n * y.n) then !Eq(drem, y) && !Lt(drem, y)
            else (Eq(drem, y) <==> 2 * m == y.n && y.Fix?) && (Lt(drem, y) <==> 2 * m < y.n)
  {
    var prod := Mul(quot, y);
    MulExact(quot, y);
    MinusExact(x, prod);
    LtExact(Normal(2 * Minus(x, prod).n), y);
  }

  lemma {:induction false} FloorRange(f: int, m: int, x: int, y: int)
    requires y > 0 && 0 <= m < y && m == x - f * y
    ensures f < 0 <==> x < 0
    ensures f < 0 ==> f * y <= -y
    ensures f < -1 ==> x < -y
  {
    if f >= 0 { ScaleLe(0, f, y); } else { ScaleLe(f, -1, y); }
    if f < -1 { ScaleLe(f, -2, y); }
  }

  lemma {:induction false} FlooredFixnum(f: int, m: int, x: int, y: int)
    requires y > 0 && 0 <= m < y && m == x - f * y
    ensures x < 0 ==> x <= f
    ensures x >= 0 ==> 0 <= f <= x
  {
    if x < 0 && f < x {
      Distribute(f, 1, y);
      ScaleLe(f + 1, x, y);
      Distribute(x, 0, y);
      if x * y > x { assert false by { ScaleLe(1, y, -x); Commute(y, -x); NegateProduct(y, x); Commute(y, x); } }
      assert false;
    }
    if x >= 0 { if f < 0 { ScaleLe(f, -1, y); } if f > x { ScaleLe(1, y, f); Commute(y, f); } }
  }

  /** round returns a nearest integer exactly when a lost sign does not send it the wrong
      way. Halfway between two integers it goes away from zero, except where the difference
      loses its sign, and where floor and divisor are bignums and the quotient is negative. */
  lemma {:induction false} RoundLaw(a: Num, b: Num)
    requires a.Proper() && b.Proper() && b.n != 0
    ensures Roundiv(a, b).Ok?
    ensures var q, m, d := Roundiv(a, b).value.n, Above(a, b), Abs(b.n);
            && (Distance(q, a.n, b.n) <= d <==>
                  (ProductLost(a, b) ==> 2 * m <= d) && (DifferenceLost(a, b) ==> 2 * m >= d))
            && (2 * m == d ==>
                  (Abs(q * b.n) > Abs(a.n) <==>
                     !DifferenceLost(a, b) && (ProductLost(a, b) || IsFixnum(d) || FloorOf(a, b) >= 0)))
  {
    RoundPicks(a, b);
    var q, f, m, d := Roundiv(a, b).value.n, FloorOf(a, b), Above(a, b), Abs(b.n);
    FloorRange(f, m, Dividend(a, b), d);
    Neighbours(a.n, b.n, Dividend(a, b), f, m);
  }

  /** How far the floor and the next integer are, and on which side of the quotient. */
  lemma {:induction false} Neighbours(a: int, b: int, x: int, f: int, m: int)
    requires b != 0 && x == (if b < 0 then -a else a) && 0 <= m < Abs(b) && m == x - f * Abs(b)
    requires (f < 0 <==> x < 0) && (f < 0 ==> f * Abs(b) + Abs(b) <= 0)
    ensures Distance(f, a, b) == 2 * m && Distance(f + 1, a, b) == 2 * (Abs(b) - m)
    ensures m > 0 ==> (Abs(f * b) > Abs(a) <==> f < 0) && (Abs((f + 1) * b) > Abs(a) <==> f >= 0)
  {
    SignedProducts(f, Abs(b));
    SignedProducts(f + 1, Abs(b));
    Distribute(f, 1, Abs(b));
  }

  /** On fixnums a sign is lost only with the least fixnum as divisor, or if floor times
      divisor leaves the fixnums. */
  lemma {:induction false} FixnumRound(a: Num, b: Num)
    requires a.Fix? && b.Fix? && a.Proper() && b.Proper() && b.n != 0
    ensures ProductLost(a, b) <==> FloorOf(a, b) < 0 && b.n == NUM_MIN
    ensures DifferenceLost(a, b) <==> FloorOf(a, b) < 0 && b.n != NUM_MIN && !IsFixnum(FloorOf(a, b) * Abs(b.n))
    ensures 2 * Above(a, b) == Abs(b.n) ==>
              (Abs(Roundiv(a, b).value.n * b.n) > Abs(a.n) <==> !DifferenceLost(a, b))
  {
    RoundLaw(a, b);
    var f, m, x := FloorOf(a, b), Above(a, b), Dividend(a, b);
    FloorRange(f, m, x, Abs(b.n));
    FlooredFixnum(f, m, x, Abs(b.n));
  }

  /** Quotients just off zero over the least fixnum, and a large dividend over 3, are not
      rounded to a nearest integer. */
  lemma {:induction false} RoundExamples()
    ensures Roundiv(Fix(1), Fix(NUM_MIN)) == Ok(Fix(-1)) && Roundiv(Fix(-1), Fix(NUM_MIN)) == Ok(Fix(0))
    ensures Roundiv(Fix(NUM_MIN), Fix(3)) == Ok(Fix(-768614336404564650))
    ensures Distance(-768614336404564650, NUM_MIN, 3) > 3 >= Distance(-768614336404564651, NUM_MIN, 3)
    ensures Roundiv(Fix(0x1000_0000_0000_0000), Fix(NUM_MIN)) == Ok(Fix(-1))
  {
    RoundByLeast(1);
    RoundByLeast(-1);
    RoundByLeast(0x1000_0000_0000_0000);
    RoundThird();
  }

  /** What round gives for dividends no larger than half of the least fixnum. */
  lemma {:induction false} RoundByLeast(a: int)
    requires a != 0 && -0x1000_0000_0000_0000 <= a <= 0x1000_0000_0000_0000
    ensures a > 0 ==> Roundiv(Fix(a), Fix(NUM_MIN)) == Ok(Fix(-1))
    ensures a < 0 && 2 * a > NUM_MIN ==> Roundiv(Fix(a), Fix(NUM_MIN)) == Ok(Fix(0))
  {
  }

  lemma {:induction false} RoundThird()
    ensures Roundiv(Fix(NUM_MIN), Fix(3)) == Ok(Fix(-768614336404564650))
  {
    var a, floor, prod := Fix(NUM_MIN), Fix(-768614336404564651), Big(-2305843009213693953);
    assert Floordiv(a, Fix(3)) == Ok(floor);
    assert Mul(floor, Fix(3)) == prod;
    assert Minus(a, prod) == Big(4611686018427387905);
  }

  // ---- isqrt_fixnum -------------------------------------------------------------------

  /** root | mask on machine words. */
  function BitOr(a: nat, b: nat, w: nat): nat {
    ToNat(Or(ToBits(a, w), ToBits(b, w)))
  }

  /** Setting a clear bit with | adds it. */
  lemma {:induction false} OrSetsBit(a: nat, k: nat, w: nat)
    requires k < w && a < Pow2(w) && (a / Pow2(k)) % 2 == 0
    ensures BitOr(a, Pow2(k), w) == a + Pow2(k)
    decreases k
  {
    var x, y := ToBits(a, w), ToBits(Pow2(k), w);
    var x', y' := ToBits(a / 2, w - 1), ToBits(Pow2(k) / 2, w - 1);
    assert Or(x, y)[1..] == Or(x', y');
    if k == 0 {
      assert y' == Zeros(w - 1) by { ToBitsZero(w - 1); }
      assert Or(x', y') == x';
      UnsignedRoundTrip(a / 2, w - 1);
    } else {
      HalveTwice(a, Pow2(k - 1));
      OrSetsBit(a / 2, k - 1, w - 1);
    }
  }

  lemma {:induction false} HalveTwice(a: nat, p: int)
    requires p > 0
    ensures a / (2 * p) == (a / 2) / p
  {
    HalveModulo(a, p);
    var q := (a / 2) / p;
    Associate(2, p, q);
    RemainderUnique(a, 2 * p, q, a % 2 + 2 * ((a / 2) % p));
  }

  lemma {:induction false} ToBitsZero(w: nat)
    ensures ToBits(0, w) == Zeros(w)
  {
    if w > 0 {
      ToBitsZero(w - 1);
      assert Zeros(w)[1..] == Zeros(w - 1);
    }
  }

  /** isqrt_fixnum: guess the root bit by bit, from half the bit length down. No guess
      exceeds 31 bits, so no square overflows. */
  method IsqrtFixnum(a: nat) returns (root: nat)
    requires a <= NUM_MAX
    ensures root * root <= a < (root + 1) * (root + 1)
  {
    ghost var k: int := HighestBit(a) / 2;
    FixnumBits(a);
    InitialGuess(a, k);
    var mask: nat := Pow2(HighestBit(a) / 2);
    root := 0;
    while mask != 0
      invariant -1 <= k <= 30 && mask == (if k < 0 then 0 else Pow2(k))
      invariant Narrowed(root, if k < 0 then 1 else 2 * Pow2(k), a)
      decreases k + 1
    {
      root := TryBit(root, mask, a, k);
      mask, k := mask / 2, k - 1;
    }
  }

  /** The loop body: keep the bit if the guess is not too large. */
  method TryBit(root: nat, mask: nat, a: nat, ghost k: nat) returns (root': nat)
    requires k <= 30 && mask == Pow2(k) && Narrowed(root, 2 * mask, a)
    ensures Narrowed(root', mask, a)
  {
    GuessFits(root, k, a);
    var guess := BitOr(root, mask, 64);
    assert guess * guess < 0x7FFF_FFFF_FFFF_FFFF;
    NextRoot(root, mask, a);
    root' := if guess * guess <= a then guess else root;
  }

  /** The root lies in [root, root + step), root is a multiple of step below 2^31. */
  ghost predicate Narrowed(root: nat, step: int, a: nat) {
    step > 0 && root <= 0x7FFF_FFFF && root % step == 0 && root * root <= a < (root + step) * (root + step)
  }

  lemma {:induction false} FixnumBits(a: nat)
    requires a <= NUM_MAX
    ensures HighestBit(a) <= 61
  {
    Pow2Values();
    if HighestBit(a) > 61 { Pow2Monotone(61, HighestBit(a) - 1); }
  }

  lemma {:induction false} InitialGuess(a: nat, k: nat)
    requires k == HighestBit(a) / 2
    ensures Narrowed(0, 2 * Pow2(k), a)
  {
    var p := Pow2(k + 1);
    assert p == 2 * Pow2(k);
    Pow2Monotone(HighestBit(a), (k + 1) + (k + 1));
    Pow2Sum(k + 1, k + 1);
  }

  lemma {:induction false} GuessFits(root: nat, k: nat, a: nat)
    requires k <= 30 && Narrowed(root, 2 * Pow2(k), a)
    ensures BitOr(root, Pow2(k), 64) == root + Pow2(k) <= 0x7FFF_FFFF
    ensures (root + Pow2(k)) * (root + Pow2(k)) < 0x7FFF_FFFF_FFFF_FFFF
  {
    var p := Pow2(k);
    GuessBound(root, k);
    OrSetsBit(root, k, 64);
    GuessSquare(root + p);
  }

  lemma {:induction false} GuessBound(root: nat, k: nat)
    requires k <= 30 && root <= 0x7FFF_FFFF && root % (2 * Pow2(k)) == 0
    ensures root + Pow2(k) <= 0x7FFF_FFFF && (root / Pow2(k)) % 2 == 0 && 0x7FFF_FFFF < Pow2(64)
  {
    Pow2Values();
    BitClear(root, Pow2(k));
    Pow2Sum(k + 1, 30 - k);
    RoomForBit(root, 2 * Pow2(k), Pow2(30 - k));
  }

  lemma {:induction false} BitClear(root: nat, p: int)
    requires p > 0 && root % (2 * p) == 0
    ensures root % p == 0 && (root / p) % 2 == 0
  {
    var q := root / (2 * p);
    assert root == p * (2 * q) by { Associate(p, 2, q); Commute(p, 2); }
    RemainderUnique(root, p, 2 * q, 0);
  }

  /** A multiple of m below m * c leaves room for another m. */
  lemma {:induction false} RoomForBit(root: nat, m: int, c: int)
    requires m > 0 && c > 0 && root % m == 0 && root < m * c
    ensures root + m <= m * c
  {
    var q := root / m;
    Commute(m, c);
    Commute(m, q);
    if q >= c { ScaleLe(c, q, m); assert false; }
    ScaleLe(q + 1, c, m);
    Distribute(q, 1, m);
  }

  lemma {:induction false} GuessSquare(g: nat)
    requires g <= 0x7FFF_FFFF
    ensures g * g < 0x7FFF_FFFF_FFFF_FFFF
  {
    ScaleLe(g, 0x7FFF_FFFF, g);
  }

  /** Testing the middle of the interval halves it. */
  lemma {:induction false} NextRoot(root: nat, step: int, a: nat)
    requires step > 0 && Narrowed(root, 2 * step, a)
    ensures (root + step) * (root + step) > a ==> Narrowed(root, step, a)
    ensures (root + step) * (root + step) <= a && root + step <= 0x7FFF_FFFF ==> Narrowed(root + step, step, a)
  {
    BitClear(root, step);
    var q := root / step;
    Distribute(q, 1, step);
    Commute(step, q + 1);
    Commute(step, q);
    RemainderUnique(root + step, step, q + 1, 0);
  }
}
