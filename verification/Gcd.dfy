/** gcd, lcm and divides on fixnums. The binary gcd loop runs on unsigned machine words. */
module Gcd {
  import opened Wrappers
  import opened Nonlinear
  import opened Bits
  import opened Fixnum
  import opened Arith
  import Division

  const WORD: int := 0x1_0000_0000_0000_0000

  /** c_u: a fixnum as an unsigned word. */
  function Unsigned(n: int): (u: nat)
    requires IsFixnum(n)
    ensures u < WORD
  {
    if n < 0 then WORD + n else n
  }

  // ---- Greatest common divisors ---------------------------------------------------

  predicate Divides(d: int, n: int) {
    d > 0 && n % d == 0
  }

  /** g is a common divisor that every common divisor divides. */
  ghost predicate IsGcd(g: int, a: int, b: int) {
    Divides(g, a) && Divides(g, b) && forall d: int | Divides(d, a) && Divides(d, b) :: Divides(d, g)
  }

  /** Euclid's definition. */
  function Gcd(a: nat, b: nat): (g: nat)
    decreases b
  {
    if b == 0 then a else Gcd(b, a % b)
  }

  lemma {:induction false} DividesMultiple(d: int, q: int)
    requires d > 0
    ensures Divides(d, d * q)
  {
    RemainderUnique(d * q, d, q, 0);
  }

  lemma {:induction false} Quotient(d: int, n: int) returns (q: int)
    requires Divides(d, n)
    ensures n == d * q
  {
    q := n / d;
  }

  lemma {:induction false} DividesLinear(d: int, a: int, b: int, k: int)
    requires Divides(d, a) && Divides(d, b)
    ensures Divides(d, a + k * b)
  {
    var x := Quotient(d, a);
    var y := Quotient(d, b);
    assert a + k * b == d * (x + k * y) by {
      Associate(k, d, y);
      Commute(k, d);
      Associate(d, k, y);
      Commute(d, x + k * y);
      Distribute(x, k * y, d);
    }
    DividesMultiple(d, x + k * y);
  }

  lemma {:induction false} DividesAtMost(d: int, n: int)
    requires Divides(d, n) && n > 0
    ensures d <= n
  {
    if n < d { RemainderUnique(n, d, 0, n); }
  }

  lemma {:induction false} IsGcdUnique(g: int, h: int, a: int, b: int)
    requires IsGcd(g, a, b) && IsGcd(h, a, b)
    ensures g == h
  {
    DividesAtMost(g, h);
    DividesAtMost(h, g);
  }

  lemma {:induction false} GcdIsGcd(a: nat, b: nat)
    requires a > 0 || b > 0
    ensures IsGcd(Gcd(a, b), a, b)
    decreases b
  {
    if b == 0 {
      RemainderUnique(a, a, 1, 0);
      RemainderUnique(0, a, 0, 0);
    } else {
      var q, r := a / b, a % b;
      GcdIsGcd(b, r);
      GcdShift(Gcd(b, r), b, r, q);
      assert r + q * b == a by { Commute(q, b); }
    }
  }

  /** Adding multiples of one number to the other keeps the common divisors. */
  lemma {:induction false} GcdShift(g: int, a: int, b: int, k: int)
    requires IsGcd(g, a, b)
    ensures IsGcd(g, b + k * a, a) && IsGcd(g, a, b + k * a)
  {
    DividesLinear(g, b, a, k);
    forall d: int | Divides(d, b + k * a) && Divides(d, a) ensures Divides(d, b) {
      DividesBack(d, a, b, k, b + k * a);
    }
  }

  lemma {:induction false} DividesBack(d: int, a: int, b: int, k: int, c: int)
    requires Divides(d, c) && Divides(d, a) && c == b + k * a
    ensures Divides(d, b)
  {
    DividesLinear(d, c, a, -k);
    NegateProduct(a, k);
    Commute(a, k);
    Commute(a, -k);
  }

  lemma {:induction false} GcdSymmetric(a: nat, b: nat)
    requires a > 0 || b > 0
    ensures Gcd(a, b) == Gcd(b, a)
  {
    GcdIsGcd(a, b);
    GcdIsGcd(b, a);
    IsGcdUnique(Gcd(a, b), Gcd(b, a), a, b);
  }

  lemma {:induction false} GcdSubtract(a: nat, b: nat)
    requires 0 < a <= b
    ensures Gcd(a, b - a) == Gcd(a, b)
  {
    GcdIsGcd(a, b - a);
    GcdIsGcd(a, b);
    GcdShift(Gcd(a, b - a), a, b - a, 1);
    IsGcdUnique(Gcd(a, b - a), Gcd(a, b), a, b);
  }

  lemma {:induction false} GcdScale(m: nat, a: nat, b: nat)
    requires m > 0
    ensures Gcd(m * a, m * b) == m * Gcd(a, b)
    decreases b
  {
    if b > 0 {
      GcdScale(m, b, a % b);
      ScaleRemainder(m, a, b);
      ScaleLe(1, m, b);
    }
  }

  lemma {:induction false} ScaleRemainder(m: nat, a: nat, b: nat)
    requires m > 0 && b > 0
    ensures m * b > 0 && (m * a) % (m * b) == m * (a % b)
  {
    ScaleLe(1, m, b);
    var q, r := a / b, a % b;
    assert m * a == (m * b) * q + m * r by {
      Associate(m, b, q);
      Commute(m, b * q + r);
      Distribute(b * q, r, m);
      Commute(m, b * q);
      Commute(m, r);
    }
    assert m * r < m * b by {
      ScaleLe(r + 1, b, m);
      Distribute(r, 1, m);
      Commute(m, r);
      Commute(m, b);
    }
    RemainderUnique(m * a, m * b, q, m * r);
  }

  /** A factor two in one number alone does not count. */
  lemma {:induction false} GcdHalve(a: nat, b: nat)
    requires a % 2 == 1 && b > 0 && b % 2 == 0
    ensures Gcd(a, b / 2) == Gcd(a, b)
  {
    GcdIsGcd(a, b);
    GcdIsGcd(a, b / 2);
    var g := Gcd(a, b / 2);
    forall d: int | Divides(d, a) && Divides(d, b) ensures Divides(d, g) {
      OddDivisor(d, a, b);
    }
    DividesLinear(g, b / 2, b / 2, 1);
    IsGcdUnique(g, Gcd(a, b), a, b);
  }

  lemma {:induction false} OddDivisor(d: int, a: int, b: int)
    requires Divides(d, a) && a % 2 == 1 && Divides(d, b) && b % 2 == 0
    ensures Divides(d, b / 2)
  {
    var x := Quotient(d, a);
    var y := Quotient(d, b);
    if d % 2 == 0 {
      Associate(2, d / 2, x);
      assert false;
    }
    if y % 2 == 1 {
      OddProduct(d, y);
      assert false;
    }
    assert b == 2 * (d * (y / 2)) by { Associate(d, 2, y / 2); Associate(2, d, y / 2); }
    DividesMultiple(d, y / 2);
  }

  lemma {:induction false} OddProduct(x: int, y: int)
    requires x % 2 == 1 && y % 2 == 1
    ensures (x * y) % 2 == 1
  {
    var i, j := x / 2, y / 2;
    assert x * y == 2 * (i * y + j) + 1 by {
      Distribute(2 * i, 1, y);
      Associate(2, i, y);
    }
  }

  // ---- The binary loop --------------------------------------------------------------

  /** Drop factors of two from one operand while the other is odd. */
  method StripTwos(a: nat, n: nat) returns (m: nat)
    requires a % 2 == 1 && n > 0
    ensures 0 < m <= n && m % 2 == 1 && Gcd(a, m) == Gcd(a, n)
  {
    m := n;
    ghost var g := Gcd(a, n);
    while m % 2 == 0
      invariant 0 < m <= n && Gcd(a, m) == g
      decreases m
    {
      GcdHalve(a, m);
      m := m / 2;
    }
  }

  method SharedTwos(a: nat, b: nat) returns (ua: nat, ub: nat, k: nat)
    requires 0 < a && 0 < b
    ensures 0 < ua <= a && 0 < ub <= b && (ua % 2 == 1 || ub % 2 == 1)
    ensures Gcd(a, b) == Pow2(k) * Gcd(ua, ub)
  {
    ua, ub, k := a, b, 0;
    while ua % 2 == 0 && ub % 2 == 0
      decreases ua
      invariant 0 < ua <= a && 0 < ub <= b && Gcd(a, b) == Pow2(k) * Gcd(ua, ub)
    {
      GcdScale(2, ua / 2, ub / 2);
      Associate(Pow2(k), 2, Gcd(ua / 2, ub / 2));
      ua, ub, k := ua / 2, ub / 2, k + 1;
    }
  }

  /** Subtract and strip until the operands meet. */
  method OddLoop(a: nat, b: nat) returns (ua: nat)
    requires a % 2 == 1 && b % 2 == 1
    ensures ua == Gcd(a, b) > 0
  {
    var ub: nat := b;
    ua := a;
    while true
      invariant ua % 2 == 1 && ub % 2 == 1 && Gcd(ua, ub) == Gcd(a, b)
      decreases ua + ub
    {
      ghost var before := ua + ub;
      GcdSymmetric(ua, ub);
      if ua > ub {
        ua, ub := ub, ua;
      }
      GcdSubtract(ua, ub);
      ub := ub - ua;
      if ub == 0 { break; }
      ub := StripTwos(ua, ub);
      assert ua + ub < before;
    }
  }

  /** The both_ucnum path of gcd: terminates, and the final shift does not overflow. */
  method BinaryGcd(a: nat, b: nat) returns (r: nat)
    requires 0 < a < WORD && 0 < b < WORD
    ensures r == Gcd(a, b)
  {
    var ua: nat, ub: nat, k: nat := SharedTwos(a, b);
    GcdSymmetric(ua, ub);
    ghost var ua0, ub0 := ua, ub;
    if ub % 2 == 0 { ub := StripTwos(ua, ub); }
    GcdSymmetric(ua, ub);
    if ua % 2 == 0 { ua := StripTwos(ub, ua); }
    GcdSymmetric(ua, ub);
    ua := OddLoop(ua, ub);
    GcdIsGcd(a, b);
    DividesAtMost(Gcd(a, b), a);
    r := (ua * Pow2(k)) % WORD;
    Commute(ua, Pow2(k));
    RemainderUnique(ua * Pow2(k), WORD, 0, ua * Pow2(k));
  }

  /** gcd on two fixnums. Negative operands are taken as unsigned words. */
  method FixnumGcd(a: int, b: int) returns (r: int)
    requires IsFixnum(a) && IsFixnum(b)
    ensures r == GcdResult(a, b)
    ensures a > 0 && b > 0 ==> IsGcd(r, a, b)
  {
    if a == 0 { return b; }
    if b == 0 { return a; }
    r := BinaryGcd(Unsigned(a), Unsigned(b));
    GcdIsGcd(Unsigned(a), Unsigned(b));
  }

  // ---- Negative operands ----------------------------------------------------------------

  /** The greatest common divisor that gcd should return. */
  function TrueGcd(a: int, b: int): nat {
    Gcd(Abs(a), Abs(b))
  }

  /** gcd on fixnums, as FixnumGcd computes it. */
  function GcdResult(a: int, b: int): int
    requires IsFixnum(a) && IsFixnum(b)
  {
    if a == 0 then b else if b == 0 then a else Gcd(Unsigned(a), Unsigned(b))
  }

  /** Two numbers have no odd factor in common. */
  ghost predicate NoOddFactor(a: int, b: int) {
    forall d: int | d > 1 && d % 2 == 1 :: !(Divides(d, a) && Divides(d, b))
  }

  /** Taking a negative operand as its word is right exactly if neither the magnitudes nor the
      words have an odd factor in common. */
  lemma {:induction false} NegativeGcd(a: int, b: int)
    requires IsFixnum(a) && IsFixnum(b) && a != 0 && b != 0 && (a < 0 || b < 0)
    ensures GcdResult(a, b) == TrueGcd(a, b) <==>
            NoOddFactor(Abs(a), Abs(b)) && NoOddFactor(Unsigned(a), Unsigned(b))
  {
    WordsDivide(a, b);
    PowerOfTwoGcd(Abs(a), Abs(b));
    PowerOfTwoGcd(Unsigned(a), Unsigned(b));
  }

  /** A gcd divides 2^64 exactly if its arguments have no odd factor in common. */
  lemma {:induction false} PowerOfTwoGcd(a: nat, b: nat)
    requires 0 < a <= WORD && b > 0
    ensures Divides(Gcd(a, b), WORD) <==> NoOddFactor(a, b)
  {
    var g := Gcd(a, b);
    GcdIsGcd(a, b);
    DividesAtMost(g, a);
    Pow2Values();
    if Divides(g, WORD) {
      forall d: int | d > 1 && d % 2 == 1 && Divides(d, a) && Divides(d, b) ensures false {
        DividesThrough(d, g, WORD);
        OddInPower(d, 64);
      }
    } else {
      var d := OddFactor(g, 64);
      DividesThrough(d, g, a);
      DividesThrough(d, g, b);
    }
  }

  /** No odd number above 1 divides a power of two. */
  lemma {:induction false} OddInPower(d: int, k: nat)
    requires d % 2 == 1 && Divides(d, Pow2(k))
    ensures d == 1
  {
    if k == 0 {
      DividesAtMost(d, 1);
    } else {
      RemainderUnique(d, d, 1, 0);
      OddDivisor(d, d, Pow2(k));
      OddInPower(d, k - 1);
    }
  }

  /** A number up to 2^k that does not divide 2^k has an odd factor above 1. */
  lemma {:induction false} OddFactor(g: int, k: nat) returns (d: int)
    requires 0 < g <= Pow2(k) && !Divides(g, Pow2(k))
    ensures d > 1 && d % 2 == 1 && Divides(d, g)
  {
    RemainderUnique(g, g, 1, 0);
    if g % 2 == 1 {
      if g == 1 { RemainderUnique(Pow2(k), 1, Pow2(k), 0); }
      return g;
    }
    if Divides(g / 2, Pow2(k - 1)) {
      var x := Quotient(g / 2, Pow2(k - 1));
      Associate(2, g / 2, x);
      DividesMultiple(g, x);
      assert false;
    }
    d := OddFactor(g / 2, k - 1);
    DividesMultiple(g / 2, 2);
    DividesThrough(d, g / 2, g);
  }

  /** It is right exactly if the true gcd and the one computed both divide 2^64. */
  lemma {:induction false} WordsDivide(a: int, b: int)
    requires IsFixnum(a) && IsFixnum(b) && a != 0 && b != 0 && (a < 0 || b < 0)
    ensures GcdResult(a, b) == TrueGcd(a, b) <==> Divides(TrueGcd(a, b), WORD) && Divides(GcdResult(a, b), WORD)
  {
    var g, h := TrueGcd(a, b), GcdResult(a, b);
    GcdIsGcd(Abs(a), Abs(b));
    GcdIsGcd(Unsigned(a), Unsigned(b));
    if g == h {
      if a < 0 { WordFromParts(g, a); } else { WordFromParts(g, b); }
    }
    if Divides(g, WORD) && Divides(h, WORD) {
      OtherForm(g, a);
      OtherForm(g, b);
      OtherForm(h, a);
      OtherForm(h, b);
      DividesAtMost(g, h);
      DividesAtMost(h, g);
    }
  }

  /** A divisor of a magnitude and of the word it becomes divides 2^64. */
  lemma {:induction false} WordFromParts(g: int, a: int)
    requires IsFixnum(a) && a < 0 && Divides(g, Abs(a)) && Divides(g, Unsigned(a))
    ensures Divides(g, WORD)
  {
    DividesLinear(g, Unsigned(a), Abs(a), 1);
  }

  lemma {:induction false} OtherForm(g: int, a: int)
    requires IsFixnum(a) && Divides(g, WORD)
    ensures Divides(g, Abs(a)) <==> Divides(g, Unsigned(a))
  {
    if a < 0 {
      if Divides(g, Abs(a)) { DividesLinear(g, WORD, Abs(a), -1); }
      if Divides(g, Unsigned(a)) { DividesLinear(g, WORD, Unsigned(a), -1); }
    }
  }

  /** With one positive operand it is right for every negative one if and only if that operand
      divides 2^64; otherwise -b is one for which it is wrong. */
  lemma {:induction false} OneNegative(b: int)
    requires 0 < b <= NUM_MAX
    ensures (forall a: int | NUM_MIN <= a < 0 :: GcdResult(a, b) == TrueGcd(a, b)) <==> WORD % b == 0
    ensures WORD % b != 0 ==> GcdResult(-b, b) != TrueGcd(-b, b)
  {
    SelfGcd(b);
    GcdIsGcd(Unsigned(-b), b);
    if WORD % b == 0 {
      forall a: int | NUM_MIN <= a < 0 ensures GcdResult(a, b) == TrueGcd(a, b) {
        GcdIsGcd(Abs(a), b);
        GcdIsGcd(Unsigned(a), b);
        DividesThrough(TrueGcd(a, b), b, WORD);
        DividesThrough(GcdResult(a, b), b, WORD);
        WordsDivide(a, b);
      }
    } else {
      WordsDivide(-b, b);
    }
  }

  lemma {:induction false} SelfGcd(b: nat)
    requires b > 0
    ensures Gcd(b, b) == b
  {
    RemainderUnique(b, b, 1, 0);
    GcdOfDivisor(b, b);
  }

  lemma {:induction false} DividesThrough(g: int, b: int, n: int)
    requires Divides(g, b) && Divides(b, n)
    ensures Divides(g, n)
  {
    var x := Quotient(g, b);
    var y := Quotient(b, n);
    Associate(g, x, y);
    DividesMultiple(g, x * y);
  }

  /** With two negative operands it is never right for every one: a number and itself give the
      number's word. */
  lemma {:induction false} BothNegative(a: int)
    requires NUM_MIN <= a < 0
    ensures GcdResult(a, a) == WORD + a && TrueGcd(a, a) == -a != WORD + a
  {
    SelfGcd(Unsigned(a));
    SelfGcd(Abs(a));
  }

  /** A zero and a negative number give the negative number. */
  lemma {:induction false} ZeroOperand(a: int)
    requires IsFixnum(a)
    ensures (GcdResult(0, a) == TrueGcd(0, a) <==> a >= 0) && (GcdResult(a, 0) == TrueGcd(a, 0) <==> a >= 0)
  {
    if a != 0 { RemainderUnique(0, Abs(a), 0, 0); }
    assert TrueGcd(a, 0) == Abs(a);
    assert TrueGcd(0, a) == Abs(a);
  }

  /** 6 instead of 2, 1 instead of 3, and -4 instead of 4. */
  lemma {:induction false} NegativeGcdExamples()
    ensures GcdResult(-4, 6) == 6 && TrueGcd(-4, 6) == 2
    ensures GcdResult(-12, -9) == 1 && TrueGcd(-12, -9) == 3
    ensures GcdResult(0, -4) == -4
  {
    RemainderUnique(Unsigned(-4), 6, 0x2AAA_AAAA_AAAA_AAAA, 0);
    assert Gcd(Unsigned(-4), 6) == Gcd(6, 0);
    assert Gcd(4, 6) == Gcd(6, 4) == Gcd(4, 2) == Gcd(2, 0);
    var x, y := Unsigned(-12), Unsigned(-9);
    RemainderUnique(x, y, 0, x);
    RemainderUnique(y, x, 1, 3);
    RemainderUnique(x, 3, 0x5555_5555_5555_5551, 1);
    assert Gcd(x, y) == Gcd(y, x) == Gcd(x, 3) == Gcd(3, 1) == Gcd(1, 0);
    assert Gcd(12, 9) == Gcd(9, 3) == Gcd(3, 0);
  }

  // ---- lcm and divides ------------------------------------------------------------------

  /** Least, and dividing every other positive common multiple. */
  ghost predicate IsLcm(l: int, a: int, b: int) {
    && a > 0 && b > 0 && l > 0 && l % a == 0 && l % b == 0
    && forall m: int | m > 0 && m % a == 0 && m % b == 0 :: m % l == 0 && l <= m
  }

  /** Every common multiple of a and b is a multiple of ab / gcd. */
  lemma {:induction false} CommonMultiple(a: nat, b: nat, l: nat, m: nat)
    requires a > 0 && b > 0 && m > 0 && l * Gcd(a, b) == a * b && Divides(a, m) && Divides(b, m)
    ensures Divides(l, m)
  {
    var g := Gcd(a, b);
    var x := Quotient(a, m);
    var y := Quotient(b, m);
    assert l > 0 && g > 0 by { ScaleLe(1, a, b); ProductPositive(l, g); }
    assert Divides(a * b, m * a) by { Commute(m, a); Associate(a, b, y); DividesMultiple(a * b, y); ScaleLe(1, a, b); }
    assert Divides(a * b, m * b) by {
      Commute(a, b);
      Commute(m, b);
      Associate(b, a, x);
      DividesMultiple(b * a, x);
      ScaleLe(1, a, b);
    }
    GcdScale(m, a, b);
    ScaleLe(1, m, a);
    GcdIsGcd(m * a, m * b);
    CancelCommon(l, m, g);
  }

  lemma {:induction false} CancelCommon(l: nat, m: nat, g: nat)
    requires l > 0 && g > 0 && Divides(l * g, m * g)
    ensures Divides(l, m)
  {
    var z := Quotient(l * g, m * g);
    assert (m - l * z) * g == 0 by {
      Distribute(m, -(l * z), g);
      assert l * z * g == l * g * z by { Associate(l, z, g); Associate(l, g, z); Commute(z, g); }
    }
    if m > l * z { ScaleLe(1, m - l * z, g); }
    if m < l * z { ScaleLe(m - l * z, -1, g); }
    DividesMultiple(l, z);
  }

  /** lcm on fixnums. It is the least common multiple of the magnitudes exactly if gcd was
      right. */
  method Lcm(a: int, b: int) returns (r: int)
    requires IsFixnum(a) && IsFixnum(b)
    ensures a == 0 || b == 0 ==> r == 0
    ensures a != 0 && b != 0 ==> (IsLcm(r, Abs(a), Abs(b)) <==> GcdResult(a, b) == TrueGcd(a, b))
    ensures a > 0 && b > 0 ==> IsLcm(r, a, b) && r * Gcd(a, b) == a * b
  {
    if a == 0 || b == 0 { return 0; }
    var g := FixnumGcd(a, b);
    GcdIsGcd(Unsigned(a), Unsigned(b));
    var prod := Mul(Fix(a), Fix(b));
    var quot := Division.Trunc(prod, Normal(g));
    Division.Trunc0(prod, Normal(g));
    r := Abs(quot.value.n);
    AbsProduct(a, b);
    LcmRight(a, b, g, prod.n, r);
  }

  lemma {:induction false} AbsProduct(a: int, b: int)
    ensures Abs(a * b) == Abs(a) * Abs(b)
  {
    Division.SignedProducts(Abs(a), Abs(b));
  }

  lemma {:induction false} AbsQuotient(p: int, g: nat)
    requires g > 0
    ensures Abs(Division.Truncated(p, g)) == Abs(p) / g
  {
  }

  /** r is the quotient of the magnitudes' product by g, or 0 for the pair that trunc gets
      wrong. */
  lemma {:induction false} LcmRight(a: int, b: int, g: nat, prod: int, r: int)
    requires a != 0 && b != 0 && g > 0 && Abs(prod) == Abs(a) * Abs(b)
    requires r == if prod == NUM_MIN && g == -NUM_MIN then 0 else Abs(Division.Truncated(prod, g))
    ensures IsLcm(r, Abs(a), Abs(b)) <==> g == TrueGcd(a, b)
    ensures g == TrueGcd(a, b) ==> r * g == Abs(a) * Abs(b)
  {
    AbsQuotient(prod, g);
    LcmOfMagnitudes(Abs(a), Abs(b), Abs(prod), g, r, prod == NUM_MIN && g == -NUM_MIN);
  }

  lemma {:induction false} LcmOfMagnitudes(x: nat, y: nat, p: nat, g: nat, r: int, dropped: bool)
    requires x > 0 && y > 0 && g > 0 && p == x * y && r == if dropped then 0 else p / g
    requires dropped ==> p == g > 1
    ensures IsLcm(r, x, y) <==> g == Gcd(x, y)
    ensures g == Gcd(x, y) ==> r * g == p
  {
    var t := Gcd(x, y);
    GcdAtMost(x, y);
    var l := p / t;
    LcmSound(x, y, l);
    if dropped {
      if g == t { SquareAtMost(x, y, t); }
    } else {
      LcmQuotient(x, y, p, l, t, g, r);
    }
  }

  /** A number that is at most each factor, and equals their product, is at most 1. */
  lemma {:induction false} SquareAtMost(x: nat, y: nat, t: nat)
    requires 0 < t <= x && t <= y && x * y == t
    ensures t == 1
  {
    ScaleLe(t, x, y);
    ScaleLe(t, y, t);
    Commute(t, y);
    if t > 1 { ScaleLe(2, t, t); }
  }

  lemma {:induction false} LcmQuotient(x: nat, y: nat, p: nat, l: nat, t: nat, g: nat, r: int)
    requires IsLcm(l, x, y) && l * t == p && 0 < t <= l && g > 0 && l == p / t && r == p / g
    ensures IsLcm(r, x, y) <==> g == t
    ensures g == t ==> r == l
  {
    if g != t { OtherQuotient(p, l, t, g); }
    if IsLcm(r, x, y) { LcmUnique(r, l, x, y); }
  }

  lemma {:induction false} GcdAtMost(x: nat, y: nat)
    requires x > 0 && y > 0
    ensures 0 < Gcd(x, y) <= x && Gcd(x, y) <= y
    ensures Gcd(x, y) <= (x * y) / Gcd(x, y)
  {
    var g := Gcd(x, y);
    GcdIsGcd(x, y);
    DividesAtMost(g, x);
    DividesAtMost(g, y);
    LcmSound(x, y, (x * y) / g);
    DividesAtMost(x, (x * y) / g);
  }

  lemma {:induction false} LcmUnique(r: int, l: int, x: int, y: int)
    requires IsLcm(r, x, y) && IsLcm(l, x, y)
    ensures r == l
  {
  }

  /** Another divisor g of the product gives another quotient. */
  lemma {:induction false} OtherQuotient(p: nat, l: nat, t: nat, g: nat)
    requires l * t == p && 0 < t <= l && 0 < g && g != t
    ensures p / g != l
  {
    if p / g == l { OneQuotient(p, l, t, g, p % g); }
  }

  lemma {:induction false} OneQuotient(p: nat, l: nat, t: nat, g: nat, rem: nat)
    requires l * t == p && 0 < t <= l && rem < g && p == g * l + rem
    ensures g == t
  {
    var d := t - g;
    assert d * l == rem by {
      Commute(l, t);
      Distribute(d, g, l);
    }
    if d > 0 { ScaleLe(1, d, l); }
    if d < 0 { ScaleLe(d, -1, l); }
  }

  lemma {:induction false} LcmSound(a: nat, b: nat, r: int)
    requires a > 0 && b > 0 && Gcd(a, b) > 0 && r == (a * b) / Gcd(a, b)
    ensures IsLcm(r, a, b) && r * Gcd(a, b) == a * b
  {
    var g := Gcd(a, b);
    GcdIsGcd(a, b);
    var x := Quotient(g, a);
    var y := Quotient(g, b);
    assert a * b == g * (x * b) by { Associate(g, x, b); }
    RemainderUnique(a * b, g, x * b, 0);
    assert r == x * b && r * g == a * b by { Commute(x * b, g); }
    assert r == a * y by {
      assert a * b == g * (a * y) by { Associate(a, g, y); Commute(a, g); Associate(g, a, y); }
      RemainderUnique(a * b, g, a * y, 0);
    }
    assert r > 0 by { ScaleLe(1, a, b); ProductPositiveInt(r, g); }
    DividesMultiple(a, y);
    Commute(x, b);
    DividesMultiple(b, x);
    forall m: int | m > 0 && m % a == 0 && m % b == 0 ensures m % r == 0 && r <= m {
      CommonMultiple(a, b, r, m);
      DividesAtMost(r, m);
    }
  }

  lemma {:induction false} ProductPositiveInt(r: int, g: int)
    requires g > 0 && r * g > 0
    ensures r > 0
  {
    if r <= 0 { ScaleLe(r, 0, g); assert false; }
  }

  lemma {:induction false} GcdOfDivisor(d: nat, n: nat)
    requires d > 0 && n > 0
    ensures Gcd(d, n) == d <==> Divides(d, n)
  {
    GcdIsGcd(d, n);
    RemainderUnique(d, d, 1, 0);
    if Divides(d, n) { DividesAtMost(Gcd(d, n), d); DividesAtMost(d, Gcd(d, n)); }
  }

  /** divides on fixnums: right for every n of at least zero; a negative n is taken as
      an unsigned word. The one magnitude that is not a fixnum joins the same loop. */
  method DividesP(d: int, n: int) returns (r: bool)
    requires IsFixnum(d) && IsFixnum(n)
    ensures n == 0 ==> r == (d != 0)
    ensures n > 0 && d != 0 ==> r == (n % d == 0)
    ensures n != 0 && d == 0 ==> !r
    ensures n < 0 && d != 0 ==> r == ((WORD + n) % d == 0 || d == 1)
  {
    if n == 0 { return d != 0; }
    if d == 1 { return true; }
    var e := if d < 0 then -d else d;
    var g;
    if IsFixnum(e) { g := FixnumGcd(e, n); } else { g := BinaryGcd(e, Unsigned(n)); }
    r := g == e;
    if e > 0 {
      GcdOfDivisor(e, Unsigned(n));
      if d < 0 { SameRemainder(Unsigned(n), e); }
    }
  }

  lemma {:induction false} SameRemainder(n: int, e: int)
    requires e > 0
    ensures n % -e == n % e
  {
  }

  /** For which divisors the answer is right on every negative fixnum: the powers of two
      that fit and their negatives, and no others. */
  lemma {:induction false} NegativeDividend(d: int)
    requires IsFixnum(d) && d != 0
    ensures (forall n: int | NUM_MIN <= n < 0 :: ((WORD + n) % d == 0 || d == 1) == (n % d == 0)) <==> WORD % d == 0
  {
    var e := Abs(d);
    PositiveDivisor(e);
    forall n: int ensures n % d == n % e { if d < 0 { SameRemainder(n, e); } }
    if d == -1 {
      forall n: int | NUM_MIN <= n < 0 ensures ((WORD + n) % d == 0 || d == 1) == (n % d == 0) {
        RemainderUnique(n, 1, n, 0);
        RemainderUnique(WORD + n, 1, WORD + n, 0);
      }
      RemainderUnique(WORD, 1, WORD, 0);
    }
  }

  lemma {:induction false} PositiveDivisor(d: int)
    requires 0 < d <= -NUM_MIN
    ensures (forall n: int | NUM_MIN <= n < 0 :: ((WORD + n) % d == 0 || d == 1) == (n % d == 0)) <==> WORD % d == 0
  {
    if WORD % d == 0 {
      forall n: int | NUM_MIN <= n < 0 ensures ((WORD + n) % d == 0 || d == 1) == (n % d == 0) {
        WordRemainder(n, d);
      }
    } else {
      MinusDivisor(d);
      assert NUM_MIN <= -d < 0;
    }
  }

  lemma {:induction false} WordRemainder(n: int, d: int)
    requires d > 0 && WORD % d == 0
    ensures (WORD + n) % d == n % d && (d == 1 ==> n % d == 0)
  {
    var k: int := WORD / d;
    assert WORD == d * k;
    RemainderShift(n, k, d);
    assert n + d * k == WORD + n;
    if d == 1 { RemainderUnique(n, 1, n, 0); }
  }

  /** n = -d is the witness: d divides it, and the word is off by 2^64. */
  lemma {:induction false} MinusDivisor(d: int)
    requires 0 < d <= -NUM_MIN && WORD % d != 0
    ensures (-d) % d == 0 && (WORD + -d) % d != 0 && d != 1
  {
    RemainderUnique(-d, d, -1, 0);
    RemainderShift(WORD, -1, d);
    assert WORD + d * -1 == WORD + -d;
    if d == 1 { RemainderUnique(WORD, 1, WORD, 0); }
  }

  lemma {:induction false} RemainderShift(n: int, k: int, d: int)
    requires d > 0
    ensures (n + d * k) % d == n % d
  {
    Commute(d, n / d + k);
    Distribute(n / d, k, d);
    RemainderUnique(n + d * k, d, n / d + k, n % d);
  }
}
