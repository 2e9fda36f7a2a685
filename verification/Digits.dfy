/** digits and digpow by greedy subtraction of powers, poly and rpoly by Horner's rule
    and by running powers. */
module Digits {
  import opened Wrappers
  import opened Nonlinear
  import opened Fixnum
  import opened Arith

  // ---- Polynomials --------------------------------------------------------------

  function Power(x: int, k: nat): int {
    if k == 0 then 1 else Power(x, k - 1) * x
  }

  /** Value of a polynomial, coefficients from the highest power down. */
  function Value(x: int, s: seq<int>): int {
    if s == [] then 0 else s[0] * Power(x, |s| - 1) + Value(x, s[1..])
  }

  function Reversed(s: seq<int>): (r: seq<int>)
    ensures |r| == |s|
  {
    if s == [] then [] else Reversed(s[1..]) + [s[0]]
  }

  lemma {:induction false} ValueAppend(x: int, s: seq<int>, c: int)
    ensures Value(x, s + [c]) == Value(x, s) * x + c
  {
    if s == [] {
      assert s + [c] == [c];
      assert Value(x, [c]) == c * Power(x, 0) + Value(x, []);
    } else {
      assert (s + [c])[1..] == s[1..] + [c];
      ValueAppend(x, s[1..], c);
      Associate(s[0], Power(x, |s| - 1), x);
      Distribute(s[0] * Power(x, |s| - 1), Value(x, s[1..]), x);
    }
  }

  /** What a list of numbers stands for. */
  function Ints(s: seq<Num>): (r: seq<int>)
    ensures |r| == |s| && forall i | 0 <= i < |s| :: r[i] == s[i].n
  {
    seq(|s|, i requires 0 <= i < |s| => s[i].n)
  }

  ghost predicate AllProper(s: seq<Num>) {
    forall i | 0 <= i < |s| :: s[i].Proper()
  }

  /** Horner's rule, as the operations of the arithmetic library carry it out. */
  function Horner(x: Num, s: seq<Num>): Num {
    if s == [] then Fix(0) else Plus(Mul(Horner(x, s[..|s| - 1]), x), s[|s| - 1])
  }

  /** poly: one multiplication and addition for each coefficient. */
  method Poly(x: Num, s: seq<Num>) returns (acc: Num)
    ensures acc == Horner(x, s)
  {
    acc := Fix(0);
    for i := 0 to |s|
      invariant acc == Horner(x, s[..i])
    {
      assert s[..i + 1][..i] == s[..i];
      acc := Plus(Mul(acc, x), s[i]);
    }
    assert s[..|s|] == s;
  }

  function Backward(s: seq<Num>): (r: seq<Num>)
    ensures |r| == |s|
  {
    if s == [] then [] else Backward(s[1..]) + [s[0]]
  }

  lemma {:induction false} BackwardInts(s: seq<Num>)
    ensures Ints(Backward(s)) == Reversed(Ints(s))
    ensures AllProper(s) ==> AllProper(Backward(s))
  {
    if s != [] {
      BackwardInts(s[1..]);
      assert Ints(s)[1..] == Ints(s[1..]);
      assert Ints(Backward(s[1..]) + [s[0]]) == Ints(Backward(s[1..])) + [s[0].n];
    }
  }

  /** rpoly on a vector: Horner's rule from the far end. */
  method RpolyVector(x: Num, s: seq<Num>) returns (acc: Num)
    ensures acc == Horner(x, Backward(s))
  {
    acc := Fix(0);
    var i: nat := |s|;
    assert s[i..] == [];
    while i > 0
      invariant i <= |s| && acc == Horner(x, Backward(s[i..]))
    {
      i := i - 1;
      assert s[i..][1..] == s[i + 1..];
      assert Backward(s[i..])[..|s| - i - 1] == Backward(s[i + 1..]);
      acc := Plus(Mul(acc, x), s[i]);
    }
    assert s[0..] == s;
  }

  // ---- When Horner's rule is exact ------------------------------------------------------

  /** The accumulated value before some multiplication is a negative fixnum, and x a bignum. */
  ghost predicate LosesSign(x: Num, s: seq<Num>) {
    x.Big? && exists k :: 0 < k < |s| && NegativeFixnum(Value(x.n, Ints(s)[..k]))
  }

  predicate NegativeFixnum(v: int) {
    NUM_MIN <= v < 0
  }

  /** w has gone astray from v by twice x or more: no later step brings it back. */
  predicate Astray(w: int, v: int, x: int) {
    if x > 0 then w - v >= 2 * x else Abs(w - v) >= 2 * Abs(x)
  }

  /** The accumulator is a fixnum if its value is, but for a bignum zero. */
  predicate Clean(acc: Num) {
    acc.Proper() || acc.n == 0
  }

  lemma {:induction false} CleanStep(acc: Num, x: Num, c: Num)
    requires Clean(acc) && x.Proper() && x.Big? && c.Proper()
    ensures Clean(Plus(Mul(acc, x), c))
  {
    MulExact(acc, x);
    if acc.n != 0 { FarProduct(acc.n, x.n); }
  }

  lemma {:induction false} FarProduct(a: int, x: int)
    requires a != 0 && !IsFixnum(x)
    ensures Abs(a * x) >= Abs(x) && (a * x > 0 <==> (a > 0 <==> x > 0))
    ensures !IsFixnum(a * x) || a == -1
  {
    NegateProduct(a, x);
    Commute(a, x);
    NegateProduct(x, a);
    if a > 0 {
      if x > 0 { ScaleLe(1, a, x); } else { ScaleLe(1, a, -x); }
    } else {
      if x > 0 { ScaleLe(a, -1, x); if a < -1 { ScaleLe(a, -2, x); } } else { ScaleLe(a, -1, -x); }
    }
  }

  /** The first lost sign. */
  lemma {:induction false} GoesAstray(a: int, x: int, c: int)
    requires NegativeFixnum(a) && !IsFixnum(x)
    ensures Astray(-(a * x) + c, a * x + c, x)
  {
    FarProduct(a, x);
    if x > 0 { ScaleLe(a, -1, x); }
  }

  /** Later steps, with or without another lost sign. */
  lemma {:induction false} StaysAstray(w: int, v: int, x: int, c: int)
    requires Astray(w, v, x) && !IsFixnum(x)
    ensures Astray(w * x + c, v * x + c, x)
    ensures NegativeFixnum(w) ==> Astray(-(w * x) + c, v * x + c, x)
  {
    Distribute(w, -v, x);
    Distribute(-w, -v, x);
    NegateProduct(x, v);
    NegateProduct(x, w);
    Commute(v, x);
    Commute(w, x);
    Commute(-v, x);
    Commute(-w, x);
    AtLeastDouble(w - v, x);
    if NegativeFixnum(w) { AtLeastDouble(-w - v, x); }
  }

  lemma {:induction false} AtLeastDouble(u: int, x: int)
    ensures x > 0 && u >= 2 ==> u * x >= 2 * x
    ensures x < 0 && Abs(u) >= 2 ==> Abs(u * x) >= 2 * Abs(x)
  {
    NegateProduct(u, x);
    if x > 0 && u >= 2 { ScaleLe(2, u, x); }
    if x < 0 && u >= 2 { ScaleLe(2, u, -x); }
    if x < 0 && u <= -2 { ScaleLe(u, -2, -x); }
  }

  /** Up to the first lost sign the accumulator is right; from there on it is astray. */
  lemma {:induction false} HornerTrack(x: Num, s: seq<Num>)
    requires x.Proper() && AllProper(s)
    ensures x.Big? ==> Clean(Horner(x, s))
    ensures if LosesSign(x, s) then Astray(Horner(x, s).n, Value(x.n, Ints(s)), x.n)
            else Horner(x, s).n == Value(x.n, Ints(s))
  {
    if s != [] {
      var k := |s| - 1;
      var t, c := s[..k], s[k];
      HornerTrack(x, t);
      assert Ints(s)[..k] == Ints(t) && Ints(s) == Ints(t) + [c.n];
      ValueAppend(x.n, Ints(t), c.n);
      var acc, v := Horner(x, t), Value(x.n, Ints(t));
      MulExact(acc, x);
      PlusExact(Mul(acc, x), c);
      assert forall j | 0 < j < k :: Ints(s)[..j] == Ints(t)[..j];
      if x.Big? {
        CleanStep(acc, x, c);
        if LosesSign(x, t) {
          StaysAstray(acc.n, v, x.n, c.n);
          var j :| 0 < j < |t| && NegativeFixnum(Value(x.n, Ints(t)[..j]));
          assert NegativeFixnum(Value(x.n, Ints(s)[..j]));
        } else if k > 0 && NegativeFixnum(v) {
          GoesAstray(v, x.n, c.n);
        }
      }
    }
  }

  /** poly computes the polynomial exactly unless x is a bignum and some leading part of the
      polynomial, short of the whole, is a negative fixnum: errors never cancel. */
  lemma {:induction false} HornerExact(x: Num, s: seq<Num>)
    requires x.Proper() && AllProper(s)
    ensures Horner(x, s).n == Value(x.n, Ints(s)) <==> !LosesSign(x, s)
  {
    HornerTrack(x, s);
  }

  lemma {:induction false} ReversedConcat(s: seq<int>, t: seq<int>)
    ensures Reversed(s + t) == Reversed(t) + Reversed(s)
  {
    if s == [] {
      assert s + t == t;
    } else {
      assert (s + t)[1..] == s[1..] + t;
      ReversedConcat(s[1..], t);
    }
  }

  /** One more coefficient at the end of a reversed polynomial is its next power. */
  lemma {:induction false} ReversedNextPower(x: int, s: seq<int>, c: int)
    ensures Value(x, Reversed(s + [c])) == c * Power(x, |s|) + Value(x, Reversed(s))
  {
    ReversedConcat(s, [c]);
    assert Reversed([c]) == [c];
    assert ([c] + Reversed(s))[1..] == Reversed(s);
  }

  /** x to the power of i, as running multiplication carries it out. */
  function RunningPower(x: Num, i: nat): Num {
    if i <= 1 then x else Mul(RunningPower(x, i - 1), x)
  }

  function Running(x: Num, s: seq<Num>, i: nat): Num
    requires i <= |s|
  {
    if i == 0 then Fix(0) else if i == 1 then s[0]
    else Plus(Running(x, s, i - 1), Mul(RunningPower(x, i - 1), s[i - 1]))
  }

  /** rpoly on a list: running powers of x, with no multiplication after the last one. */
  method RpolyList(x: Num, s: seq<Num>) returns (acc: Num)
    ensures acc == Running(x, s, |s|)
  {
    acc := Fix(0);
    var pow, rest := x, s;
    if rest != [] { acc, rest := rest[0], rest[1..]; }
    ghost var i: nat := |s| - |rest|;
    while rest != []
      invariant i <= |s| && (s != [] ==> i > 0) && rest == s[i..] && acc == Running(x, s, i)
      invariant rest != [] ==> pow == RunningPower(x, i)
    {
      var coeff := rest[0];
      rest := rest[1..];
      acc := Plus(acc, Mul(pow, coeff));
      if rest != [] { pow := Mul(pow, x); }
      i := i + 1;
    }
  }

  // ---- When running powers are exact ------------------------------------------------------

  lemma {:induction false} SmallPower(x: int, i: nat)
    ensures Abs(x) <= 1 ==> Abs(Power(x, i)) <= 1
    ensures i > 0 && !IsFixnum(x) ==> !IsFixnum(Power(x, i))
  {
    if i > 0 {
      SmallPower(x, i - 1);
      if !IsFixnum(x) && i > 1 { FarProduct(Power(x, i - 1), x); }
    }
  }

  /** The powers themselves are always right. */
  lemma {:induction false} PowersExact(x: Num, i: nat)
    requires x.Proper() && i > 0
    ensures RunningPower(x, i) == Normal(Power(x.n, i))
  {
    if i > 1 {
      PowersExact(x, i - 1);
      var p := Power(x.n, i - 1);
      MulExact(Normal(p), x);
      SmallPower(x.n, i - 1);
      if !IsFixnum(p) {
        Commute(x.n, p);
        if x.n != 0 { FarProduct(x.n, p); }
        FarProduct(p, if IsFixnum(x.n) then NUM_MAX + 1 else x.n);
      }
    } else {
      assert Power(x.n, 1) == Power(x.n, 0) * x.n;
    }
  }

  /** A bignum coefficient meets a power that is a negative fixnum. */
  predicate LostAt(x: Num, s: seq<Num>, i: nat)
    requires i < |s|
  {
    i > 0 && s[i].Big? && NegativeFixnum(Power(x.n, i))
  }

  /** The terms whose sign is lost. */
  function LostSum(x: Num, s: seq<Num>, i: nat): int
    requires i <= |s|
  {
    if i == 0 then 0
    else LostSum(x, s, i - 1) + if LostAt(x, s, i - 1) then Power(x.n, i - 1) * s[i - 1].n else 0
  }

  lemma {:induction false} RunningTrack(x: Num, s: seq<Num>, i: nat)
    requires x.Proper() && AllProper(s) && i <= |s|
    ensures Running(x, s, i).n == Value(x.n, Reversed(Ints(s)[..i])) - 2 * LostSum(x, s, i)
  {
    if i > 0 {
      RunningTrack(x, s, i - 1);
      ReversedTerm(x.n, Ints(s), i - 1);
      RunningTerm(x, s, i - 1);
    }
  }

  lemma {:induction false} ReversedTerm(x: int, s: seq<int>, j: nat)
    requires j < |s|
    ensures Value(x, Reversed(s[..j + 1])) == Value(x, Reversed(s[..j])) + Power(x, j) * s[j]
  {
    assert s[..j + 1] == s[..j] + [s[j]];
    ReversedNextPower(x, s[..j], s[j]);
    Commute(s[j], Power(x, j));
  }

  /** The term that number j adds. */
  lemma {:induction false} RunningTerm(x: Num, s: seq<Num>, j: nat)
    requires x.Proper() && AllProper(s) && j < |s|
    ensures var term := Power(x.n, j) * s[j].n;
            Running(x, s, j + 1).n == Running(x, s, j).n + if LostAt(x, s, j) then -term else term
  {
    if j > 0 {
      PowersExact(x, j);
      RunningStep(Running(x, s, j), RunningPower(x, j), s[j]);
    }
  }

  lemma {:induction false} RunningStep(acc: Num, pow: Num, c: Num)
    ensures var term := pow.n * c.n;
            Plus(acc, Mul(pow, c)).n == acc.n + if pow.Fix? && pow.n < 0 && c.Big? then -term else term
  {
    MulExact(pow, c);
    PlusExact(acc, Mul(pow, c));
  }

  /** rpoly on a list computes the reversed polynomial exactly if the terms whose sign is
      lost add up to nothing. */
  lemma {:induction false} RunningExact(x: Num, s: seq<Num>)
    requires x.Proper() && AllProper(s)
    ensures Running(x, s, |s|).n == Value(x.n, Reversed(Ints(s))) <==> LostSum(x, s, |s|) == 0
  {
    RunningTrack(x, s, |s|);
    assert Ints(s)[..|s|] == Ints(s);
  }

  /** There are none if x is not negative or is a bignum, or if all coefficients are fixnums;
      one alone is never nothing. */
  lemma {:induction false} NothingLost(x: Num, s: seq<Num>, i: nat)
    requires x.Proper() && AllProper(s) && i <= |s|
    ensures x.n >= 0 || x.Big? || (forall j | 0 < j < i :: s[j].Fix?) ==> LostSum(x, s, i) == 0
    ensures (exists j | 0 <= j < i :: LostAt(x, s, j) && forall h | 0 <= h < i && h != j :: !LostAt(x, s, h))
              ==> LostSum(x, s, i) != 0
    ensures (forall j | 0 <= j < i :: !LostAt(x, s, j)) ==> LostSum(x, s, i) == 0
  {
    if i > 0 {
      NothingLost(x, s, i - 1);
      LostTerm(x, s, i - 1);
    }
  }

  lemma {:induction false} LostTerm(x: Num, s: seq<Num>, j: nat)
    requires x.Proper() && AllProper(s) && j < |s|
    ensures LostAt(x, s, j) ==> j > 0 && x.n < 0 && x.Fix? && s[j].Big? && Power(x.n, j) * s[j].n != 0
  {
    PowerSign(x.n, j);
    SmallPower(x.n, j);
    if LostAt(x, s, j) { FarProduct(Power(x.n, j), s[j].n); }
  }

  lemma {:induction false} PowerSign(x: int, i: nat)
    ensures x >= 0 ==> Power(x, i) >= 0
  {
    if i > 0 {
      PowerSign(x, i - 1);
      if x >= 0 { ScaleLe(0, Power(x, i - 1), x); }
    }
  }

  /** The vector path is right for a fixnum x and the list path for a bignum x; so the two
      agree exactly if the other one is right too. */
  lemma {:induction false} PathsAgree(x: Num, s: seq<Num>)
    requires x.Proper() && AllProper(s)
    ensures x.Fix? ==> Horner(x, Backward(s)).n == Value(x.n, Reversed(Ints(s)))
    ensures x.Big? ==> Running(x, s, |s|).n == Value(x.n, Reversed(Ints(s)))
    ensures Running(x, s, |s|).n == Horner(x, Backward(s)).n <==>
            if x.Fix? then LostSum(x, s, |s|) == 0 else !LosesSign(x, Backward(s))
  {
    BackwardInts(s);
    HornerExact(x, Backward(s));
    RunningExact(x, s);
    NothingLost(x, s, |s|);
  }

  /** -x at 2^62, and 2^62 x at -1, where the vector path is right. */
  lemma {:induction false} PolyExamples()
    ensures var b := 0x4000_0000_0000_0000;
            && Horner(Big(b), [Fix(-1), Fix(0)]).n == b && Value(b, [-1, 0]) == -b
            && Running(Fix(-1), [Fix(0), Big(b)], 2).n == b && Value(-1, [b, 0]) == -b
            && Horner(Fix(-1), [Big(b), Fix(0)]).n == -b
  {
    var b := 0x4000_0000_0000_0000;
    var s, t := [Fix(-1), Fix(0)], [Big(b), Fix(0)];
    assert s[..1] == [Fix(-1)] && s[..1][..0] == [] && t[..1] == [Big(b)] && t[..1][..0] == [];
    assert Horner(Big(b), s[..1]).n == -1 && Horner(Fix(-1), t[..1]) == Big(b);
    assert Value(b, [0]) == 0 && Value(-1, [0]) == 0;
    assert Power(b, 1) == b && Power(-1, 1) == -1;
  }

  // ---- Digits -----------------------------------------------------------------------

  /** ds are the base r digits of n, most significant first, without leading zeros. */
  ghost predicate AreDigits(ds: seq<int>, n: int, r: int) {
    && ds != [] && (forall d | d in ds :: 0 <= d < r)
    && Value(r, ds) == n && (n > 0 ==> ds[0] > 0)
  }

  /** Each digit times its power of r. */
  function Weighted(ds: seq<int>, r: int): (w: seq<int>)
    ensures |w| == |ds| && forall i | 0 <= i < |ds| :: w[i] == ds[i] * Power(r, |ds| - 1 - i)
  {
    seq(|ds|, i requires 0 <= i < |ds| => ds[i] * Power(r, |ds| - 1 - i))
  }

  function Sum(s: seq<int>): int {
    if s == [] then 0 else s[0] + Sum(s[1..])
  }

  lemma {:induction false} WeightedSum(ds: seq<int>, r: int)
    ensures Sum(Weighted(ds, r)) == Value(r, ds)
  {
    if ds != [] {
      assert Weighted(ds, r)[1..] == Weighted(ds[1..], r);
      WeightedSum(ds[1..], r);
    }
  }

  /** The powers r^m, ..., r^2, r. */
  function Powers(r: int, m: nat): (p: seq<int>)
    ensures |p| == m
  {
    if m == 0 then [] else [Power(r, m)] + Powers(r, m - 1)
  }

  lemma {:induction false} PowerPositive(r: int, m: nat)
    requires r >= 1
    ensures Power(r, m) >= 1
  {
    if m > 0 {
      PowerPositive(r, m - 1);
      ScaleLe(1, Power(r, m - 1), r);
    }
  }

  method PowersUpTo(r: int, n: int) returns (p: seq<int>)
    requires r >= 2
    ensures p == Powers(r, |p|) && n < Power(r, |p| + 1)
    ensures p != [] ==> p[0] <= n
  {
    var k := r;
    p := [];
    assert Power(r, 1) == Power(r, 0) * r;
    while k <= n
      invariant k == Power(r, |p| + 1) >= 1 && p == Powers(r, |p|) && (p != [] ==> p[0] <= n)
      decreases n - k
    {
      p := [k] + p;
      PowerPositive(r, |p|);
      ScaleLe(2, r, k);
      Commute(k, r);
      k := k * r;
    }
  }

  /** How often p0 goes into n, by subtraction. */
  method CountOut(n: int, p0: int) returns (i: nat, rest: int)
    requires p0 >= 1 && n >= 0
    ensures n == i * p0 + rest && 0 <= rest < p0
  {
    i, rest := 0, n;
    while rest >= p0
      invariant rest >= 0 && n == i * p0 + rest
    {
      Distribute(i, 1, p0);
      i, rest := i + 1, rest - p0;
    }
  }

  /** digcommon: digits, or digits times powers, of n in base r. */
  method DigCommon(pow: bool, n: int, r: int) returns (res: Result<seq<int>>, ghost ds: seq<int>)
    ensures n < 0 || r <= 1 ==> res == Error
    ensures n >= 0 && r > 1 ==> AreDigits(ds, n, r) && res == Ok(if pow then Weighted(ds, r) else ds)
    ensures n >= 0 && r > 1 && pow ==>
              |res.value| == |ds| && forall i | 0 <= i < |ds| :: res.value[i] == ds[i] * Power(r, |ds| - 1 - i)
  {
    ds := [];
    if n < 0 || r <= 1 { return Error, ds; }
    var p := PowersUpTo(r, n);
    var out, rest := [], n;
    ghost var total := |p|;
    while p != []
      invariant p == Powers(r, |p|) && |ds| + |p| == total
      invariant Extracted(n, r, |p|, ds, rest) && Shares(pow, r, total, ds, out)
      invariant ds == [] && p != [] ==> p[0] <= rest
    {
      var p0 := p[0];
      ghost var before := rest;
      PowerPositive(r, |p|);
      var i;
      i, rest := CountOut(rest, p0);
      DigitStep(r, |p|, ds, before, i, rest, n);
      out := out + [if pow then i * p0 else i];
      p, ds := p[1..], ds + [i];
    }
    LastDigit(pow, n, r, ds, rest, out);
    out, ds := out + [rest], ds + [rest];
    res := Ok(out);
  }

  /** ds are the digits found so far, with the powers r^m and below still to come. */
  ghost predicate Extracted(n: int, r: int, m: nat, ds: seq<int>, rest: int) {
    && 0 <= rest < Power(r, m + 1) && Value(r, ds) * Power(r, m + 1) + rest == n
    && (forall d | d in ds :: 0 <= d < r) && (ds != [] ==> ds[0] > 0)
  }

  /** out has the digits, or the digits times their powers. */
  ghost predicate Shares(pow: bool, r: int, total: nat, ds: seq<int>, out: seq<int>) {
    |out| == |ds| <= total && forall h | 0 <= h < |ds| :: out[h] == if pow then ds[h] * Power(r, total - h) else ds[h]
  }

  lemma {:induction false} LastDigit(pow: bool, n: int, r: int, ds: seq<int>, rest: int, out: seq<int>)
    requires n >= 0 && r > 1 && Extracted(n, r, 0, ds, rest) && Shares(pow, r, |ds|, ds, out)
    ensures AreDigits(ds + [rest], n, r)
    ensures out + [rest] == if pow then Weighted(ds + [rest], r) else ds + [rest]
  {
    ValueAppend(r, ds, rest);
    assert Power(r, 0) == 1 && Power(r, 1) == Power(r, 0) * r == r;
    LastShare(pow, r, ds, rest, out);
  }

  lemma {:induction false} LastShare(pow: bool, r: int, ds: seq<int>, rest: int, out: seq<int>)
    requires Shares(pow, r, |ds|, ds, out)
    ensures out + [rest] == if pow then Weighted(ds + [rest], r) else ds + [rest]
  {
    var w := Weighted(ds + [rest], r);
    forall h | 0 <= h <= |ds| ensures (out + [rest])[h] == if pow then w[h] else (ds + [rest])[h] {
      if h == |ds| { assert w[h] == rest * Power(r, 0); }
    }
  }

  /** Taking out the multiples of r^m yields the next digit. */
  lemma {:induction false} DigitStep(r: int, m: nat, ds: seq<int>, before: int, i: int, rest: int, n: int)
    requires r >= 2 && m > 0 && Extracted(n, r, m, ds, before) && Power(r, m) >= 1
    requires before == i * Power(r, m) + rest && 0 <= rest < Power(r, m) && i >= 0
    requires ds == [] ==> Power(r, m) <= before
    ensures Extracted(n, r, m - 1, ds + [i], rest)
  {
    var p, v := Power(r, m), Value(r, ds);
    assert Power(r, m + 1) == p * r;
    Commute(p, r);
    if i >= r { ScaleLe(r, i, p); assert false; }
    if i == 0 { assert 0 * p == 0; }
    ValueAppend(r, ds, i);
    Associate(v, r, p);
    Distribute(v * r, i, p);
  }

  /** digpow splits n into its digits' shares. */
  method Digpow(n: int, r: int) returns (res: Result<seq<int>>)
    ensures n < 0 || r <= 1 ==> res == Error
    ensures n >= 0 && r > 1 ==> res.Ok? && Sum(res.value) == n
  {
    ghost var ds;
    res, ds := DigCommon(true, n, r);
    WeightedSum(ds, r);
  }

  lemma {:induction false} NonNegativeValue(r: int, ds: seq<int>)
    requires r >= 0 && forall i | 0 <= i < |ds| :: ds[i] >= 0
    ensures Value(r, ds) >= 0
  {
    if ds != [] {
      NonNegativeValue(r, ds[1..]);
      PowerSign(r, |ds| - 1);
      ScaleLe(0, ds[0], Power(r, |ds| - 1));
    }
  }

  function Nums(s: seq<int>): (r: seq<Num>)
    ensures |r| == |s| && forall i | 0 <= i < |s| :: r[i] == Normal(s[i])
  {
    seq(|s|, i requires 0 <= i < |s| => Normal(s[i]))
  }

  lemma {:induction false} DigitsExact(n: int, r: int, ds: seq<int>)
    requires r > 1 && AreDigits(ds, n, r)
    ensures Horner(Normal(r), Nums(ds)).n == n
  {
    assert Ints(Nums(ds)) == ds;
    forall k | 0 < k < |ds| ensures !NegativeFixnum(Value(r, ds[..k])) {
      forall i | 0 <= i < k ensures ds[i] >= 0 { assert ds[i] in ds; }
      NonNegativeValue(r, ds[..k]);
    }
    HornerExact(Normal(r), Nums(ds));
  }

  /** poly undoes digits: no leading part of the digits is negative. */
  method PolyOfDigits(n: int, r: int) returns (m: Num)
    requires n >= 0 && r > 1
    ensures m.n == n
  {
    var res, ds := DigCommon(false, n, r);
    DigitsExact(n, r, ds);
    m := Poly(Normal(r), Nums(res.value));
  }
}
