/** Mixed-radix counters, most significant digit first: the common arithmetic of
    the odometers in combi.c and of prod_common in eval.c. */
module MixedRadix {
  import opened Lex
  import opened Nonlinear

  function Total(r: seq<nat>): nat {
    if r == [] then 1 else r[0] * Total(r[1..])
  }

  function Value(c: seq<int>, r: seq<nat>): int
    requires |c| == |r|
  {
    if r == [] then 0 else c[0] * Total(r[1..]) + Value(c[1..], r[1..])
  }

  predicate Valid(c: seq<int>, r: seq<nat>) {
    |c| == |r| && forall i | 0 <= i < |c| :: 0 <= c[i] < r[i]
  }

  function Zeros(k: nat): (z: seq<int>)
    ensures |z| == k && forall i | 0 <= i < k :: z[i] == 0
  {
    seq(k, _ => 0)
  }

  lemma {:induction false} ValueBounds(c: seq<int>, r: seq<nat>)
    requires Valid(c, r)
    ensures 0 <= Value(c, r) < Total(r)
  {
    if r != [] {
      ValueBounds(c[1..], r[1..]);
      var t := Total(r[1..]);
      ScaleLe(c[0] + 1, r[0], t);
      Distribute(c[0], 1, t);
    }
  }

  /** The digits of v. */
  function Unrank(v: nat, r: seq<nat>): (c: seq<int>)
    requires v < Total(r)
    ensures |c| == |r|
  {
    if r == [] then [] else
      var t := Total(r[1..]);
      ProductPositive(r[0], t);
      [v / t] + Unrank(v % t, r[1..])
  }

  lemma {:induction false} UnrankValid(v: nat, r: seq<nat>)
    requires v < Total(r)
    ensures Valid(Unrank(v, r), r) && Value(Unrank(v, r), r) == v
  {
    if r != [] {
      var t := Total(r[1..]);
      ProductPositive(r[0], t);
      UnrankValid(v % t, r[1..]);
      QuotientBound(v, r[0], t);
      var rest := Unrank(v % t, r[1..]);
      var c := Unrank(v, r);
      assert c[0] == v / t && c[1..] == rest;
      forall i | 0 <= i < |c| ensures 0 <= c[i] < r[i] {
        assert i > 0 ==> c[i] == rest[i - 1] && r[i] == r[1..][i - 1];
      }
    }
  }

  /** Order of valid counters is the order of their values. */
  lemma {:induction false} LexIsValueOrder(a: seq<int>, b: seq<int>, r: seq<nat>)
    requires Valid(a, r) && Valid(b, r) && Less(a, b)
    ensures Value(a, r) < Value(b, r)
  {
    var t := Total(r[1..]);
    ValueBounds(a[1..], r[1..]);
    ValueBounds(b[1..], r[1..]);
    if a[0] < b[0] {
      ScaleLe(a[0] + 1, b[0], t);
      Distribute(a[0], 1, t);
    } else {
      LexIsValueOrder(a[1..], b[1..], r[1..]);
    }
  }

  lemma {:induction false} ValueInjective(a: seq<int>, b: seq<int>, r: seq<nat>)
    requires Valid(a, r) && Valid(b, r) && Value(a, r) == Value(b, r)
    ensures a == b
  {
    Trichotomy(a, b);
    if Less(a, b) { LexIsValueOrder(a, b, r); }
    if Less(b, a) { LexIsValueOrder(b, a, r); }
  }

  lemma {:induction false} TotalSplit(r: seq<nat>, i: nat)
    requires i <= |r|
    ensures Total(r) == Total(r[..i]) * Total(r[i..])
  {
    if i == 0 {
      assert r[0..] == r;
    } else {
      TotalSplit(r[1..], i - 1);
      assert r[1..][..i - 1] == r[..i][1..] && r[1..][i - 1..] == r[i..];
      Associate(r[0], Total(r[..i][1..]), Total(r[i..]));
    }
  }

  lemma {:induction false} ValueSplit(c: seq<int>, r: seq<nat>, i: nat)
    requires |c| == |r| && i <= |c|
    ensures Value(c, r) == Value(c[..i], r[..i]) * Total(r[i..]) + Value(c[i..], r[i..])
  {
    if i == 0 {
      assert c[0..] == c && r[0..] == r;
    } else {
      ValueSplit(c[1..], r[1..], i - 1);
      TotalSplit(r[1..], i - 1);
      assert r[1..][..i - 1] == r[..i][1..] && r[1..][i - 1..] == r[i..];
      assert c[1..][..i - 1] == c[..i][1..] && c[1..][i - 1..] == c[i..];
      var t, u := Total(r[..i][1..]), Total(r[i..]);
      Associate(c[0], t, u);
      Distribute(c[0] * t, Value(c[..i][1..], r[..i][1..]), u);
    }
  }

  lemma {:induction false} ValueZeros(c: seq<int>, r: seq<nat>)
    requires |c| == |r| && forall i | 0 <= i < |c| :: c[i] == 0
    ensures Value(c, r) == 0
  {
    if r != [] { ValueZeros(c[1..], r[1..]); }
  }

  lemma {:induction false} ValueMax(c: seq<int>, r: seq<nat>)
    requires |c| == |r| && forall i | 0 <= i < |c| :: c[i] + 1 == r[i]
    ensures Value(c, r) == Total(r) - 1
  {
    if r != [] {
      ValueMax(c[1..], r[1..]);
      var t := Total(r[1..]);
      Distribute(c[0], 1, t);
    }
  }

  lemma {:induction false} CarryTail(c: seq<int>, d: seq<int>, r: seq<nat>)
    requires |c| == |d| == |r| > 0
    requires d[0] == c[0] + 1
    requires forall j | 0 < j < |c| :: c[j] + 1 == r[j] && d[j] == 0
    ensures Value(d, r) == Value(c, r) + 1
  {
    var t := Total(r[1..]);
    assert Value(c, r) == c[0] * t + (t - 1) by { ValueMax(c[1..], r[1..]); }
    assert Value(d, r) == d[0] * t by { ValueZeros(d[1..], r[1..]); }
    assert d[0] * t == c[0] * t + t by { Distribute(c[0], 1, t); }
  }

  /** One carry: digit i goes up, every digit after it wraps from its maximum to zero. */
  lemma {:induction false} Increment(c: seq<int>, d: seq<int>, r: seq<nat>, i: nat)
    requires |c| == |d| == |r| && i < |c|
    requires d[..i] == c[..i] && d[i] == c[i] + 1
    requires forall j | i < j < |c| :: c[j] + 1 == r[j] && d[j] == 0
    ensures Value(d, r) == Value(c, r) + 1
  {
    ValueSplit(c, r, i);
    ValueSplit(d, r, i);
    CarryTail(c[i..], d[i..], r[i..]);
  }

  lemma {:induction false} Carry(c: seq<int>, d: seq<int>, r: seq<nat>, i: nat)
    requires |c| == |d| == |r| && i < |c| && d[i] == c[i] + 1
    requires forall j | 0 <= j < i :: c[j] == d[j]
    requires forall j | 0 <= j <= i :: 0 <= d[j] < r[j]
    requires forall j | i < j < |c| :: c[j] + 1 == r[j] && d[j] == 0 < r[j]
    ensures Valid(d, r) && Value(d, r) == Value(c, r) + 1 < Total(r)
  {
    assert c[..i] == d[..i];
    Increment(c, d, r, i);
    ValueBounds(d, r);
  }

  /** All counters in counting order. */
  function All(r: seq<nat>): (s: seq<Tuple>)
    ensures |s| == Total(r)
  {
    seq(Total(r), v requires 0 <= v < Total(r) => Unrank(v, r))
  }

  /** Counting from 0 to Total - 1 enumerates the valid counters. */
  lemma {:induction false} AllEnumerates(r: seq<nat>)
    ensures Enumerates(All(r), |r|, c => Valid(c, r))
  {
    var valid := c => Valid(c, r);
    var rank := (c: Tuple) => if |c| == |r| then Value(c, r) else -1;
    forall i | 0 <= i < |All(r)|
      ensures |All(r)[i]| == |r| && valid(All(r)[i]) && rank(All(r)[i]) == i
    {
      UnrankValid(i, r);
    }
    forall c: Tuple | |c| == |r| && valid(c) ensures 0 <= rank(c) < Total(r) {
      ValueBounds(c, r);
    }
    forall c: Tuple, d: Tuple | |c| == |r| && |d| == |r| && valid(c) && valid(d) && Less(c, d)
      ensures rank(c) < rank(d)
    {
      LexIsValueOrder(c, d, r);
    }
    RankedRunEnumerates(All(r), |r|, valid, rank);
  }
}
