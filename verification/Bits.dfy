/** Machine words as sequences of bits, least significant first. */
module Bits {
  import opened Nonlinear

  type Word = seq<bool>

  function Pow2(k: nat): (p: int)
    ensures p > 0
  {
    if k == 0 then 1 else 2 * Pow2(k - 1)
  }

  /** The w low bits of the two's complement form of n. */
  function ToBits(n: int, w: nat): (b: Word)
    ensures |b| == w
    decreases w
  {
    if w == 0 then [] else [n % 2 == 1] + ToBits(n / 2, w - 1)
  }

  function ToNat(b: Word): nat {
    if b == [] then 0 else (if b[0] then 1 else 0) + 2 * ToNat(b[1..])
  }

  /** The value of a two's complement word. */
  function ToSigned(b: Word): int
    requires b != []
  {
    if b[|b| - 1] then ToNat(b) - Pow2(|b|) else ToNat(b)
  }

  /** Conversion to an unsigned, then to a signed, machine type of w bits. */
  function Wrap(x: int, w: nat): (r: int)
    ensures 0 <= r < Pow2(w)
  {
    x % Pow2(w)
  }

  function WrapSigned(x: int, w: nat): int
    requires w > 0
  {
    if Wrap(x, w) >= Pow2(w - 1) then Wrap(x, w) - Pow2(w) else Wrap(x, w)
  }

  function Zeros(w: nat): (z: Word)
    ensures |z| == w && forall i | 0 <= i < w :: !z[i]
  {
    seq(w, _ => false)
  }

  function Ones(w: nat): (z: Word)
    ensures |z| == w && forall i | 0 <= i < w :: z[i]
  {
    seq(w, _ => true)
  }

  function Not(a: Word): (r: Word)
    ensures |r| == |a| && forall i {:trigger r[i]} | 0 <= i < |a| :: r[i] == !a[i]
  {
    seq(|a|, i requires 0 <= i < |a| => !a[i])
  }

  function And(a: Word, b: Word): (r: Word)
    requires |a| == |b|
    ensures |r| == |a| && forall i {:trigger r[i]} | 0 <= i < |a| :: r[i] == (a[i] && b[i])
  {
    seq(|a|, i requires 0 <= i < |a| => a[i] && b[i])
  }

  function Or(a: Word, b: Word): (r: Word)
    requires |a| == |b|
    ensures |r| == |a| && forall i {:trigger r[i]} | 0 <= i < |a| :: r[i] == (a[i] || b[i])
  {
    seq(|a|, i requires 0 <= i < |a| => a[i] || b[i])
  }

  function Xor(a: Word, b: Word): (r: Word)
    requires |a| == |b|
    ensures |r| == |a| && forall i {:trigger r[i]} | 0 <= i < |a| :: r[i] == (a[i] != b[i])
  {
    seq(|a|, i requires 0 <= i < |a| => a[i] != b[i])
  }

  function Shl(a: Word, s: nat): (r: Word)
    ensures |r| == |a| && forall i {:trigger r[i]} | 0 <= i < |a| :: r[i] == (i >= s && a[i - s])
  {
    seq(|a|, i requires 0 <= i < |a| => i >= s && a[i - s])
  }

  function Shr(a: Word, s: nat): (r: Word)
    ensures |r| == |a| && forall i {:trigger r[i]} | 0 <= i < |a| :: r[i] == (i + s < |a| && a[i + s])
  {
    seq(|a|, i requires 0 <= i < |a| => i + s < |a| && a[i + s])
  }

  /** Bit length. */
  function HighestBit(n: nat): (h: nat)
    ensures n < Pow2(h) && (h > 0 ==> Pow2(h - 1) <= n)
  {
    if n == 0 then 0 else 1 + HighestBit(n / 2)
  }

  // ---- Value of a word ------------------------------------------------------

  lemma {:induction false} ToNatBound(b: Word)
    ensures ToNat(b) < Pow2(|b|)
  {
    if b != [] { ToNatBound(b[1..]); }
  }

  lemma {:induction false} ToNatToBits(n: int, w: nat)
    ensures ToNat(ToBits(n, w)) == n % Pow2(w)
    decreases w
  {
    if w > 0 {
      ToNatToBits(n / 2, w - 1);
      var p := Pow2(w - 1);
      assert ToBits(n, w)[1..] == ToBits(n / 2, w - 1);
      HalveModulo(n, p);
    }
  }

  lemma {:induction false} HalveModulo(n: int, p: int)
    requires p > 0
    ensures n % (2 * p) == n % 2 + 2 * ((n / 2) % p)
  {
    var q, r := (n / 2) / p, n % 2 + 2 * ((n / 2) % p);
    assert n / 2 == p * q + (n / 2) % p;
    assert n == (2 * p) * q + r by { Associate(2, p, q); }
    RemainderUnique(n, 2 * p, q, r);
  }

  lemma {:induction false} RemainderUnique(n: int, d: int, q: int, r: int)
    requires d > 0 && 0 <= r < d && n == d * q + r
    ensures n / d == q && n % d == r
  {
    var z := n / d - q;
    Commute(d, n / d);
    Commute(d, q);
    Distribute(n / d, -q, d);
    assert z * d == r - n % d;
    if z >= 1 { ScaleLe(1, z, d); assert false; }
    if z <= -1 { ScaleLe(z, -1, d); assert false; }
  }

  lemma {:induction false} ToBitsToNat(b: Word)
    ensures ToBits(ToNat(b), |b|) == b
  {
    if b != [] { ToBitsToNat(b[1..]); }
  }

  lemma {:induction false} ToBitsPrefix(n: int, v: nat, w: nat)
    requires v <= w
    ensures ToBits(n, w)[..v] == ToBits(n, v)
    decreases v
  {
    if v > 0 {
      ToBitsPrefix(n / 2, v - 1, w - 1);
      assert ToBits(n, w)[..v] == [n % 2 == 1] + ToBits(n / 2, w - 1)[..v - 1];
    }
  }

  lemma {:induction false} ToNatConcat(a: Word, b: Word)
    ensures ToNat(a + b) == ToNat(a) + Pow2(|a|) * ToNat(b)
  {
    if a == [] {
      assert a + b == b;
    } else {
      assert (a + b)[1..] == a[1..] + b;
      ToNatConcat(a[1..], b);
      Associate(2, Pow2(|a| - 1), ToNat(b));
    }
  }

  lemma {:induction false} ToNatZeros(w: nat)
    ensures ToNat(Zeros(w)) == 0
  {
    if w > 0 {
      assert Zeros(w)[1..] == Zeros(w - 1);
      ToNatZeros(w - 1);
    }
  }

  lemma {:induction false} ToNatPadded(a: Word, w: nat)
    ensures ToNat(a + Zeros(w)) == ToNat(a)
  {
    ToNatConcat(a, Zeros(w));
    ToNatZeros(w);
  }

  lemma {:induction false} ToNatNot(a: Word)
    ensures ToNat(Not(a)) == Pow2(|a|) - 1 - ToNat(a)
  {
    if a != [] {
      assert Not(a)[1..] == Not(a[1..]);
      ToNatNot(a[1..]);
    }
  }

  lemma {:induction false} TopBit(a: Word)
    requires a != []
    ensures a[|a| - 1] <==> ToNat(a) >= Pow2(|a| - 1)
  {
    if |a| == 1 {
      assert a[1..] == [];
    } else {
      TopBit(a[1..]);
    }
  }

  lemma {:induction false} OnesToNat(w: nat)
    ensures ToNat(Ones(w)) == Pow2(w) - 1
  {
    if w > 0 {
      assert Ones(w)[1..] == Ones(w - 1);
      OnesToNat(w - 1);
    }
  }

  /** ((1 << k) - 1), a word whose k low bits are set. */
  lemma {:induction false} LowMask(k: nat, w: nat)
    requires k <= w
    ensures ToBits(Pow2(k) - 1, w) == Ones(k) + Zeros(w - k)
  {
    var m := Ones(k) + Zeros(w - k);
    ToNatPadded(Ones(k), w - k);
    OnesToNat(k);
    ToBitsToNat(m);
  }

  lemma {:induction false} Pow2Monotone(j: nat, k: nat)
    requires j <= k
    ensures Pow2(j) <= Pow2(k)
  {
    if j < k { Pow2Monotone(j, k - 1); }
  }

  lemma {:induction false} Pow2Sum(j: nat, k: nat)
    ensures Pow2(j + k) == Pow2(j) * Pow2(k)
  {
    if j > 0 {
      Pow2Sum(j - 1, k);
      Associate(2, Pow2(j - 1), Pow2(k));
    }
  }

  lemma {:induction false} Pow2Values()
    ensures Pow2(30) == 0x4000_0000 && Pow2(31) == 0x8000_0000
    ensures Pow2(61) == 0x2000_0000_0000_0000 && Pow2(64) == 0x1_0000_0000_0000_0000
  {
    assert Pow2(10) == 0x400;
    Pow2Sum(10, 10);
    assert Pow2(20) == 0x10_0000;
    Pow2Sum(10, 20);
    assert Pow2(30) == 0x4000_0000;
    assert Pow2(31) == 2 * Pow2(30);
    Pow2Sum(30, 31);
    assert Pow2(61) == 0x2000_0000_0000_0000;
    Pow2Sum(3, 61);
    assert Pow2(3) == 8;
  }

  /** Which numbers a word of w bits can hold. */
  predicate FitsUnsigned(n: int, w: nat) {
    0 <= n < Pow2(w)
  }

  predicate FitsSigned(n: int, w: nat)
    requires w > 0
  {
    -Pow2(w - 1) <= n < Pow2(w - 1)
  }

  lemma {:induction false} UnsignedRoundTrip(n: int, w: nat)
    ensures ToNat(ToBits(n, w)) == n <==> FitsUnsigned(n, w)
  {
    ToNatToBits(n, w);
    ToNatBound(ToBits(n, w));
    if FitsUnsigned(n, w) { RemainderUnique(n, Pow2(w), 0, n); }
  }

  lemma {:induction false} SignedRoundTrip(n: int, w: nat)
    requires w > 0
    ensures ToSigned(ToBits(n, w)) == n <==> FitsSigned(n, w)
  {
    var b := ToBits(n, w);
    ToNatToBits(n, w);
    ToNatBound(b);
    TopBit(b);
    if 0 <= n < Pow2(w - 1) { RemainderUnique(n, Pow2(w), 0, n); }
    if -Pow2(w - 1) <= n < 0 { RemainderUnique(n, Pow2(w), -1, n + Pow2(w)); }
  }

  lemma {:induction false} WrapKeeps(x: int, w: nat)
    ensures Wrap(x, w) == x <==> FitsUnsigned(x, w)
  {
    if FitsUnsigned(x, w) { RemainderUnique(x, Pow2(w), 0, x); }
  }

  lemma {:induction false} WrapSignedKeeps(x: int, w: nat)
    requires w > 0
    ensures WrapSigned(x, w) == x <==> FitsSigned(x, w)
    ensures WrapSigned(Pow2(w - 1), w) == -Pow2(w - 1)
  {
    WrapKeeps(Pow2(w - 1), w);
    if 0 <= x < Pow2(w - 1) { WrapKeeps(x, w); }
    if -Pow2(w - 1) <= x < 0 { RemainderUnique(x, Pow2(w), -1, x + Pow2(w)); }
  }

  /** Reading a word and writing it back. */
  lemma {:induction false} ReadBitsBack(v: Word)
    requires v != []
    ensures FitsUnsigned(ToNat(v), |v|) && ToBits(ToNat(v), |v|) == v
    ensures FitsSigned(ToSigned(v), |v|) && ToBits(ToSigned(v), |v|) == v
  {
    var n, p := ToNat(v), Pow2(|v|);
    ToNatBound(v);
    ToBitsToNat(v);
    TopBit(v);
    assert p == 2 * Pow2(|v| - 1);
    if v[|v| - 1] {
      RemainderUnique(n - p, p, -1, n);
      ToNatToBits(n - p, |v|);
      ToBitsToNat(ToBits(n - p, |v|));
    }
  }
}
