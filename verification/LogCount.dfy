/** bitset, maskv and logcount. */
module LogCount {
  import opened Nonlinear
  import opened Bits
  import opened Fixnum

  /** Bit k of n. */
  predicate Bit(n: nat, k: nat) {
    if k == 0 then n % 2 == 1 else Bit(n / 2, k - 1)
  }

  lemma {:induction false} BitsDetermine(a: nat, b: nat)
    requires forall k: nat :: Bit(a, k) == Bit(b, k)
    ensures a == b
    decreases a + b
  {
    assert Bit(a, 0) == Bit(b, 0);
    if a + b > 0 {
      forall k: nat ensures Bit(a / 2, k) == Bit(b / 2, k) { assert Bit(a, k + 1) == Bit(b, k + 1); }
      BitsDetermine(a / 2, b / 2);
    }
  }

  function LogIor(a: nat, b: nat): nat {
    if a == 0 then b else if b == 0 then a
    else (if a % 2 == 1 || b % 2 == 1 then 1 else 0) + 2 * LogIor(a / 2, b / 2)
  }

  lemma {:induction false} LogIorBit(a: nat, b: nat, k: nat)
    ensures Bit(LogIor(a, b), k) == (Bit(a, k) || Bit(b, k))
    decreases k
  {
    if a == 0 {
      ZeroBit(k);
    } else if b == 0 {
      ZeroBit(k);
    } else if k > 0 {
      LogIorBit(a / 2, b / 2, k - 1);
    }
  }

  lemma {:induction false} ZeroBit(k: nat)
    ensures !Bit(0, k)
  {
    if k > 0 { ZeroBit(k - 1); }
  }

  lemma {:induction false} Pow2Bit(j: nat, k: nat)
    ensures Bit(Pow2(j), k) == (j == k)
  {
    if j == 0 {
      if k > 0 { ZeroBit(k - 1); }
    } else if k > 0 {
      Pow2Bit(j - 1, k - 1);
    }
  }

  // ---- bitset and maskv ---------------------------------------------------------

  function SumPow2(s: seq<nat>): nat {
    if s == [] then 0 else SumPow2(s[..|s| - 1]) + Pow2(s[|s| - 1])
  }

  function Popcount(n: nat): nat {
    if n == 0 then 0 else n % 2 + Popcount(n / 2)
  }

  /** bitset: the positions of the one bits of n, or of the zero bits when negative. */
  method BitSet(n: int) returns (out: seq<nat>)
    ensures forall i, j | 0 <= i < j < |out| :: out[i] < out[j]
    ensures SumPow2(out) == Magnitude(n) && |out| == Popcount(Magnitude(n))
    ensures SumPow2(out) == if n >= 0 then n else -n - 1
    ensures forall k: nat :: k in out <==> ((n / Pow2(k)) % 2 == 1 <==> n >= 0)
  {
    var d, p := Magnitude(n), 0;
    ghost var all := d;
    out := [];
    while d != 0
      invariant Scanned(all, out, d, p)
      decreases d
    {
      ScanBit(all, out, d, p);
      if d % 2 == 1 { out := Collect(out, p); }
      d, p := d / 2, p + 1;
    }
    ScanEnd(all, out, p);
    forall k: nat ensures k in out <==> ((n / Pow2(k)) % 2 == 1 <==> n >= 0) { MagnitudeBit(n, k); }
  }

  /** A bit is in the quotient by its power of two. */
  lemma {:induction false} BitQuotient(n: nat, k: nat)
    ensures Bit(n, k) <==> (n / Pow2(k)) % 2 == 1
  {
    if k > 0 {
      BitQuotient(n / 2, k - 1);
      HalveAgain(n, Pow2(k - 1));
    } else {
      RemainderUnique(n, 1, n, 0);
    }
  }

  lemma {:induction false} HalveAgain(a: int, p: int)
    requires p > 0
    ensures a / (2 * p) == (a / 2) / p
  {
    HalveModulo(a, p);
    var q := (a / 2) / p;
    assert a / 2 == p * q + (a / 2) % p;
    Associate(2, p, q);
    RemainderUnique(a, 2 * p, q, a % 2 + 2 * ((a / 2) % p));
  }

  /** The bits of the magnitude are those of n, turned over if n is negative. */
  lemma {:induction false} MagnitudeBit(n: int, k: nat)
    ensures Bit(Magnitude(n), k) <==> ((n / Pow2(k)) % 2 == 1 <==> n >= 0)
  {
    BitQuotient(Magnitude(n), k);
    if n < 0 { ComplementQuotient(n, Pow2(k)); }
  }

  lemma {:induction false} ComplementQuotient(n: int, p: int)
    requires p > 0
    ensures (-n - 1) / p == -(n / p) - 1
  {
    var q, r := n / p, n % p;
    assert n == p * q + r;
    NegatedProduct(p, q);
    Distribute(-q, -1, p);
    RemainderUnique(-n - 1, p, -q - 1, p - 1 - r);
  }

  lemma {:induction false} NegatedProduct(p: int, q: int)
    ensures p * (-q - 1) == -(p * q) - p
  {
    Distribute(-q, -1, p);
    Distribute(q, -q, p);
    Commute(p, q);
    Commute(p, -q - 1);
  }

  /** After p shifts: out has the one bits below p, and d is what is left above. */
  ghost predicate Scanned(all: nat, out: seq<nat>, d: nat, p: nat) {
    && all == SumPow2(out) + Pow2(p) * d
    && |out| + Popcount(d) == Popcount(all)
    && (forall i | 0 <= i < |out| :: out[i] < p)
    && (forall i, j | 0 <= i < j < |out| :: out[i] < out[j])
    && (forall k: nat | k < p :: k in out <==> Bit(all, k))
    && (forall k: nat | k >= p :: Bit(all, k) == Bit(d, k - p))
  }

  lemma {:induction false} ScanBit(all: nat, out: seq<nat>, d: nat, p: nat)
    requires Scanned(all, out, d, p) && d != 0
    ensures Scanned(all, if d % 2 == 1 then Collect(out, p) else out, d / 2, p + 1)
  {
    assert Bit(all, p) == Bit(d, p - p) == (d % 2 == 1);
    forall k: nat | k >= p + 1 ensures Bit(all, k) == Bit(d / 2, k - (p + 1)) {
      assert Bit(all, k) == Bit(d, k - p);
    }
    assert Pow2(p) * d == (if d % 2 == 1 then Pow2(p) else 0) + Pow2(p + 1) * (d / 2) by {
      Associate(Pow2(p), 2, d / 2);
      Commute(Pow2(p), 2);
      Commute(Pow2(p), d);
      Distribute(2 * (d / 2), d % 2, Pow2(p));
      Commute(Pow2(p), 2 * (d / 2));
    }
  }

  lemma {:induction false} ScanEnd(all: nat, out: seq<nat>, p: nat)
    requires Scanned(all, out, 0, p)
    ensures forall k: nat :: k in out <==> Bit(all, k)
    ensures SumPow2(out) == all && |out| == Popcount(all)
  {
    forall k: nat ensures k in out <==> Bit(all, k) {
      if k >= p {
        ZeroBit(k - p);
        assert Bit(all, k) == Bit(0, k - p);
      }
    }
    assert Pow2(p) * 0 == 0;
  }

  function Collect(out: seq<nat>, p: nat): (r: seq<nat>)
    ensures |r| == |out| + 1 && SumPow2(r) == SumPow2(out) + Pow2(p)
    ensures forall k :: k in r <==> k in out || k == p
  {
    assert (out + [p])[..|out|] == out;
    out + [p]
  }

  /** maskv: a one at every given position. */
  method Maskv(bits: seq<nat>) returns (accum: nat)
    ensures forall k: nat :: Bit(accum, k) <==> k in bits
  {
    accum := 0;
    forall k: nat ensures !Bit(0, k) { ZeroBit(k); }
    for i := 0 to |bits|
      invariant forall k: nat :: Bit(accum, k) <==> k in bits[..i]
    {
      var mask := Pow2(bits[i]);
      forall k: nat ensures Bit(LogIor(accum, mask), k) == (Bit(accum, k) || k == bits[i]) {
        LogIorBit(accum, mask, k);
        Pow2Bit(bits[i], k);
      }
      assert bits[..i + 1] == bits[..i] + [bits[i]];
      accum := LogIor(accum, mask);
    }
    assert bits[..|bits|] == bits;
  }

  /** maskv undoes bitset on nonnegative numbers. */
  method MaskOfBitSet(n: nat) returns (m: nat)
    ensures m == n
  {
    var bits := BitSet(n);
    m := Maskv(bits);
    forall k: nat ensures Bit(m, k) == Bit(n, k) { MagnitudeBit(n, k); }
    BitsDetermine(m, n);
  }

  // ---- logcount -------------------------------------------------------------------

  /** One line of logcount: ((d & high) >> s) + (d & low) in 64 bits. */
  function Stage(d: nat, high: nat, low: nat, s: nat): nat {
    StageWord(ToBits(d, 64), ToBits(high, 64), ToBits(low, 64), s)
  }

  function StageWord(w: Word, high: Word, low: Word, s: nat): nat
    requires |w| == |high| == |low|
  {
    Wrap(ToNat(Shr(And(w, high), s)) + ToNat(And(w, low)), |w|)
  }

  /** logcount on a fixnum. */
  method LogCount(n: int) returns (d: nat)
    requires Magnitude(n) < Pow2(64)
    ensures d == Popcount(Magnitude(n))
  {
    d := Magnitude(n);
    ghost var w := ToBits(d, 64);
    UnsignedRoundTrip(d, 64);
    SingleBits(w);
    Pow2Table();
    Masks1();
    d := Stage(d, 0xAAAA_AAAA_AAAA_AAAA, 0x5555_5555_5555_5555, 1);
    w := StageFields(w, d, 0xAAAA_AAAA_AAAA_AAAA, 0x5555_5555_5555_5555, 1);
    Masks2();
    d := Stage(d, 0xCCCC_CCCC_CCCC_CCCC, 0x3333_3333_3333_3333, 2);
    w := StageFields(w, d, 0xCCCC_CCCC_CCCC_CCCC, 0x3333_3333_3333_3333, 2);
    Masks4();
    d := Stage(d, 0xF0F0_F0F0_F0F0_F0F0, 0x0F0F_0F0F_0F0F_0F0F, 4);
    w := StageFields(w, d, 0xF0F0_F0F0_F0F0_F0F0, 0x0F0F_0F0F_0F0F_0F0F, 4);
    d := WideStages(w, d);
  }

  /** The last three lines of logcount. */
  method WideStages(ghost w0: Word, d0: nat) returns (d: nat)
    requires |w0| == 64 && Cuts(64, 8) && Small(w0, 8) && d0 == ToNat(w0)
    ensures d == FieldSum(w0, 8)
  {
    d := d0;
    Pow2Table();
    Masks8();
    Masks16();
    ghost var w := w0;
    d := Stage(d, 0xFF00_FF00_FF00_FF00, 0x00FF_00FF_00FF_00FF, 8);
    w := StageFields(w, d, 0xFF00_FF00_FF00_FF00, 0x00FF_00FF_00FF_00FF, 8);
    d := Stage(d, 0xFFFF_0000_FFFF_0000, 0x0000_FFFF_0000_FFFF, 16);
    w := StageFields(w, d, 0xFFFF_0000_FFFF_0000, 0x0000_FFFF_0000_FFFF, 16);
    d := Stage(d, 0xFFFF_FFFF_0000_0000, 0x0000_0000_FFFF_FFFF, 32);
    w := StageFields(w, d, 0xFFFF_FFFF_0000_0000, 0x0000_0000_FFFF_FFFF, 32);
    OneField(w);
  }

  /** bitset lists as many positions as logcount counts. */
  method LogCountIsBitSetLength(n: int) returns (c: nat, bits: seq<nat>)
    requires Magnitude(n) < Pow2(64)
    ensures c == |bits|
  {
    c := LogCount(n);
    bits := BitSet(n);
  }

  // Words cut into fields of s bits, and into blocks of two fields, lowest first.

  predicate Cuts(n: nat, b: nat) {
    b > 0 && (n == 0 || (n >= b && Cuts(n - b, b)))
  }

  lemma {:induction false} CutsSum(m: nat, n: nat, b: nat)
    requires Cuts(m, b) && Cuts(n, b)
    ensures Cuts(m + n, b)
  {
    if m > 0 { CutsSum(m - b, n, b); }
  }

  function FieldSum(w: Word, s: nat): nat
    requires Cuts(|w|, s)
  {
    if w == [] then 0 else ToNat(w[..s]) + FieldSum(w[s..], s)
  }

  /** Every field holds at most its width. */
  predicate Small(w: Word, s: nat)
    requires Cuts(|w|, s)
  {
    w == [] || (ToNat(w[..s]) <= s && Small(w[s..], s))
  }

  /** Masks of n bits for the low and the high field of every block. */
  function LowMask64(s: nat, n: nat): (m: Word)
    requires Cuts(n, 2 * s)
    ensures |m| == n
  {
    if n == 0 then [] else Ones(s) + Zeros(s) + LowMask64(s, n - 2 * s)
  }

  function HighMask64(s: nat, n: nat): (m: Word)
    requires Cuts(n, 2 * s)
    ensures |m| == n
  {
    if n == 0 then [] else Zeros(s) + Ones(s) + HighMask64(s, n - 2 * s)
  }

  /** The low mask as a number; the high mask is the low one shifted up. */
  function LowNumber(s: nat, n: nat): nat
    requires Cuts(n, 2 * s)
  {
    if n == 0 then 0 else (Pow2(s) - 1) + Pow2(2 * s) * LowNumber(s, n - 2 * s)
  }

  lemma {:induction false} MaskNumbers(s: nat, n: nat)
    requires Cuts(n, 2 * s)
    ensures ToNat(LowMask64(s, n)) == LowNumber(s, n)
    ensures ToNat(HighMask64(s, n)) == Pow2(s) * LowNumber(s, n)
  {
    if n > 0 {
      MaskNumbers(s, n - 2 * s);
      OnesToNat(s);
      ToNatZeros(s);
      var l, h := LowMask64(s, n - 2 * s), HighMask64(s, n - 2 * s);
      ToNatConcat(Ones(s) + Zeros(s), l);
      ToNatPadded(Ones(s), s);
      ToNatConcat(Zeros(s) + Ones(s), h);
      ToNatConcat(Zeros(s), Ones(s));
      PullOut(Pow2(s), Pow2(s) - 1, Pow2(2 * s), LowNumber(s, n - 2 * s));
    } else {
      assert Pow2(s) * 0 == 0;
    }
  }

  lemma {:induction false} LowNumberSum(s: nat, m: nat, n: nat)
    requires Cuts(m, 2 * s) && Cuts(n, 2 * s)
    ensures Cuts(m + n, 2 * s) && LowNumber(s, m + n) == LowNumber(s, m) + Pow2(m) * LowNumber(s, n)
  {
    CutsSum(m, n, 2 * s);
    if m > 0 {
      LowNumberSum(s, m - 2 * s, n);
      assert m + n - 2 * s == (m - 2 * s) + n;
      Pow2Sum(2 * s, m - 2 * s);
      var p, q, a, b := Pow2(2 * s), Pow2(m - 2 * s), LowNumber(s, m - 2 * s), LowNumber(s, n);
      Associate(p, q, b);
      Commute(p, a + q * b);
      Distribute(a, q * b, p);
      Commute(p, a);
      Commute(p, q * b);
    }
  }

  /** Twice as many blocks: the mask is repeated. */
  lemma {:induction false} Repeat(s: nat, n: nat, p: nat, a: nat)
    requires Cuts(n, 2 * s) && LowNumber(s, n) == a && Pow2(n) == p
    ensures Cuts(2 * n, 2 * s) && LowNumber(s, 2 * n) == a + p * a
  {
    LowNumberSum(s, n, n);
  }

  lemma {:induction false} OneBlock(s: nat, p: nat)
    requires s > 0 && Pow2(s) == p
    ensures Cuts(2 * s, 2 * s) && LowNumber(s, 2 * s) == p - 1
  {
    assert LowNumber(s, 0) == 0;
    assert Pow2(2 * s) * 0 == 0;
  }

  lemma {:induction false} Pow2Table()
    ensures Pow2(1) == 2 && Pow2(2) == 4 && Pow2(4) == 16 && Pow2(8) == 256 && Pow2(16) == 0x1_0000
    ensures Pow2(32) == 0x1_0000_0000
  {
    assert Pow2(2) == 2 * Pow2(1) && Pow2(1) == 2 * Pow2(0);
    Pow2Sum(2, 2);
    Pow2Sum(4, 4);
    Pow2Sum(8, 8);
    Pow2Sum(16, 16);
  }

  lemma {:induction false} Masks1()
    ensures Cuts(64, 2) && LowNumber(1, 64) == 0x5555_5555_5555_5555
  {
    Pow2Table();
    OneBlock(1, 2);
    Repeat(1, 2, 4, 0x1);
    Repeat(1, 4, 16, 0x5);
    Repeat(1, 8, 256, 0x55);
    Repeat(1, 16, 0x1_0000, 0x5555);
    Repeat(1, 32, 0x1_0000_0000, 0x5555_5555);
  }

  lemma {:induction false} Masks2()
    ensures Cuts(64, 4) && LowNumber(2, 64) == 0x3333_3333_3333_3333
  {
    Pow2Table();
    OneBlock(2, 4);
    Repeat(2, 4, 16, 0x3);
    Repeat(2, 8, 256, 0x33);
    Repeat(2, 16, 0x1_0000, 0x3333);
    Repeat(2, 32, 0x1_0000_0000, 0x3333_3333);
  }

  lemma {:induction false} Masks4()
    ensures Cuts(64, 8) && LowNumber(4, 64) == 0x0F0F_0F0F_0F0F_0F0F
  {
    Pow2Table();
    OneBlock(4, 16);
    Repeat(4, 8, 256, 0x0F);
    Repeat(4, 16, 0x1_0000, 0x0F0F);
    Repeat(4, 32, 0x1_0000_0000, 0x0F0F_0F0F);
  }

  lemma {:induction false} Masks8()
    ensures Cuts(64, 16) && LowNumber(8, 64) == 0x00FF_00FF_00FF_00FF
  {
    Pow2Table();
    OneBlock(8, 256);
    Repeat(8, 16, 0x1_0000, 0x00FF);
    Repeat(8, 32, 0x1_0000_0000, 0x00FF_00FF);
  }

  lemma {:induction false} Masks16()
    ensures Cuts(64, 32) && LowNumber(16, 64) == 0x0000_FFFF_0000_FFFF
    ensures Cuts(64, 64) && LowNumber(32, 64) == 0x0000_0000_FFFF_FFFF
  {
    Pow2Table();
    OneBlock(16, 0x1_0000);
    Repeat(16, 32, 0x1_0000_0000, 0x0000_FFFF);
    OneBlock(32, 0x1_0000_0000);
  }

  /** The low fields, and the high fields, as numbers spaced one block apart. */
  function LowHalves(w: Word, s: nat): nat
    requires Cuts(|w|, 2 * s)
  {
    if w == [] then 0 else ToNat(w[..s]) + Pow2(2 * s) * LowHalves(w[2 * s..], s)
  }

  function HighHalves(w: Word, s: nat): nat
    requires Cuts(|w|, 2 * s)
  {
    if w == [] then 0 else ToNat(w[s..2 * s]) + Pow2(2 * s) * HighHalves(w[2 * s..], s)
  }

  lemma {:induction false} MaskLow(w: Word, s: nat)
    requires Cuts(|w|, 2 * s)
    ensures ToNat(And(w, LowMask64(s, |w|))) == LowHalves(w, s)
  {
    if w != [] {
      MaskLow(w[2 * s..], s);
      var m := LowMask64(s, |w| - 2 * s);
      assert And(w, LowMask64(s, |w|)) == (w[..s] + Zeros(s)) + And(w[2 * s..], m);
      ToNatConcat(w[..s] + Zeros(s), And(w[2 * s..], m));
      ToNatPadded(w[..s], s);
    }
  }

  lemma {:induction false} MaskHigh(w: Word, s: nat)
    requires Cuts(|w|, 2 * s)
    ensures ToNat(And(w, HighMask64(s, |w|))) == Pow2(s) * HighHalves(w, s)
  {
    if w != [] {
      MaskHigh(w[2 * s..], s);
      var m := HighMask64(s, |w| - 2 * s);
      assert And(w, HighMask64(s, |w|)) == (Zeros(s) + w[s..2 * s]) + And(w[2 * s..], m);
      ToNatConcat(Zeros(s) + w[s..2 * s], And(w[2 * s..], m));
      ToNatConcat(Zeros(s), w[s..2 * s]);
      ToNatZeros(s);
      PullOut(Pow2(s), ToNat(w[s..2 * s]), Pow2(2 * s), HighHalves(w[2 * s..], s));
    } else {
      assert Pow2(s) * 0 == 0;
    }
  }

  lemma {:induction false} PullOut(h: int, a: int, p: int, b: int)
    ensures h * a + p * (h * b) == h * (a + p * b)
  {
    Associate(p, h, b);
    Commute(p, h);
    Associate(h, p, b);
    Commute(h, a + p * b);
    Distribute(a, p * b, h);
    Commute(h, a);
    Commute(h, p * b);
  }

  /** Shifting the masked high fields down. */
  lemma {:induction false} ShiftHigh(w: Word, s: nat)
    requires Cuts(|w|, 2 * s) && w != []
    ensures ToNat(Shr(And(w, HighMask64(s, |w|)), s)) == HighHalves(w, s)
  {
    var a := And(w, HighMask64(s, |w|));
    MaskHigh(w, s);
    assert HighMask64(s, |w|)[..s] == Zeros(s);
    assert a == Zeros(s) + a[s..];
    ToNatConcat(Zeros(s), a[s..]);
    ToNatZeros(s);
    assert Shr(a, s) == a[s..] + Zeros(s);
    ToNatPadded(a[s..], s);
    Cancel(Pow2(s), ToNat(a[s..]), HighHalves(w, s));
  }

  lemma {:induction false} Cancel(h: int, a: int, b: int)
    requires h > 0 && h * a == h * b
    ensures a == b
  {
    Commute(h, a);
    Commute(h, b);
    if a < b { ScaleLe(a + 1, b, h); Distribute(a, 1, h); }
    if b < a { ScaleLe(b + 1, a, h); Distribute(b, 1, h); }
  }

  lemma {:induction false} BelowPow2(n: nat)
    ensures n < Pow2(n)
  {
    if n > 0 { BelowPow2(n - 1); }
  }

  lemma {:induction false} ToBitsConcat(x: nat, y: nat, k: nat, m: nat)
    requires x < Pow2(k) && y < Pow2(m)
    ensures x + Pow2(k) * y < Pow2(k + m)
    ensures ToBits(x + Pow2(k) * y, k + m) == ToBits(x, k) + ToBits(y, m)
  {
    var b := ToBits(x, k) + ToBits(y, m);
    ToNatConcat(ToBits(x, k), ToBits(y, m));
    UnsignedRoundTrip(x, k);
    UnsignedRoundTrip(y, m);
    ToNatBound(b);
    ToBitsToNat(b);
  }

  /** The two fields of every block added up, spaced one block apart. */
  ghost function Halves(w: Word, s: nat): nat
    requires Cuts(|w|, 2 * s)
  {
    if w == [] then 0 else (ToNat(w[..s]) + ToNat(w[s..2 * s])) + Pow2(2 * s) * Halves(w[2 * s..], s)
  }

  lemma {:induction false} HalvesAdd(w: Word, s: nat)
    requires Cuts(|w|, 2 * s)
    ensures HighHalves(w, s) + LowHalves(w, s) == Halves(w, s)
  {
    if w != [] {
      var rest := w[2 * s..];
      HalvesAdd(rest, s);
      AddPairs(Pow2(2 * s), ToNat(w[s..2 * s]), HighHalves(rest, s), ToNat(w[..s]), LowHalves(rest, s));
    }
  }

  lemma {:induction false} AddPairs(p: int, x: int, a: int, y: int, b: int)
    ensures (x + p * a) + (y + p * b) == (y + x) + p * (a + b)
  {
    Commute(p, a + b);
    Distribute(a, b, p);
    Commute(p, a);
    Commute(p, b);
  }

  /** The first block of the sum, and the rest. */
  lemma {:induction false} SumWord(x: nat, v: nat, s: nat, m: nat)
    requires x <= 2 * s && v < Pow2(m)
    ensures var n := 2 * s + m; var b := ToBits(x + Pow2(2 * s) * v, n);
            x + Pow2(2 * s) * v < Pow2(n)
            && ToNat(b[..2 * s]) == x && b[2 * s..] == ToBits(v, m)
  {
    BelowPow2(2 * s);
    ToBitsConcat(x, v, 2 * s, m);
    UnsignedRoundTrip(x, 2 * s);
    var b := ToBits(x, 2 * s) + ToBits(v, m);
    assert b[..2 * s] == ToBits(x, 2 * s) && b[2 * s..] == ToBits(v, m);
  }

  /** FieldSum and Small, two fields at a time. */
  function PairSum(w: Word, s: nat): nat
    requires Cuts(|w|, 2 * s)
  {
    if w == [] then 0 else (ToNat(w[..s]) + ToNat(w[s..2 * s])) + PairSum(w[2 * s..], s)
  }

  predicate PairsSmall(w: Word, s: nat)
    requires Cuts(|w|, 2 * s)
  {
    w == [] || (ToNat(w[..s]) + ToNat(w[s..2 * s]) <= 2 * s && PairsSmall(w[2 * s..], s))
  }

  lemma {:induction false} Pairs(w: Word, s: nat)
    requires Cuts(|w|, 2 * s) && Cuts(|w|, s)
    ensures FieldSum(w, s) == PairSum(w, s) && (Small(w, s) ==> PairsSmall(w, s))
  {
    if w != [] {
      var tail := w[s..];
      assert tail[s..] == w[2 * s..] && tail[..s] == w[s..2 * s];
      assert tail != [] && FieldSum(tail, s) == ToNat(tail[..s]) + FieldSum(tail[s..], s);
      assert Small(tail, s) <==> ToNat(tail[..s]) <= s && Small(tail[s..], s);
      Pairs(w[2 * s..], s);
    }
  }

  /** Adding the two fields of every block keeps the total and does not overflow a block. */
  lemma {:induction false} AddPairsUp(w: Word, s: nat)
    requires Cuts(|w|, 2 * s) && PairsSmall(w, s)
    ensures Halves(w, s) < Pow2(|w|)
    ensures var b := ToBits(Halves(w, s), |w|);
            FieldSum(b, 2 * s) == PairSum(w, s) && Small(b, 2 * s)
  {
    if w != [] {
      var rest := w[2 * s..];
      var x, v := ToNat(w[..s]) + ToNat(w[s..2 * s]), Halves(rest, s);
      AddPairsUp(rest, s);
      SumWord(x, v, s, |rest|);
      assert Halves(w, s) == x + Pow2(2 * s) * v && |w| == 2 * s + |rest| && x <= 2 * s;
      var b, tail := ToBits(Halves(w, s), |w|), ToBits(v, |rest|);
      assert ToNat(b[..2 * s]) == x && b[2 * s..] == tail;
      PrependField(b, x, tail, 2 * s);
    }
  }

  lemma {:induction false} PrependField(b: Word, x: nat, tail: Word, s: nat)
    requires Cuts(|b|, s) && b != [] && b[s..] == tail && ToNat(b[..s]) == x
    ensures Cuts(|tail|, s) && FieldSum(b, s) == x + FieldSum(tail, s)
    ensures Small(b, s) <==> x <= s && Small(tail, s)
  {
  }

  lemma {:induction false} AddHalves(w: Word, s: nat)
    requires Cuts(|w|, 2 * s) && Cuts(|w|, s) && Small(w, s)
    ensures Halves(w, s) < Pow2(|w|)
    ensures var b := ToBits(Halves(w, s), |w|);
            FieldSum(b, 2 * s) == FieldSum(w, s) && Small(b, 2 * s)
  {
    Pairs(w, s);
    AddPairsUp(w, s);
  }

  /** A whole stage, for the masks that belong to it. */
  lemma {:induction false} StageFields(w: Word, d: nat, high: nat, low: nat, s: nat) returns (w': Word)
    requires |w| == 64 && Cuts(64, 2 * s) && Cuts(64, s) && Small(w, s)
    requires low == LowNumber(s, 64) && high == Pow2(s) * low && d == Stage(ToNat(w), high, low, s)
    ensures |w'| == 64 && Small(w', 2 * s) && FieldSum(w', 2 * s) == FieldSum(w, s) && ToNat(w') == d
  {
    MaskNumbers(s, 64);
    StageValue(w, high, low, s);
    AddHalves(w, s);
    w' := ToBits(Halves(w, s), 64);
    UnsignedRoundTrip(Halves(w, s), 64);
  }

  lemma {:induction false} StageValue(w: Word, high: nat, low: nat, s: nat)
    requires |w| == 64 && Cuts(64, 2 * s) && Cuts(64, s) && Small(w, s)
    requires low == ToNat(LowMask64(s, 64)) && high == ToNat(HighMask64(s, 64))
    ensures Stage(ToNat(w), high, low, s) == Halves(w, s)
  {
    ToBitsToNat(LowMask64(s, 64));
    ToBitsToNat(HighMask64(s, 64));
    ToBitsToNat(w);
    MaskedSum(w, s);
    HalvesFit(w, s);
    StageWordValue(w, ToBits(high, 64), ToBits(low, 64), s, Halves(w, s));
  }

  lemma {:induction false} MaskedSum(w: Word, s: nat)
    requires Cuts(|w|, 2 * s) && w != []
    ensures ToNat(Shr(And(w, HighMask64(s, |w|)), s)) + ToNat(And(w, LowMask64(s, |w|))) == Halves(w, s)
  {
    MaskLow(w, s);
    ShiftHigh(w, s);
    HalvesAdd(w, s);
  }

  lemma {:induction false} HalvesFit(w: Word, s: nat)
    requires Cuts(|w|, 2 * s) && Cuts(|w|, s) && Small(w, s)
    ensures Wrap(Halves(w, s), |w|) == Halves(w, s)
  {
    AddHalves(w, s);
    WrapKeeps(Halves(w, s), |w|);
  }

  lemma {:induction false} StageWordValue(w: Word, high: Word, low: Word, s: nat, v: nat)
    requires |w| == |high| == |low|
    requires ToNat(Shr(And(w, high), s)) + ToNat(And(w, low)) == v && Wrap(v, |w|) == v
    ensures StageWord(w, high, low, s) == v
  {
  }

  /** Single bits are fields too, and their sum is the bit count. */
  lemma {:induction false} SingleBits(w: Word)
    ensures Cuts(|w|, 1) && Small(w, 1) && FieldSum(w, 1) == Popcount(ToNat(w))
  {
    if w != [] {
      SingleBits(w[1..]);
      assert w[..1][1..] == [] && ToNat(w[..1]) == if w[0] then 1 else 0;
    }
  }

  lemma {:induction false} OneField(w: Word)
    requires |w| == 64
    ensures Cuts(64, 64) && FieldSum(w, 64) == ToNat(w)
  {
    assert w[..64] == w;
    assert FieldSum(w[64..], 64) == 0;
  }
}
