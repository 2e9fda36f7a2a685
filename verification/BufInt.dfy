/** Integers as big-endian two's complement bytes: width, truncation, sign extension,
    buf-int and int-buf. */
module BufInt {
  import opened Wrappers
  import opened Nonlinear
  import opened Bits
  import opened Fixnum
  import Buf

  type Byte = Buf.Byte

  // ---- Width -----------------------------------------------------------------------

  /** width: how many bits a two's complement form needs besides the sign. */
  method Width(n: int) returns (w: nat)
    ensures w == HighestBit(Magnitude(n))
  {
    if n >= 0 {
      w := HighestBit(n);
    } else if IsFixnum(n) {
      var mask := ToBits(INT_PTR_MAX, 64);
      FlipFixnum(n);
      w := HighestBit(ToNat(Xor(And(ToBits(n, 64), mask), mask)));
    } else {
      var k := 64 * DigitCount(-n);
      FlipNegative(n, k);
      w := HighestBit(ToNat(Not(ToBits(n, k))));
    }
  }

  /** How many 64 bit digits a number takes. */
  function DigitCount(n: nat): (u: nat)
    ensures u > 0 && n < Pow2(64 * u)
  {
    Pow2Values();
    if n < 0x1_0000_0000_0000_0000 then 1 else
      var u := DigitCount(n / 0x1_0000_0000_0000_0000);
      Pow2Sum(64, 64 * u);
      1 + u
  }

  /** Complementing the two's complement form of a negative number. */
  lemma {:induction false} FlipNegative(n: int, k: nat)
    requires n < 0 && -n <= Pow2(k)
    ensures ToNat(Not(ToBits(n, k))) == -n - 1
  {
    ToNatNot(ToBits(n, k));
    ToNatToBits(n, k);
    RemainderUnique(n, Pow2(k), -1, n + Pow2(k));
  }

  lemma {:induction false} MaskFlips(w: Word, mask: Word)
    requires |w| == 64 && mask == Ones(63) + Zeros(1)
    ensures Xor(And(w, mask), mask) == Not(w[..63]) + Zeros(1)
  {
  }

  lemma {:induction false} FlipFixnum(n: int)
    requires n < 0 && IsFixnum(n)
    ensures var mask := ToBits(INT_PTR_MAX, 64);
            ToNat(Xor(And(ToBits(n, 64), mask), mask)) == -n - 1
  {
    Pow2Values();
    assert Pow2(64) == 2 * Pow2(63);
    IntPtrMaxBits();
    var mask, low := ToBits(INT_PTR_MAX, 64), ToBits(n, 63);
    ToBitsPrefix(n, 63, 64);
    MaskFlips(ToBits(n, 64), mask);
    ToNatPadded(Not(low), 1);
    FlipNegative(n, 63);
  }

  /** A number fits in k bits and a sign exactly if its width is at most k. */
  lemma {:induction false} BitsNeeded(n: int, k: nat)
    ensures FitsSigned(n, k + 1) <==> HighestBit(Magnitude(n)) <= k
  {
    var h := HighestBit(Magnitude(n));
    if h <= k { Pow2Monotone(h, k); } else { Pow2Monotone(k, h - 1); }
  }

  // ---- Sign extension ---------------------------------------------------------------

  /** The one number of that many bits, with a sign, that agrees with n in all of them. */
  lemma {:induction false} WrapSignedMeans(n: int, w: nat)
    requires w > 0
    ensures FitsSigned(WrapSigned(n, w), w) && (n - WrapSigned(n, w)) % Pow2(w) == 0
  {
    var p, q := Pow2(w), n / Pow2(w);
    assert n == p * q + n % p && p == 2 * Pow2(w - 1);
    RemainderUnique(n - n % p, p, q, 0);
    Distribute(q, 1, p);
    Commute(p, q);
    Commute(p, q + 1);
    RemainderUnique(n - n % p + p, p, q + 1, 0);
  }

  /** sign_extend: the low nbits bits as a two's complement number; Error for no bits. */
  method SignExtend(n: int, nbits: nat) returns (r: Result<int>)
    ensures r == if nbits == 0 then Error else Ok(WrapSigned(n, nbits))
    ensures nbits > 0 ==> FitsSigned(r.value, nbits) && (n - r.value) % Pow2(nbits) == 0
  {
    if nbits == 0 { return Error; }
    WrapSignedMeans(n, nbits);
    var trunc := Wrap(n, nbits);
    if trunc < Pow2(nbits - 1) { return Ok(trunc); }
    var extended := ExtendNegative(trunc, nbits);
    r := Ok(extended);
  }

  /** The sign bit is set: by a mask for a fixnum, by two complements for a bignum. */
  method ExtendNegative(trunc: int, nbits: nat) returns (r: int)
    requires nbits > 0 && Pow2(nbits - 1) <= trunc < Pow2(nbits)
    ensures r == trunc - Pow2(nbits)
  {
    if IsFixnum(trunc) {
      FixnumBitCount(trunc, nbits);
      OrWithOnes(trunc, nbits);
      r := ToSigned(Or(ToBits(trunc, 64), Shl(ToBits(INT_PTR_MAX, 64), nbits)));
    } else {
      var k := 64 * DigitCount(trunc);
      NegateTruncated(trunc, nbits, k);
      r := -Wrap(ToNat(ToBits(-trunc, k)), nbits);
    }
  }

  lemma {:induction false} FixnumBitCount(v: nat, nbits: nat)
    requires nbits > 0 && Pow2(nbits - 1) <= v && IsFixnum(v)
    ensures nbits <= 61
  {
    Pow2Values();
    if nbits > 61 { Pow2Monotone(61, nbits - 1); }
  }

  /** v | (INT_PTR_MAX << nbits) sets every bit from nbits up. */
  lemma {:induction false} OrWithOnes(v: nat, nbits: nat)
    requires 0 < nbits <= 61 && v < Pow2(nbits)
    ensures ToSigned(Or(ToBits(v, 64), Shl(ToBits(INT_PTR_MAX, 64), nbits))) == v - Pow2(nbits)
  {
    IntPtrMaxBits();
    SmallPadded(v, nbits, 64);
    UnsignedRoundTrip(v, nbits);
    OrFills(ToBits(v, nbits), 64 - nbits);
    FilledUp(ToBits(v, nbits), 64 - nbits);
  }

  lemma {:induction false} IntPtrMaxBits()
    ensures ToBits(INT_PTR_MAX, 64) == Ones(63) + Zeros(1)
  {
    Pow2Values();
    assert Pow2(64) == 2 * Pow2(63);
    LowMask(63, 64);
  }

  lemma {:induction false} OrFills(low: Word, high: nat)
    requires 0 < |low| && |low| + high == 64
    ensures Or(low + Zeros(high), Shl(Ones(63) + Zeros(1), |low|)) == low + Ones(high)
  {
  }

  /** Ones above the bits of low. */
  lemma {:induction false} FilledUp(low: Word, high: nat)
    requires high > 0
    ensures ToSigned(low + Ones(high)) == ToNat(low) - Pow2(|low|)
  {
    var p, q := Pow2(|low|), Pow2(high);
    ToNatConcat(low, Ones(high));
    OnesToNat(high);
    Pow2Sum(|low|, high);
    Distribute(q, -1, p);
    Commute(q - 1, p);
    Commute(q, p);
  }

  lemma {:induction false} SmallPadded(v: nat, k: nat, w: nat)
    requires k <= w && v < Pow2(k)
    ensures ToBits(v, w) == ToBits(v, k) + Zeros(w - k)
  {
    var padded := ToBits(v, k) + Zeros(w - k);
    ToNatPadded(ToBits(v, k), w - k);
    UnsignedRoundTrip(v, k);
    ToBitsToNat(padded);
  }

  lemma {:induction false} NegateTruncated(v: int, nbits: nat, k: nat)
    requires nbits > 0 && Pow2(nbits - 1) <= v < Pow2(nbits) && v < Pow2(k)
    ensures -Wrap(ToNat(ToBits(-v, k)), nbits) == v - Pow2(nbits)
  {
    if k < nbits {
      Pow2Monotone(k, nbits - 1);
      assert false;
    }
    var p, q := Pow2(nbits), Pow2(k - nbits);
    Pow2Sum(nbits, k - nbits);
    ToNatToBits(-v, k);
    RemainderUnique(-v, Pow2(k), -1, Pow2(k) - v);
    Distribute(q, -1, p);
    Commute(q - 1, p);
    Commute(q, p);
    RemainderUnique(Pow2(k) - v, p, q - 1, p - v);
  }

  // ---- Bytes ------------------------------------------------------------------------

  /** The size bytes of the two's complement form of n, most significant first. */
  function Bytes(n: int, size: nat): (s: seq<Byte>)
    ensures |s| == size
    decreases size
  {
    if size == 0 then [] else Bytes(n / 256, size - 1) + [n % 256]
  }

  function Value(s: seq<Byte>): nat {
    if s == [] then 0 else 256 * Value(s[..|s| - 1]) + s[|s| - 1]
  }

  function SignedValue(s: seq<Byte>): int
    requires s != []
  {
    WrapSigned(Value(s), 8 * |s|)
  }

  lemma {:induction false} ByteStep(k: nat)
    ensures Pow2(8 * (k + 1)) == 256 * Pow2(8 * k)
  {
    Pow2Sum(8, 8 * k);
    assert Pow2(8) == 256;
  }

  lemma {:induction false} ByteModulo(n: int, p: int)
    requires p > 0
    ensures n % (256 * p) == 256 * ((n / 256) % p) + n % 256
  {
    var m := n / 256;
    var q, r := m / p, m % p;
    assert m == p * q + r;
    Associate(256, p, q);
    RemainderUnique(n, 256 * p, q, 256 * r + n % 256);
  }

  lemma {:induction false} BytesValue(n: int, size: nat)
    ensures Value(Bytes(n, size)) == n % Pow2(8 * size)
    decreases size
  {
    if size > 0 {
      BytesValue(n / 256, size - 1);
      ByteStep(size - 1);
      assert Bytes(n, size)[..size - 1] == Bytes(n / 256, size - 1);
      ByteModulo(n, Pow2(8 * (size - 1)));
    }
  }

  lemma {:induction false} ValueBound(s: seq<Byte>)
    ensures Value(s) < Pow2(8 * |s|)
  {
    if s != [] {
      ValueBound(s[..|s| - 1]);
      ByteStep(|s| - 1);
    }
  }

  lemma {:induction false} ValueBytes(s: seq<Byte>)
    ensures Bytes(Value(s), |s|) == s
  {
    if s != [] {
      ValueBytes(s[..|s| - 1]);
      assert s == s[..|s| - 1] + [s[|s| - 1]];
    }
  }

  /** Bytes depends only on the bits it writes. */
  lemma {:induction false} BytesWrap(n: int, size: nat)
    ensures Bytes(n % Pow2(8 * size), size) == Bytes(n, size)
  {
    BytesValue(n, size);
    ValueBytes(Bytes(n, size));
  }

  lemma {:induction false} LeadingZero(v: nat, size: nat)
    requires v < Pow2(8 * size)
    ensures Bytes(v, size + 1) == [0] + Bytes(v, size)
    decreases size
  {
    if size > 0 {
      ByteStep(size - 1);
      LeadingZero(v / 256, size - 1);
      assert [0] + Bytes(v / 256, size - 1) + [v % 256] == [0] + (Bytes(v / 256, size - 1) + [v % 256]);
    } else {
      assert v == 0;
    }
  }

  // ---- buf_int and int_buf ------------------------------------------------------------

  /** How many bytes a magnitude is written in; zero takes one. */
  function UnsignedSize(v: nat): nat {
    if v < 256 then 1 else 1 + UnsignedSize(v / 256)
  }

  lemma {:induction false} SizeBounds(v: nat)
    ensures var z := UnsignedSize(v); z > 0 && v < Pow2(8 * z) && (z > 1 ==> Pow2(8 * (z - 1)) <= v)
  {
    if v >= 256 {
      var z := UnsignedSize(v / 256);
      SizeBounds(v / 256);
      ByteStep(z);
      ByteStep(z - 1);
    } else {
      assert Pow2(8) == 256;
    }
  }

  /** The bytes of buf_int. */
  ghost function Encoded(n: int): (s: seq<Byte>)
    ensures s != []
  {
    Bytes(n, HighestBit(Magnitude(n)) / 8 + 1)
  }

  /** Byte i counts 256 to the power of the bytes after it. */
  lemma {:induction false} ByteAt(n: int, size: nat, i: nat)
    requires i < size
    ensures Bytes(n, size)[i] == (n / Pow2(8 * (size - 1 - i))) % 256
    decreases size
  {
    if i == size - 1 {
      RemainderUnique(n, 1, n, 0);
    } else {
      var k := size - 2 - i;
      ByteAt(n / 256, size - 1, i);
      ByteStep(k);
      assert 8 * (k + 1) == 8 * (size - 1 - i);
      DivideTwice(n, 256, Pow2(8 * k));
    }
  }

  lemma {:induction false} DivideTwice(n: int, a: int, b: int)
    requires a > 0 && b > 0
    ensures a * b > 0 && n / (a * b) == (n / a) / b
  {
    var m, q := n / a, (n / a) / b;
    var x, y := n % a, m % b;
    assert m == b * q + y && n == a * m + x;
    ScaleLe(1, a, b);
    TwoRemainders(a, b, q, y, m);
    RemainderBound(a, b, y);
    RemainderUnique(n, a * b, q, a * y + x);
  }

  lemma {:induction false} TwoRemainders(a: int, b: int, q: int, y: int, m: int)
    requires m == b * q + y
    ensures a * m == (a * b) * q + a * y
  {
    Commute(a, b * q + y);
    Distribute(b * q, y, a);
    Commute(b * q, a);
    Commute(y, a);
    Associate(a, b, q);
  }

  lemma {:induction false} RemainderBound(a: int, b: int, y: int)
    requires a > 0 && 0 <= y < b
    ensures 0 <= a * y && a * y + a <= a * b
  {
    ScaleLe(0, y, a);
    ScaleLe(y + 1, b, a);
    Distribute(y, 1, a);
    Commute(a, y);
    Commute(a, b);
  }

  /** 258 is the bytes 1 and 2, 128 takes a zero byte in front, and -129 is 255 and 127. */
  lemma {:induction false} BytesExample(n: int)
    ensures n == 258 ==> Encoded(n) == [1, 2]
    ensures n == 128 ==> Encoded(n) == [0, 128]
    ensures n == -129 ==> Encoded(n) == [255, 127]
  {
    if n == 258 || n == 128 || n == -129 {
      var s := TwoByteForm(n);
      assert s == [n / 256 % 256, n % 256];
    }
  }

  lemma {:induction false} TwoByteForm(n: int) returns (s: seq<Byte>)
    requires -32768 <= n < -128 || 128 <= n < 32768
    ensures s == Encoded(n) && |s| == 2 && s[0] == n / 256 % 256 && s[1] == n % 256
  {
    s := Encoded(n);
    var v, h := Magnitude(n), HighestBit(Magnitude(n));
    SmallPowers();
    if h < 8 { Pow2Monotone(h, 7); }
    if h > 15 { Pow2Monotone(15, h - 1); }
    assert Bytes(n, 2) == Bytes(n / 256, 1) + [n % 256];
    assert Bytes(n / 256, 1) == Bytes(n / 256 / 256, 0) + [n / 256 % 256];
  }

  lemma {:induction false} SmallPowers()
    ensures Pow2(7) == 128 && Pow2(15) == 32768
  {
    assert Pow2(8) == 256;
    Pow2Sum(7, 8);
  }

  /** buf_int: every byte of the buffer is written, and there are no more than it takes. */
  method BufInt(n: int) returns (data: array<Byte>)
    ensures fresh(data) && data[..] == Encoded(n)
  {
    var wi := Width(n);
    var bytes := (wi + 1 + 7) / 8;
    var un := Wrap(n, 8 * bytes);
    var numsize := UnsignedSize(un);
    NumSize(n, bytes);
    data := new Byte[bytes];
    data[0] := 0;
    StoreBig(data, bytes - numsize, un);
    ghost var s := data[..];
    Padded(n, bytes, s);
  }

  /** The minimal bytes of the truncated value, after a zero if one is missing. */
  lemma {:induction false} Padded(n: int, bytes: nat, s: seq<Byte>)
    requires var un := Wrap(n, 8 * bytes);
             var gap := bytes - UnsignedSize(un);
             0 <= gap <= 1 && |s| == bytes && s[gap..] == Bytes(un, bytes - gap) && (gap == 1 ==> s[0] == 0)
    requires bytes == HighestBit(Magnitude(n)) / 8 + 1
    ensures s == Encoded(n)
  {
    var un := Wrap(n, 8 * bytes);
    var z := UnsignedSize(un);
    BytesWrap(n, bytes);
    SizeBounds(un);
    if z < bytes {
      LeadingZero(un, z);
      assert s == [0] + s[1..];
    } else {
      assert s == s[0..];
    }
  }

  /** At most the first byte is left to the leading zero. */
  lemma {:induction false} NumSize(n: int, bytes: nat)
    requires bytes == HighestBit(Magnitude(n)) / 8 + 1
    ensures var z := UnsignedSize(Wrap(n, 8 * bytes)); bytes - 1 <= z <= bytes
  {
    var un := Wrap(n, 8 * bytes);
    NoMoreBytes(un, bytes);
    if bytes > 1 { HighBytes(n, bytes); NoFewerBytes(un, bytes - 1); }
  }

  lemma {:induction false} NoMoreBytes(v: nat, bytes: nat)
    requires bytes > 0 && v < Pow2(8 * bytes)
    ensures UnsignedSize(v) <= bytes
  {
    var z := UnsignedSize(v);
    SizeBounds(v);
    if z > bytes { Pow2Monotone(8 * bytes, 8 * (z - 1)); }
  }

  lemma {:induction false} NoFewerBytes(v: nat, bytes: nat)
    requires bytes > 0 && Pow2(8 * bytes - 1) <= v
    ensures bytes <= UnsignedSize(v)
  {
    var z := UnsignedSize(v);
    SizeBounds(v);
    if z < bytes { Pow2Monotone(8 * z, 8 * bytes - 1); }
  }

  /** What is left of a number of that width reaches into the second byte. */
  lemma {:induction false} HighBytes(n: int, bytes: nat)
    requires bytes == HighestBit(Magnitude(n)) / 8 + 1 && bytes > 1
    ensures Pow2(8 * (bytes - 1) - 1) <= Wrap(n, 8 * bytes)
  {
    var h, low, high := HighestBit(Magnitude(n)), 8 * (bytes - 1) - 1, 8 * bytes - 1;
    Pow2Monotone(low, h - 1);
    Pow2Monotone(h, high);
    Pow2Monotone(low, high);
    assert Pow2(8 * bytes) == 2 * Pow2(high);
    WrapOf(n, Pow2(high), Pow2(8 * bytes));
  }

  lemma {:induction false} WrapOf(n: int, half: int, p: int)
    requires 0 < half && p == 2 * half && -half <= n < half
    ensures n % p == if n >= 0 then n else n + p
  {
    if n >= 0 { RemainderUnique(n, p, 0, n); } else { RemainderUnique(n, p, -1, n + p); }
  }

  /** Write v from offset on, up to the end, least significant byte last. */
  method StoreBig(data: array<Byte>, offset: nat, v: nat)
    requires offset < data.Length && UnsignedSize(v) == data.Length - offset
    modifies data
    ensures data[..offset] == old(data[..offset])
    ensures data[offset..] == Bytes(v, data.Length - offset)
  {
    var i, rest := data.Length, v;
    while i > offset
      invariant offset <= i <= data.Length
      invariant data[..offset] == old(data[..offset])
      invariant Bytes(v, data.Length - offset) == Bytes(rest, i - offset) + data[i..]
    {
      i := i - 1;
      data[i] := rest % 256;
      assert data[i..] == [rest % 256] + data[i + 1..];
      rest := rest / 256;
    }
  }

  /** int_buf: Error for an empty buffer. */
  method IntBuf(data: array<Byte>) returns (r: Result<int>)
    ensures r == if data.Length == 0 then Error else Ok(SignedValue(data[..]))
  {
    if data.Length == 0 { return Error; }
    var v: nat := 0;
    for i := 0 to data.Length
      invariant v == Value(data[..i])
    {
      assert data[..i + 1][..i] == data[..i];
      v := 256 * v + data[i];
    }
    assert data[..] == data[..data.Length];
    r := SignExtend(v, 8 * data.Length);
  }

  // ---- Both directions -----------------------------------------------------------------

  /** What a string of bytes stands for, and which numbers it can stand for. */
  lemma {:induction false} SignedBytes(n: int, size: nat)
    requires size > 0
    ensures SignedValue(Bytes(n, size)) == n <==> FitsSigned(n, 8 * size)
  {
    BytesValue(n, size);
    WrapTwice(n, 8 * size);
    WrapSignedKeeps(n, 8 * size);
  }

  lemma {:induction false} WrapTwice(n: int, w: nat)
    requires w > 0
    ensures WrapSigned(Wrap(n, w), w) == WrapSigned(n, w)
  {
    WrapKeeps(Wrap(n, w), w);
  }

  /** Every integer comes back, and no shorter string of bytes stands for it. */
  lemma {:induction false} RoundTrip(n: int)
    ensures SignedValue(Encoded(n)) == n
    ensures forall s: seq<Byte> | s != [] && SignedValue(s) == n :: |Encoded(n)| <= |s|
  {
    LengthNeeded(n, |Encoded(n)|);
    SignedBytes(n, |Encoded(n)|);
    forall s: seq<Byte> | s != [] && SignedValue(s) == n ensures |Encoded(n)| <= |s| {
      SignedFits(s);
      LengthNeeded(n, |s|);
    }
  }

  lemma {:induction false} LengthNeeded(n: int, size: nat)
    requires size > 0
    ensures FitsSigned(n, 8 * size) <==> |Encoded(n)| <= size
  {
    BitsNeeded(n, 8 * size - 1);
  }

  lemma {:induction false} SignedFits(s: seq<Byte>)
    requires s != []
    ensures FitsSigned(SignedValue(s), 8 * |s|)
    ensures Bytes(SignedValue(s), |s|) == s
  {
    var w := 8 * |s|;
    ValueBound(s);
    ValueBytes(s);
    WrapBack(Value(s), w);
    BytesWrap(SignedValue(s), |s|);
  }

  lemma {:induction false} WrapBack(v: nat, w: nat)
    requires w > 0 && v < Pow2(w)
    ensures FitsSigned(WrapSigned(v, w), w) && WrapSigned(v, w) % Pow2(w) == v
    ensures WrapSigned(v, w) == if v >= Pow2(w - 1) then v - Pow2(w) else v
  {
    WrapKeeps(v, w);
    var p := Pow2(w);
    assert p == 2 * Pow2(w - 1);
    RemainderUnique(v, p, 0, v);
    RemainderUnique(v - p, p, -1, v);
  }

  /** A first byte that only repeats the sign of the next. */
  predicate Redundant(s: seq<Byte>) {
    |s| > 1 && ((s[0] == 0 && s[1] < 128) || (s[0] == 255 && s[1] >= 128))
  }

  /** The other way round: a buffer comes back exactly if its first byte is needed. */
  lemma {:induction false} DecodeThenEncode(s: seq<Byte>)
    requires s != []
    ensures Encoded(SignedValue(s)) == s <==> !Redundant(s)
  {
    var n := SignedValue(s);
    SignedFits(s);
    LengthNeeded(n, |s|);
    if |s| > 1 {
      LengthNeeded(n, |s| - 1);
      FirstByte(s);
    }
  }

  /** A string of bytes fits in one byte less exactly if its first byte is redundant. */
  lemma {:induction false} FirstByte(s: seq<Byte>)
    requires |s| > 1
    ensures FitsSigned(SignedValue(s), 8 * (|s| - 1)) <==> Redundant(s)
  {
    var k, q, rest := |s| - 1, Pow2(8 * (|s| - 2)), Value(s[2..]);
    ByteStep(k);
    ByteStep(k - 1);
    assert Pow2(8 * |s|) == 2 * Pow2(8 * |s| - 1) && Pow2(8 * k) == 2 * Pow2(8 * k - 1);
    ValueBound(s);
    ValueBound(s[2..]);
    WrapBack(Value(s), 8 * |s|);
    TwoBytes(s);
    Scaled(s[0], 256 * q);
    Scaled(s[1], q);
    LeadingBits(s[0], s[1], q, s[0] * (256 * q), s[1] * q, rest);
  }

  lemma {:induction false} TwoBytes(s: seq<Byte>)
    requires |s| > 1
    ensures var q := Pow2(8 * (|s| - 2)); Value(s) == s[0] * (256 * q) + s[1] * q + Value(s[2..])
  {
    ByteStep(|s| - 2);
    LeadingByte(s);
    LeadingByte(s[1..]);
    assert s[1..][1..] == s[2..];
  }

  lemma {:induction false} LeadingByte(s: seq<Byte>)
    requires s != []
    ensures Value(s) == s[0] * Pow2(8 * (|s| - 1)) + Value(s[1..])
  {
    if |s| > 1 {
      var t, k := s[..|s| - 1], |s| - 2;
      LeadingByte(t);
      ByteStep(k);
      assert s[1..][..k] == t[1..];
      Associate(256, s[0], Pow2(8 * k));
      Associate(s[0], 256, Pow2(8 * k));
      Distribute(s[0] * Pow2(8 * k), Value(t[1..]), 256);
    }
  }

  /** A byte weighted by t: the bounds that place it in the first or second half. */
  ghost predicate Weighted(a: Byte, t: nat, product: int) {
    && 0 <= product <= 255 * t
    && (a == 0 ==> product == 0) && (a == 255 ==> product == 255 * t)
    && (a > 0 ==> product >= t) && (a < 255 ==> product <= 254 * t)
    && (a < 128 ==> product <= 127 * t) && (a >= 128 ==> product >= 128 * t)
  }

  lemma {:induction false} Scaled(a: Byte, t: nat)
    ensures Weighted(a, t, a * t)
  {
    ScaleLe(0, a, t);
    ScaleLe(a, 255, t);
    if a > 0 { ScaleLe(1, a, t); }
    if a < 255 { ScaleLe(a, 254, t); }
    if a < 128 { ScaleLe(a, 127, t); } else { ScaleLe(128, a, t); }
  }

  /** With q the weight of the second byte, 128 * q is half the weight of the first. */
  lemma {:induction false} LeadingBits(a: Byte, b: Byte, q: nat, first: int, second: int, rest: nat)
    requires rest < q && Weighted(a, 256 * q, first) && Weighted(b, q, second)
    ensures var v := first + second + rest;
            var n := if v >= 32768 * q then v - 65536 * q else v;
            -128 * q <= n < 128 * q <==> (a == 0 && b < 128) || (a == 255 && b >= 128)
  {
  }
}
