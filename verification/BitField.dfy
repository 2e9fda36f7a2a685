/** Reading and writing one struct member in raw memory. Memory is a flat array of
    bits: byte k of a little-endian machine is bits 8k to 8k + 7, low bit first, so an
    aligned or unaligned load of s bytes is just a run of 8s bits. */
module BitField {
  import opened Wrappers
  import opened Bits

  /** What a put does: store, raise the range error, or negate the minimum of the
      machine integer type, which C leaves undefined. */
  datatype PutResult = Stored | RangeError | Undefined

  // ---- Machine words of width w, with a field of the given bits at shift -----

  function Mask(bits: nat, shift: nat, w: nat): (m: Word)
    requires bits <= w
    ensures |m| == w
  {
    if bits == w then Ones(w) else Shl(ToBits(Pow2(bits) - 1, w), shift)
  }

  /** mask ^ (mask >> 1): the field's sign bit, and possibly the bit below the field. */
  function SignMask(mask: Word): (m: Word)
    ensures |m| == |mask|
  {
    Xor(mask, Shr(mask, 1))
  }

  /** -convert(int, ((u ^ mask) >> shift) + 1); None when that negates the minimum. */
  function ComplementAndNegate(u: Word, mask: Word, shift: nat): Option<int>
    requires |u| == |mask| > 0
  {
    var c := WrapSigned(ToNat(Shr(Xor(u, mask), shift)) + 1, |u|);
    if c == -Pow2(|u| - 1) then None else Some(-c)
  }

  /** The number in a masked word, as the signed gets compute it. */
  function ReadSigned(u: Word, mask: Word, shift: nat): Option<int>
    requires |u| == |mask| > 0
  {
    if And(u, SignMask(mask)) != Zeros(|u|) then ComplementAndNegate(u, mask, shift)
    else Some(ToNat(Shr(u, shift)))
  }

  /** u is a field mask for the given bits. */
  ghost predicate Masks(mask: Word, bits: nat, shift: nat) {
    && 1 <= bits && shift + bits <= |mask|
    && forall i | 0 <= i < |mask| :: mask[i] == (shift <= i < shift + bits)
  }

  /** u has the bits v in the field and nothing else. */
  ghost predicate Holds(u: Word, v: Word, shift: nat) {
    shift + |v| <= |u| && forall i | 0 <= i < |u| :: u[i] == (shift <= i < shift + |v| && v[i - shift])
  }

  lemma {:induction false} MaskMasks(bits: nat, shift: nat, w: nat)
    requires 1 <= bits && shift + bits <= w
    ensures Masks(Mask(bits, shift, w), bits, shift)
  {
    if bits < w {
      LowMask(bits, w);
      var low := Ones(bits) + Zeros(w - bits);
      assert Mask(bits, shift, w) == Shl(low, shift);
    }
  }

  lemma {:induction false} ShiftedDown(u: Word, v: Word, shift: nat)
    requires Holds(u, v, shift)
    ensures ToNat(Shr(u, shift)) == ToNat(v)
  {
    assert Shr(u, shift) == v + Zeros(|u| - |v|);
    ToNatPadded(v, |u| - |v|);
  }

  lemma {:induction false} ComplementHolds(u: Word, v: Word, mask: Word, shift: nat)
    requires |u| == |mask| && Holds(u, v, shift) && Masks(mask, |v|, shift)
    ensures Holds(Xor(u, mask), Not(v), shift)
  {
  }

  lemma {:induction false} SignTest(u: Word, v: Word, mask: Word, shift: nat)
    requires |u| == |mask| && Holds(u, v, shift) && Masks(mask, |v|, shift)
    ensures And(u, SignMask(mask)) != Zeros(|u|) <==> v[|v| - 1]
  {
    var a, top := And(u, SignMask(mask)), shift + |v| - 1;
    assert a[top] == v[|v| - 1];
    forall i | 0 <= i < |a| && i != top ensures !a[i] {}
    if v[|v| - 1] {
      assert a[top] != Zeros(|u|)[top];
    } else {
      assert a == Zeros(|u|);
    }
  }

  lemma {:induction false} MagnitudeBounds(v: Word, w: nat)
    requires v != [] && |v| <= w && v[|v| - 1]
    ensures 1 <= Pow2(|v|) - ToNat(v) <= Pow2(|v| - 1) <= Pow2(w - 1)
    ensures Pow2(|v| - 1) == Pow2(w - 1) <==> |v| == w
  {
    TopBit(v);
    ToNatBound(v);
    Pow2Monotone(|v| - 1, w - 1);
    if |v| < w { Pow2Monotone(|v|, w - 1); }
  }

  lemma {:induction false} ReadNegative(u: Word, v: Word, mask: Word, shift: nat)
    requires |u| == |mask| && Holds(u, v, shift) && Masks(mask, |v|, shift) && v[|v| - 1]
    ensures ComplementAndNegate(u, mask, shift) ==
            if |v| == |u| && ToSigned(v) == -Pow2(|u| - 1) then None else Some(ToSigned(v))
  {
    ComplementHolds(u, v, mask, shift);
    ShiftedDown(Xor(u, mask), Not(v), shift);
    ToNatNot(v);
    MagnitudeBounds(v, |u|);
    WrapSignedKeeps(-ToSigned(v), |u|);
  }

  /** Complement, add one and negate is two's complement reading. */
  lemma {:induction false} ReadSignedMeans(u: Word, v: Word, mask: Word, shift: nat)
    requires |u| == |mask| && Holds(u, v, shift) && Masks(mask, |v|, shift)
    ensures ReadSigned(u, mask, shift) ==
            if |v| == |u| && ToSigned(v) == -Pow2(|u| - 1) then None else Some(ToSigned(v))
  {
    SignTest(u, v, mask, shift);
    if v[|v| - 1] {
      ReadNegative(u, v, mask, shift);
    } else {
      ShiftedDown(u, v, shift);
    }
  }

  // ---- Fields ---------------------------------------------------------------

  /** The part of a bitfield's type that put and get use. */
  datatype Field = Field(size: nat, shift: nat, bits: nat, signed: bool)
  {
    predicate Valid() {
      size in {1, 2, 4, 8} && 1 <= bits && shift + bits <= 8 * size
    }

    /** Types up to the size of int work in an unsigned int, larger ones in 64 bits. */
    function Width(): (w: nat)
      ensures w > 0 && (Valid() ==> shift + bits <= 8 * size <= w)
    {
      if size > 4 then 64 else 32
    }

    function FieldMask(): (m: Word)
      requires Valid()
      ensures |m| == Width() && Masks(m, bits, shift)
    {
      MaskMasks(bits, shift, Width());
      Mask(bits, shift, Width())
    }

    /** The word to merge into memory, or why there is none. */
    function Encode(n: int): (r: (PutResult, Word))
      requires Valid()
      ensures |r.1| == Width()
    {
      var w := ToBits(n, Width());
      var uput := And(Shl(w, shift), FieldMask());
      if signed then
        if WrapSigned(n, Width()) != n then (RangeError, uput) else
          match ReadSigned(uput, FieldMask(), shift)
          case None => (Undefined, uput)
          case Some(icheck) => (if icheck != n then RangeError else Stored, uput)
      else
        (if Wrap(n, Width()) != n || ToNat(Shr(uput, shift)) != n then RangeError else Stored, uput)
    }

    function Decode(word: Word): Option<int>
      requires Valid() && |word| == Width()
    {
      var uget := And(word, FieldMask());
      if signed then ReadSigned(uget, FieldMask(), shift) else Some(ToNat(Shr(uget, shift)))
    }

    /** The machine minimum, in a field as wide as the machine word. */
    predicate IsMachineMinimum(n: int) {
      signed && bits == Width() && n == -Pow2(Width() - 1)
    }

    predicate Fits(n: int)
      requires Valid()
    {
      if signed then FitsSigned(n, bits) else FitsUnsigned(n, bits)
    }

    /** The value of the field's own bits. */
    function Meaning(v: Word): int
      requires v != []
    {
      if signed then ToSigned(v) else ToNat(v)
    }
  }

  lemma {:induction false} MaskedShift(w: Word, v: Word, mask: Word, shift: nat)
    requires |w| == |mask| && Masks(mask, |v|, shift) && w[..|v|] == v
    ensures Holds(And(Shl(w, shift), mask), v, shift)
  {
    forall i | 0 <= i < |v| ensures v[i] == w[i] { assert w[..|v|][i] == w[i]; }
  }

  lemma {:induction false} EncodedBits(f: Field, n: int)
    requires f.Valid()
    ensures Holds(f.Encode(n).1, ToBits(n, f.bits), f.shift)
  {
    ToBitsPrefix(n, f.bits, f.Width());
    MaskedShift(ToBits(n, f.Width()), ToBits(n, f.bits), f.FieldMask(), f.shift);
  }

  lemma {:induction false} FitsMachine(n: int, b: nat, w: nat)
    requires 1 <= b <= w
    ensures FitsSigned(n, b) ==> FitsSigned(n, w)
    ensures FitsUnsigned(n, b) ==> FitsUnsigned(n, w)
  {
    Pow2Monotone(b, w);
    Pow2Monotone(b - 1, w - 1);
  }

  /** A put succeeds exactly on the numbers the field can hold, except that the
      full-width signed minimum is undefined; every other number raises. */
  lemma {:induction false} EncodeOutcome(f: Field, n: int)
    requires f.Valid()
    ensures f.Encode(n).0 ==
            if !f.Fits(n) then RangeError else if f.IsMachineMinimum(n) then Undefined else Stored
  {
    var v, u, m, w := ToBits(n, f.bits), f.Encode(n).1, f.FieldMask(), f.Width();
    EncodedBits(f, n);
    FitsMachine(n, f.bits, w);
    if f.signed {
      ReadSignedMeans(u, v, m, f.shift);
      WrapSignedKeeps(n, w);
      SignedRoundTrip(n, f.bits);
    } else {
      ShiftedDown(u, v, f.shift);
      WrapKeeps(n, w);
      UnsignedRoundTrip(n, f.bits);
    }
  }

  lemma {:induction false} DecodeMeans(f: Field, word: Word)
    requires f.Valid() && |word| == f.Width()
    ensures var v := word[f.shift..f.shift + f.bits];
            f.Decode(word) == if f.IsMachineMinimum(f.Meaning(v)) then None else Some(f.Meaning(v))
  {
    var v, m := word[f.shift..f.shift + f.bits], f.FieldMask();
    assert Holds(And(word, m), v, f.shift);
    if f.signed {
      ReadSignedMeans(And(word, m), v, m, f.shift);
    } else {
      ShiftedDown(And(word, m), v, f.shift);
    }
  }

  /** The machine minimum is that of int in types up to its size, and of 64 bits in others. */
  lemma {:induction false} MachineMinimumIs(f: Field, n: int)
    requires f.Valid()
    ensures f.IsMachineMinimum(n) <==>
            f.signed && ((f.size <= 4 && f.bits == 32 && n == -0x8000_0000)
                         || (f.size == 8 && f.bits == 64 && n == -0x8000_0000_0000_0000))
  {
    Pow2Values();
    assert Pow2(64) == 2 * Pow2(63);
  }

  // ---- Memory ---------------------------------------------------------------

  /** Memory with the bits v written at bit position at. */
  function Splice(m: Word, at: nat, v: Word): (r: Word)
    requires at + |v| <= |m|
    ensures |r| == |m|
    ensures forall i | 0 <= i < |m| :: r[i] == if at <= i < at + |v| then v[i - at] else m[i]
  {
    m[..at] + v + m[at + |v|..]
  }

  /** memcpy of size bytes into a cleared machine word. */
  function Load(m: Word, at: nat, f: Field): (w: Word)
    requires f.Valid() && at + 8 * f.size <= |m|
    ensures |w| == f.Width()
  {
    m[at..at + 8 * f.size] + Zeros(f.Width() - 8 * f.size)
  }

  /** field &= ~mask; field |= uput. */
  function Merge(m: Word, at: nat, f: Field, uput: Word): (w: Word)
    requires f.Valid() && at + 8 * f.size <= |m| && |uput| == f.Width()
    ensures |w| == 8 * f.size
  {
    Or(And(Load(m, at, f), Not(f.FieldMask())), uput)[..8 * f.size]
  }

  lemma {:induction false} MergedBits(m: Word, at: nat, f: Field, u: Word, v: Word)
    requires f.Valid() && at + 8 * f.size <= |m| && |v| == f.bits && |u| == f.Width() && Holds(u, v, f.shift)
    ensures forall i | 0 <= i < 8 * f.size ::
              Merge(m, at, f, u)[i] == if f.shift <= i < f.shift + f.bits then v[i - f.shift] else m[at + i]
  {
    var w, k := Load(m, at, f), f.FieldMask();
    forall i | 0 <= i < 8 * f.size
      ensures Merge(m, at, f, u)[i] == if f.shift <= i < f.shift + f.bits then v[i - f.shift] else m[at + i]
    {
      assert w[i] == m[at + i] && k[i] == (f.shift <= i < f.shift + f.bits);
      assert Merge(m, at, f, u)[i] == ((w[i] && !k[i]) || u[i]);
    }
  }

  lemma {:induction false} MergeIsSplice(m: Word, at: nat, f: Field, u: Word, v: Word)
    requires f.Valid() && at + 8 * f.size <= |m| && |v| == f.bits && |u| == f.Width() && Holds(u, v, f.shift)
    ensures Splice(m, at, Merge(m, at, f, u)) == Splice(m, at + f.shift, v)
  {
    MergedBits(m, at, f, u, v);
    var a, b := Splice(m, at, Merge(m, at, f, u)), Splice(m, at + f.shift, v);
    forall i | 0 <= i < |m| ensures a[i] == b[i] {
      if at <= i < at + 8 * f.size { assert a[i] == Merge(m, at, f, u)[i - at]; }
    }
  }

  /** The bitfield puts: load, clear the field, merge, store. */
  method PutBits(mem: array<bool>, dst: nat, f: Field, n: int) returns (r: PutResult)
    requires f.Valid() && 8 * (dst + f.size) <= mem.Length
    modifies mem
    ensures r == if !f.Fits(n) then RangeError else if f.IsMachineMinimum(n) then Undefined else Stored
    ensures r == Stored ==> mem[..] == Splice(old(mem[..]), 8 * dst + f.shift, ToBits(n, f.bits))
    ensures r != Stored ==> mem[..] == old(mem[..])
  {
    EncodeOutcome(f, n);
    EncodedBits(f, n);
    var (outcome, uput) := f.Encode(n);
    r := outcome;
    if r == Stored {
      MergeIsSplice(mem[..], 8 * dst, f, uput, ToBits(n, f.bits));
      Store(mem, 8 * dst, Merge(mem[..], 8 * dst, f, uput));
    }
  }

  method Store(mem: array<bool>, at: nat, v: Word)
    requires at + |v| <= mem.Length
    modifies mem
    ensures mem[..] == Splice(old(mem[..]), at, v)
  {
    for i := 0 to |v|
      invariant forall j | 0 <= j < mem.Length :: mem[j] == if at <= j < at + i then v[j - at] else old(mem[j])
    {
      mem[at + i] := v[i];
    }
  }

  lemma {:induction false} LoadedField(m: Word, at: nat, f: Field)
    requires f.Valid() && at + 8 * f.size <= |m|
    ensures Load(m, at, f)[f.shift..f.shift + f.bits] == m[at + f.shift..at + f.shift + f.bits]
  {
    var w := Load(m, at, f);
    assert forall i | 0 <= i < 8 * f.size :: w[i] == m[at + i];
    assert f.shift + f.bits <= 8 * f.size;
  }

  /** The bitfield gets. */
  method GetBits(mem: array<bool>, src: nat, f: Field) returns (r: Option<int>)
    requires f.Valid() && 8 * (src + f.size) <= mem.Length
    ensures var v := mem[..][8 * src + f.shift..8 * src + f.shift + f.bits];
            r == if f.IsMachineMinimum(f.Meaning(v)) then None else Some(f.Meaning(v))
  {
    var word := Load(mem[..], 8 * src, f);
    DecodeLoaded(mem[..], 8 * src, f);
    r := f.Decode(word);
  }

  lemma {:induction false} DecodeLoaded(m: Word, at: nat, f: Field)
    requires f.Valid() && at + 8 * f.size <= |m|
    ensures var v := m[at + f.shift..at + f.shift + f.bits];
            f.Decode(Load(m, at, f)) == if f.IsMachineMinimum(f.Meaning(v)) then None else Some(f.Meaning(v))
  {
    LoadedField(m, at, f);
    DecodeMeans(f, Load(m, at, f));
  }

  /** swap_get32 and swap_get64: the first byte goes to the top of the machine word, the next
      one below it, and what no byte fills is zero. */
  function SwapGet(m: Word, at: nat, size: nat, w: nat): (r: Word)
    requires at + 8 * size <= |m|
    ensures |r| == w
  {
    seq(w, b requires 0 <= b < w => (w - 1 - b) / 8 < size && m[at + 8 * ((w - 1 - b) / 8) + b % 8])
  }

  /** The integer puts (ffi_i32_put and its like): a checked store of size bytes. */
  method PutInt(mem: array<bool>, dst: nat, size: nat, signed: bool, n: int) returns (r: PutResult)
    requires size > 0 && 8 * (dst + size) <= mem.Length
    modifies mem
    ensures r == if (if signed then FitsSigned(n, 8 * size) else FitsUnsigned(n, 8 * size)) then Stored else RangeError
    ensures r == Stored ==> mem[..] == Splice(old(mem[..]), 8 * dst, ToBits(n, 8 * size))
    ensures r != Stored ==> mem[..] == old(mem[..])
  {
    if signed && !(-Pow2(8 * size - 1) <= n < Pow2(8 * size - 1)) { return RangeError; }
    if !signed && !(0 <= n < Pow2(8 * size)) { return RangeError; }
    Store(mem, 8 * dst, ToBits(n, 8 * size));
    r := Stored;
  }

  /** Bytes i and up of the run of bytes, with byte i in front. */
  lemma {:induction false} PrependByte(v: Word, i: nat)
    requires 8 * i + 8 <= |v|
    ensures ToNat(v[8 * i..]) == ToNat(v[8 * i..8 * i + 8]) + 256 * ToNat(v[8 * i + 8..])
  {
    assert v[8 * i..] == v[8 * i..8 * i + 8] + v[8 * i + 8..];
    ToNatConcat(v[8 * i..8 * i + 8], v[8 * i + 8..]);
    assert Pow2(8) == 256;
  }

  /** The load of a little-endian integer. */
  method LoadBytes(mem: array<bool>, at: nat, size: nat) returns (n: nat)
    requires at + 8 * size <= mem.Length
    ensures n == ToNat(mem[..][at..at + 8 * size])
  {
    n := 0;
    var i := size;
    ghost var v := mem[..][at..at + 8 * size];
    assert v[8 * size..] == [];
    while i > 0
      invariant 0 <= i <= size && |v| == 8 * size && n == ToNat(v[8 * i..])
    {
      i := i - 1;
      var byte := mem[at + 8 * i..at + 8 * i + 8];
      assert byte == v[8 * i..8 * i + 8];
      PrependByte(v, i);
      n := 256 * n + ToNat(byte);
    }
    assert v[0..] == v;
  }

  /** The conversion of a loaded word of w bits to the number it stands for. */
  method Convert(n: nat, w: nat, signed: bool, ghost v: Word) returns (r: int)
    requires 0 < w == |v| && n == ToNat(v)
    ensures if signed then FitsSigned(r, w) else FitsUnsigned(r, w)
    ensures ToBits(r, w) == v
  {
    TopBit(v);
    ReadBitsBack(v);
    r := if signed && n >= Pow2(w - 1) then n - Pow2(w) else n;
  }

  /** The integer gets (ffi_i32_get and its like): the one number of the type that
      PutInt would store as these bits. */
  method GetInt(mem: array<bool>, src: nat, size: nat, signed: bool) returns (n: int)
    requires size > 0 && 8 * (src + size) <= mem.Length
    ensures if signed then FitsSigned(n, 8 * size) else FitsUnsigned(n, 8 * size)
    ensures ToBits(n, 8 * size) == mem[..][8 * src..8 * (src + size)]
  {
    var at, w := 8 * src, 8 * size;
    var word := LoadBytes(mem, at, size);
    n := Convert(word, w, signed, mem[..][at..at + w]);
  }
}
