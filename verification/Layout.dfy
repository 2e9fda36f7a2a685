/** make_ffi_type_struct: where the members of a C struct go. The specification works
    on a cursor that counts bits from the start of the struct. */
module Layout {
  import opened Wrappers
  import opened Nonlinear
  import opened Bits
  import opened BitField

  /** A slot (None for padding) and its compiled type. Members can share one type object,
      which ty identifies: a type taken from another struct's member is that member's own. */
  datatype Member = Member(name: Option<string>, ty: nat, size: nat, align: nat, bitfield: bool, bits: nat,
                           signed: bool, aligned: bool, bigendian: bool, oalign: nat)
  {
    /** What ffi_type_compile guarantees: alignments are powers of two, a bitfield fits
        its type, and only an explicit align makes the alignment exceed the size. */
    predicate Valid() {
      && PowerOfTwo(align) && (oalign == 0 || PowerOfTwo(oalign))
      && (bitfield ==> size in {1, 2, 4, 8} && bits <= 8 * size && (aligned || align <= size))
    }

    predicate ZeroWidth() {
      bitfield && bits == 0
    }

    /** Bits the member occupies. */
    function Length(): nat {
      if bitfield then bits else 8 * size
    }
  }

  /** A placed member: struct smemb, with the shift that its placement calls for. */
  datatype Smemb = Smemb(m: Member, offs: nat, shift: int)

  predicate PowerOfTwo(n: nat) {
    n == 1 || (n > 1 && n % 2 == 0 && PowerOfTwo(n / 2))
  }

  lemma {:induction false} PowersDivide(a: nat, b: nat)
    requires PowerOfTwo(a) && PowerOfTwo(b) && a <= b
    ensures b % a == 0
  {
    if a > 1 {
      PowersDivide(a / 2, b / 2);
      var q := (b / 2) / (a / 2);
      assert b / 2 == (a / 2) * q;
      assert b == a * q by { Associate(2, a / 2, q); }
      RemainderUnique(b, a, q, 0);
    }
  }

  /** The least multiple of m that is at least p: (p + m - 1) & ~(m - 1), since m is a
      power of two wherever the layout uses it. */
  function RoundUp(p: nat, m: nat): (r: nat)
    requires m > 0
    ensures p <= r < p + m && r % m == 0
  {
    UnitStart(p + m - 1, m);
    p + m - 1 - (p + m - 1) % m
  }

  lemma {:induction false} PowerExponent(a: nat) returns (k: nat)
    requires PowerOfTwo(a)
    ensures a == Pow2(k)
  {
    if a == 1 { return 0; }
    k := PowerExponent(a / 2);
    k := k + 1;
  }

  /** x & ~(a - 1) clears the remainder: the masking that RoundUp stands for. */
  lemma {:induction false} ClearLowBits(x: nat, a: nat, w: nat)
    requires PowerOfTwo(a) && FitsUnsigned(x, w) && FitsUnsigned(a, w)
    ensures ToNat(And(ToBits(x, w), Not(ToBits(a - 1, w)))) == x - x % a
  {
    var k := PowerExponent(a);
    if k >= w { Pow2Monotone(w, k); assert false; }
    var b := ToBits(x, w);
    LowMask(k, w);
    assert And(b, Not(ToBits(a - 1, w))) == Zeros(k) + b[k..];
    assert b == b[..k] + b[k..];
    ToNatConcat(Zeros(k), b[k..]);
    ToNatConcat(b[..k], b[k..]);
    ToNatZeros(k);
    ToNatBound(b[..k]);
    UnsignedRoundTrip(x, w);
    RemainderUnique(x, a, ToNat(b[k..]), ToNat(b[..k]));
  }

  lemma {:induction false} MultiplesApart(a: int, b: int, m: int)
    requires m > 0 && a % m == 0 && b % m == 0 && a < b
    ensures a + m <= b
  {
    var x, y := a / m, b / m;
    assert a == x * m && b == y * m;
    if y <= x { ScaleLe(y, x, m); assert false; }
    ScaleLe(x + 1, y, m);
    Distribute(x, 1, m);
  }

  // ---- Placement -----------------------------------------------------------

  /** Members that must start at a multiple of their own alignment: plain ones,
      explicitly aligned ones, and the first bitfield after a change of byte order. */
  predicate Realigns(big: bool, m: Member) {
    !m.bitfield || m.aligned || m.bigendian != big
  }

  function Realigned(p: nat, big: bool, m: Member): (q: nat)
    requires m.Valid()
    ensures q >= p
  {
    if Realigns(big, m) then RoundUp(p, 8 * m.align) else p
  }

  /** First bit of a member when the cursor stands at p. */
  function Place(p: nat, big: bool, m: Member): (s: nat)
    requires m.Valid()
    ensures s >= p
  {
    var q := Realigned(p, big, m);
    if m.bitfield && m.bits > 0 then Fit(q, m) else q
  }

  /** A bitfield stays at q if the rest of q's storage unit has room for it, and
      otherwise opens the next unit. */
  function Fit(q: nat, m: Member): (s: nat)
    requires m.Valid()
    ensures s >= q
  {
    var unit := q - q % (8 * m.align);
    if m.bits > 8 * m.size - (q - unit) then unit + 8 * m.align else q
  }

  /** Where the cursor goes next; a zero-width bitfield only closes its storage unit. */
  function Next(p: nat, big: bool, m: Member): (r: nat)
    requires m.Valid()
    ensures r >= p
  {
    if m.ZeroWidth() then RoundUp(Realigned(p, big, m), 8 * m.size)
    else Place(p, big, m) + m.Length()
  }

  /** s lies, with the member's bits, in one storage unit that starts at a multiple of
      the member's alignment. */
  ghost predicate InUnit(m: Member, s: nat) {
    m.align > 0 && exists u: nat :: u % (8 * m.align) == 0 && u <= s && s + m.bits <= u + 8 * m.size
  }

  ghost predicate Legal(big: bool, m: Member, s: nat) {
    && m.align > 0 && (m.bitfield ==> InUnit(m, s))
    && (!m.bitfield || m.aligned || m.bigendian != big ==> s % (8 * m.align) == 0)
  }

  lemma {:induction false} NoEarlierMultiple(p: nat, m: nat)
    requires m > 0
    ensures forall s: nat | p <= s < RoundUp(p, m) :: s % m != 0
  {
    forall s: nat | p <= s < RoundUp(p, m) ensures s % m != 0 {
      if s % m == 0 { MultiplesApart(s, RoundUp(p, m), m); }
    }
  }

  /** A member goes to the first legal position at or after the cursor. */
  lemma {:induction false} PlaceIsLeast(p: nat, big: bool, m: Member)
    requires m.Valid() && !m.ZeroWidth()
    ensures Legal(big, m, Place(p, big, m))
    ensures forall s: nat | p <= s < Place(p, big, m) :: !Legal(big, m, s)
  {
    var a := 8 * m.align;
    var q, s := Realigned(p, big, m), Place(p, big, m);
    var unit := q - q % a;
    UnitStart(q, a);
    if m.bitfield {
      if s == q {
        assert unit <= s && s + m.bits <= unit + 8 * m.size;
      } else {
        assert s % a == 0 && s + m.bits <= s + 8 * m.size;
      }
    }
    if Realigns(big, m) {
      NoEarlierMultiple(p, a);
    } else {
      forall t: nat | p <= t < s ensures !InUnit(m, t) {
        forall u: nat | u % a == 0 && u <= t ensures t + m.bits > u + 8 * m.size {
          if u > unit { MultiplesApart(unit, u, a); }
        }
      }
    }
  }

  /** A zero-width bitfield moves the cursor to the first multiple of its type's size, and of
      its alignment if it has to be aligned, and no further. */
  lemma {:induction false} ZeroWidthCloses(p: nat, big: bool, m: Member)
    requires m.Valid() && m.ZeroWidth()
    ensures p <= Next(p, big, m) && Closed(big, m, Next(p, big, m))
    ensures forall s: nat | p <= s < Next(p, big, m) :: !Closed(big, m, s)
  {
    var q, r := Realigned(p, big, m), Next(p, big, m);
    NoEarlierMultiple(q, 8 * m.size);
    if Realigns(big, m) {
      NoEarlierMultiple(p, 8 * m.align);
      assert PowerOfTwo(m.size) by { SmallPowers(); }
      AlignedClose(q, m.align, m.size);
    }
  }

  ghost predicate Closed(big: bool, m: Member, s: nat) {
    && m.size > 0 && m.align > 0 && s % (8 * m.size) == 0
    && (m.aligned || m.bigendian != big ==> s % (8 * m.align) == 0)
  }

  lemma {:induction false} SmallPowers()
    ensures PowerOfTwo(1) && PowerOfTwo(2) && PowerOfTwo(4) && PowerOfTwo(8)
  {
    assert PowerOfTwo(2);
    assert PowerOfTwo(4);
  }

  lemma {:induction false} AlignedClose(q: nat, a: nat, b: nat)
    requires PowerOfTwo(a) && PowerOfTwo(b) && q % (8 * a) == 0
    ensures RoundUp(q, 8 * b) % (8 * a) == 0
  {
    var x, y := if a <= b then a else b, if a <= b then b else a;
    PowersDivide(x, y);
    Exact(y, x);
    var z := if a <= b then RoundUp(q, 8 * b) else q;
    Exact(z, 8 * y);
    Associate(8, x, y / x);
    ProductDivides(8 * x, y / x, z / (8 * y));
    if a > b { SameMultiple(q, q, 8 * b); }
  }

  lemma {:induction false} UnitStart(q: nat, a: nat)
    requires a > 0
    ensures 0 <= q - q % a && (q - q % a) % a == 0 && q < q - q % a + a
    ensures (q - q % a + a) % a == 0
    ensures q % a == 0 ==> q - q % a == q
  {
    var x := q / a;
    assert q - q % a == a * x;
    RemainderUnique(q - q % a, a, x, 0);
    Distribute(x, 1, a);
    Commute(a, x + 1);
    Commute(a, x);
    RemainderUnique(q - q % a + a, a, x + 1, 0);
  }

  // ---- The whole struct -------------------------------------------------------

  function BigAt(ms: seq<Member>, i: nat): bool
    requires i <= |ms|
  {
    if i == 0 then false else if ms[i - 1].ZeroWidth() then BigAt(ms, i - 1) else ms[i - 1].bigendian
  }

  /** The cursor before member i. */
  function CursorAt(ms: seq<Member>, i: nat): nat
    requires i <= |ms| && forall m | m in ms :: m.Valid()
  {
    if i == 0 then 0 else Next(CursorAt(ms, i - 1), BigAt(ms, i - 1), ms[i - 1])
  }

  function ShiftAt(m: Member, start: nat): int {
    if !m.bitfield then 0
    else if !m.bigendian then start % 8
    else (if m.size > 4 then 64 else 32) - start % 8 - m.bits
  }

  /** What the cursor at p makes of a member; nothing if its width is zero. */
  function PlacedAt(p: nat, big: bool, m: Member): Option<Smemb>
    requires m.Valid()
  {
    if m.ZeroWidth() then None else Some(Smemb(m, Place(p, big, m) / 8, ShiftAt(m, Place(p, big, m))))
  }

  function Placed(ms: seq<Member>, i: nat): seq<Smemb>
    requires i <= |ms| && forall m | m in ms :: m.Valid()
  {
    if i == 0 then []
    else Append(Placed(ms, i - 1), PlacedAt(CursorAt(ms, i - 1), BigAt(ms, i - 1), ms[i - 1]))
  }

  function Append(memb: seq<Smemb>, placed: Option<Smemb>): seq<Smemb> {
    if placed.Some? then memb + [placed.value] else memb
  }

  function Max(a: nat, b: nat): nat {
    if a < b then b else a
  }

  function Raised(most: nat, m: Member): nat {
    if !m.bitfield then Max(most, m.align)
    else if m.ZeroWidth() || m.name.None? then most
    else Max(Max(most, m.align), m.oalign)
  }

  function MostAlign(ms: seq<Member>, i: nat): nat
    requires i <= |ms|
  {
    if i == 0 then 1 else Raised(MostAlign(ms, i - 1), ms[i - 1])
  }

  /** First bit of a placed member in allocation order, and the bit after its last. */
  ghost function Begin(b: Smemb): int {
    if b.m.bitfield && b.m.bigendian then
      8 * b.offs + (if b.m.size > 4 then 64 else 32) - b.shift - b.m.bits
    else 8 * b.offs + b.shift
  }

  ghost function End(b: Smemb): int {
    Begin(b) + b.m.Length()
  }

  /** One placed member is where it should be. */
  ghost predicate WellPlaced(b: Smemb) {
    && b.m.Valid() && !b.m.ZeroWidth()
    && 8 * b.offs <= Begin(b) < 8 * b.offs + 8
    && (!b.m.bitfield ==> b.shift == 0 && b.offs % b.m.align == 0)
    && (b.m.bitfield ==> InUnit(b.m, Begin(b)) && Begin(b) - 8 * b.offs + b.m.bits <= 8 * b.m.size)
  }

  /** The bytes a get or put touches from the member's offset contain its bits. */
  lemma {:induction false} FieldWindow(m: Member, s: nat)
    requires InUnit(m, s)
    ensures s % 8 + m.bits <= 8 * m.size
  {
    var u: nat :| u % (8 * m.align) == 0 && u <= s && s + m.bits <= u + 8 * m.size;
    ByteMultiple(u, m.align);
  }

  lemma {:induction false} BeginIsStart(m: Member, s: nat)
    ensures Begin(Smemb(m, s / 8, ShiftAt(m, s))) == if m.bitfield then s else s - s % 8
  {
  }

  lemma {:induction false} PlacedOne(p: nat, big: bool, m: Member)
    requires m.Valid() && !m.ZeroWidth()
    ensures var s := Place(p, big, m); var b := Smemb(m, s / 8, ShiftAt(m, s));
            WellPlaced(b) && Begin(b) == s
  {
    var s := Place(p, big, m);
    PlaceIsLeast(p, big, m);
    BeginIsStart(m, s);
    if m.bitfield {
      FieldWindow(m, s);
    } else {
      ByteMultiple(s, m.align);
    }
  }

  lemma {:induction false} ByteMultiple(s: nat, a: nat)
    requires a > 0 && s % (8 * a) == 0
    ensures s % 8 == 0 && (s / 8) % a == 0
  {
    ScaledRemainder(s / 8, s % 8, a);
  }

  /** Remainders in bits and in bytes. */
  lemma {:induction false} ScaledRemainder(x: nat, b: nat, a: nat)
    requires a > 0 && b < 8
    ensures (8 * x + b) % (8 * a) == 8 * (x % a) + b
  {
    Associate(8, a, x / a);
    RemainderUnique(8 * x + b, 8 * a, x / a, 8 * (x % a) + b);
  }

  /** Members are placed well, in order, without overlap, and before the cursor. */
  lemma {:induction false} LayoutSound(ms: seq<Member>, i: nat)
    requires i <= |ms| && forall m | m in ms :: m.Valid()
    ensures forall b | b in Placed(ms, i) :: WellPlaced(b) && End(b) <= CursorAt(ms, i)
    ensures forall j, k | 0 <= j < k < |Placed(ms, i)| :: End(Placed(ms, i)[j]) <= Begin(Placed(ms, i)[k])
  {
    if i > 0 {
      LayoutSound(ms, i - 1);
      var m := ms[i - 1];
      if !m.ZeroWidth() { PlacedOne(CursorAt(ms, i - 1), BigAt(ms, i - 1), m); }
    }
  }

  /** The byte order that a member is compared with is that of the last member of nonzero width
      before it, and little-endian at the start. */
  lemma {:induction false} OrderBefore(ms: seq<Member>, i: nat, j: nat)
    requires j <= i <= |ms| && forall h | j <= h < i :: ms[h].ZeroWidth()
    ensures j == 0 ==> !BigAt(ms, i)
    ensures j > 0 && !ms[j - 1].ZeroWidth() ==> BigAt(ms, i) == ms[j - 1].bigendian
  {
    if i > j { OrderBefore(ms, i - 1, j); }
  }

  /** The cursor is at the end of the member placed last, so that each member goes to the first
      legal position after the one before it. */
  lemma {:induction false} PlacedNext(ms: seq<Member>, i: nat)
    requires i < |ms| && (forall m | m in ms :: m.Valid()) && !ms[i].ZeroWidth()
    ensures CursorAt(ms, 0) == 0
    ensures var memb, p := Placed(ms, i + 1), CursorAt(ms, i);
            && |memb| == |Placed(ms, i)| + 1 && memb[..|memb| - 1] == Placed(ms, i) && memb[|memb| - 1].m == ms[i]
            && Begin(memb[|memb| - 1]) >= p && Legal(BigAt(ms, i), ms[i], Begin(memb[|memb| - 1]))
            && (forall s: nat | p <= s < Begin(memb[|memb| - 1]) :: !Legal(BigAt(ms, i), ms[i], s))
            && CursorAt(ms, i + 1) == End(memb[|memb| - 1])
  {
    PlacedOne(CursorAt(ms, i), BigAt(ms, i), ms[i]);
    PlaceIsLeast(CursorAt(ms, i), BigAt(ms, i), ms[i]);
  }

  /** Bit k of a big-endian field, from its start in allocation order, which takes the bits of
      every byte from the top, is bit k from the top of the field that the shift selects in the
      swapped machine word. */
  lemma {:induction false} BigEndianShift(m: Member, s: nat, mem: Word, k: nat)
    requires m.Valid() && m.bitfield && m.bigendian && s % 8 + m.bits <= 8 * m.size && k < m.bits
    requires 8 * (s / 8 + m.size) <= |mem|
    ensures var w := if m.size > 4 then 64 else 32;
            && 0 <= ShiftAt(m, s) && ShiftAt(m, s) + m.bits <= w
            && SwapGet(mem, 8 * (s / 8), m.size, w)[ShiftAt(m, s) + m.bits - 1 - k] ==
               mem[8 * ((s + k) / 8) + 7 - (s + k) % 8]
  {
    SwappedBit(s, k, if m.size > 4 then 64 else 32);
  }

  lemma {:induction false} SwappedBit(s: nat, k: nat, w: nat)
    requires w == 32 || w == 64
    ensures var j := s % 8 + k; 8 * ((s + k) / 8) == 8 * (s / 8) + 8 * (j / 8) && (s + k) % 8 == j % 8
    ensures var j := s % 8 + k; j < w ==> (w - 1 - j) % 8 == 7 - j % 8
  {
  }

  /** What may raise the struct's alignment: that of a plain member, and of a named bitfield of
      nonzero width, together with the one that was asked for it. */
  ghost predicate Contributes(m: Member, a: nat) {
    || (!m.bitfield && a == m.align)
    || (m.bitfield && m.bits > 0 && m.name.Some? && (a == m.align || a == m.oalign))
  }

  /** The struct's alignment is the greatest of these, and 1 if there are none. */
  lemma {:induction false} MostAlignIs(ms: seq<Member>, i: nat)
    requires i <= |ms|
    ensures MostAlign(ms, i) == 1 || exists j :: 0 <= j < i && Contributes(ms[j], MostAlign(ms, i))
    ensures MostAlign(ms, i) >= 1 && forall j, a: nat | 0 <= j < i && Contributes(ms[j], a) :: a <= MostAlign(ms, i)
  {
    if i > 0 {
      MostAlignIs(ms, i - 1);
      if MostAlign(ms, i) != MostAlign(ms, i - 1) { assert Contributes(ms[i - 1], MostAlign(ms, i)); }
    }
  }

  lemma {:induction false} MostAlignSound(ms: seq<Member>, i: nat)
    requires i <= |ms| && forall m | m in ms :: m.Valid()
    ensures PowerOfTwo(MostAlign(ms, i))
    ensures forall b | b in Placed(ms, i) :: b.m.Valid() && (!b.m.bitfield || b.m.name.Some? ==>
              MostAlign(ms, i) % b.m.align == 0)
  {
    if i > 0 {
      MostAlignSound(ms, i - 1);
      var a, b, m := MostAlign(ms, i - 1), MostAlign(ms, i), ms[i - 1];
      assert m.Valid();
      assert PowerOfTwo(b);
      forall c | c in Placed(ms, i) ensures c.m.Valid() && (!c.m.bitfield || c.m.name.Some? ==> b % c.m.align == 0) {
        if c.m.bitfield && c.m.name.None? {
        } else if c in Placed(ms, i - 1) {
          DividesLarger(a, b, c.m.align);
        } else {
          PowersDivide(c.m.align, b);
        }
      }
    }
  }

  lemma {:induction false} DividesLarger(a: nat, b: nat, d: nat)
    requires PowerOfTwo(a) && PowerOfTwo(b) && a <= b && d > 0 && a % d == 0
    ensures b % d == 0
  {
    PowersDivide(a, b);
    Exact(b, a);
    Exact(a, d);
    ProductDivides(d, a / d, b / a);
  }

  lemma {:induction false} Exact(a: nat, d: nat)
    requires d > 0 && a % d == 0
    ensures a == d * (a / d)
  {
  }

  lemma {:induction false} ProductDivides(d: nat, x: nat, y: nat)
    requires d > 0
    ensures ((d * x) * y) % d == 0
  {
    Associate(d, x, y);
    RemainderUnique((d * x) * y, d, x * y, 0);
  }

  /** Bytes that contain the first p bits. */
  function Bytes(p: nat): nat {
    (p + 7) / 8
  }

  function ByteSize(ms: seq<Member>): nat
    requires forall m | m in ms :: m.Valid()
  {
    MostAlignSound(ms, |ms|);
    RoundUp(Bytes(CursorAt(ms, |ms|)), MostAlign(ms, |ms|))
  }

  /** The size is the least multiple of the struct's alignment that covers every member. */
  lemma {:induction false} SizeCovers(ms: seq<Member>)
    requires forall m | m in ms :: m.Valid()
    ensures MostAlign(ms, |ms|) > 0 && ByteSize(ms) % MostAlign(ms, |ms|) == 0
    ensures forall b | b in Placed(ms, |ms|) :: End(b) <= 8 * ByteSize(ms)
    ensures forall t: nat | t % MostAlign(ms, |ms|) == 0 && CursorAt(ms, |ms|) <= 8 * t :: ByteSize(ms) <= t
  {
    MostAlignSound(ms, |ms|);
    LayoutSound(ms, |ms|);
    NoEarlierMultiple(Bytes(CursorAt(ms, |ms|)), MostAlign(ms, |ms|));
  }

  // ---- The layout loop ---------------------------------------------------------

  /** offs and bit_offs describe the bit cursor p. */
  predicate At(offs: nat, bitOffs: nat, p: nat) {
    bitOffs < 8 && p == 8 * offs + bitOffs
  }

  lemma {:induction false} AlignedCursor(offs: nat, bitOffs: nat, align: nat)
    requires align > 0 && bitOffs < 8
    ensures 8 * RoundUp(if bitOffs > 0 then offs + 1 else offs, align) == RoundUp(8 * offs + bitOffs, 8 * align)
  {
    var o := if bitOffs > 0 then offs + 1 else offs;
    ScaledRemainder(RoundUp(o, align), 0, align);
    SameMultiple(8 * RoundUp(o, align), 8 * offs + bitOffs, 8 * align);
  }

  /** RoundUp is the only multiple in its range. */
  lemma {:induction false} SameMultiple(r: nat, p: nat, m: nat)
    requires m > 0 && r % m == 0 && p <= r < p + m
    ensures r == RoundUp(p, m)
  {
    var s := RoundUp(p, m);
    if r < s { MultiplesApart(r, s, m); }
    if s < r { MultiplesApart(s, r, m); }
  }

  lemma {:induction false} UnitCursor(offs: nat, bitOffs: nat, align: nat)
    requires align > 0 && bitOffs < 8
    ensures var p := 8 * offs + bitOffs; 8 * (offs - offs % align) == p - p % (8 * align)
    ensures 8 * (offs % align) + bitOffs < 8 * align
  {
    ScaledRemainder(offs, bitOffs, align);
  }

  method Realign(offs: nat, bitOffs: nat, big: bool, m: Member, ghost p: nat) returns (offs': nat, bitOffs': nat)
    requires m.Valid() && At(offs, bitOffs, p)
    ensures At(offs', bitOffs', Realigned(p, big, m))
    ensures Realigns(big, m) ==> offs' % m.align == 0 && bitOffs' == 0
  {
    offs', bitOffs' := offs, bitOffs;
    if !m.bitfield || m.aligned || m.bigendian != big {
      if bitOffs' > 0 { offs' := offs' + 1; }
      offs' := RoundUp(offs', m.align);
      bitOffs' := 0;
      AlignedCursor(offs, bitOffs, m.align);
    }
  }

  /** The second bug_unless: the cursor is inside the storage unit. */
  method CheckUnit(offs: nat, bitOffs: nat, m: Member)
    requires m.Valid() && m.bitfield && bitOffs < 8 && (m.aligned ==> offs % m.align == 0 && bitOffs == 0)
  {
    UnitCursor(offs, bitOffs, m.align);
    var unitOffs := offs - offs % m.align;
    var bitsAlloc := 8 * (offs - unitOffs) + bitOffs;
    assert 8 * m.size >= bitsAlloc;
  }

  /** The part of the loop body for a bitfield, after realignment to q. */
  method PlaceBits(offs: nat, bitOffs: nat, m: Member, ghost q: nat) returns (offs': nat, bitOffs': nat)
    requires m.Valid() && m.bitfield && m.bits > 0 && At(offs, bitOffs, q)
    requires m.aligned ==> offs % m.align == 0 && bitOffs == 0
    ensures At(offs', bitOffs', Fit(q, m))
  {
    UnitCursor(offs, bitOffs, m.align);
    var unitOffs := offs - offs % m.align;
    var bitsAlloc := 8 * (offs - unitOffs) + bitOffs;
    var room := 8 * m.size - bitsAlloc;
    offs', bitOffs' := offs, bitOffs;
    if m.bits > room {
      offs', bitOffs' := unitOffs + m.align, 0;
    }
  }

  /** The part of the loop body for a zero-width bitfield. */
  method CloseUnit(offs: nat, bitOffs: nat, size: nat, ghost q: nat) returns (offs': nat)
    requires size > 0 && At(offs, bitOffs, q)
    ensures 8 * offs' == RoundUp(q, 8 * size)
  {
    var unitOffs := offs - offs % size;
    offs' := offs;
    if offs != unitOffs || bitOffs > 0 { offs' := unitOffs + size; }
    UnitStart(offs, size);
    ScaledRemainder(offs', 0, size);
    SameMultiple(8 * offs', q, 8 * size);
  }

  /** A nonempty bitfield: find its place, set its shift, move past it. */
  method PlaceField(offs: nat, bitOffs: nat, m: Member, ghost q: nat)
    returns (offs': nat, bitOffs': nat, placed: Smemb)
    requires m.Valid() && m.bitfield && m.bits > 0 && At(offs, bitOffs, q)
    requires m.aligned ==> offs % m.align == 0 && bitOffs == 0
    ensures At(offs', bitOffs', Fit(q, m) + m.bits)
    ensures placed == Smemb(m, Fit(q, m) / 8, ShiftAt(m, Fit(q, m)))
  {
    ghost var s := Fit(q, m);
    offs', bitOffs' := PlaceBits(offs, bitOffs, m, q);
    placed := Shifted(offs', bitOffs', m, s);
    bitOffs' := bitOffs' + m.bits;
    offs' := offs' + bitOffs' / 8;
    bitOffs' := bitOffs' % 8;
  }

  method Shifted(offs: nat, bitOffs: nat, m: Member, ghost s: nat) returns (placed: Smemb)
    requires m.bitfield && At(offs, bitOffs, s)
    ensures placed == Smemb(m, s / 8, ShiftAt(m, s))
  {
    var shift := if !m.bigendian then bitOffs else (if m.size > 4 then 64 else 32) - bitOffs - m.bits;
    placed := Smemb(m, offs, shift);
  }

  /** The loop body: the new cursor, and the placed member unless its width is zero. */
  method PlaceMember(offs: nat, bitOffs: nat, big: bool, m: Member, ghost p: nat)
    returns (offs': nat, bitOffs': nat, placed: Option<Smemb>)
    requires m.Valid() && At(offs, bitOffs, p)
    ensures At(offs', bitOffs', Next(p, big, m))
    ensures placed == PlacedAt(p, big, m)
  {
    ghost var q := Realigned(p, big, m);
    assert bitOffs < 8;  // the first bug_unless
    offs', bitOffs' := Realign(offs, bitOffs, big, m, p);
    if m.bitfield { CheckUnit(offs', bitOffs', m); }
    if m.bitfield && m.bits == 0 {
      offs' := CloseUnit(offs', bitOffs', m.size, q);
      bitOffs', placed := 0, None;
    } else if m.bitfield {
      var b;
      offs', bitOffs', b := PlaceField(offs', bitOffs', m, q);
      placed := Some(b);
    } else {
      placed := Some(Smemb(m, offs', 0));
      offs' := offs' + m.size;
    }
  }

  method RaiseAlign(most: nat, m: Member) returns (most': nat)
    requires !m.ZeroWidth()
    ensures most' == Raised(most, m)
  {
    most' := most;
    if !m.bitfield || m.name.Some? {
      if m.align > most' { most' := m.align; }
      if m.bitfield && m.oalign > most' { most' := m.oalign; }
    }
  }

  /** One round of the loop, in terms of the specification. */
  lemma {:induction false} Round(ms: seq<Member>, i: nat)
    requires i < |ms| && forall m | m in ms :: m.Valid()
    ensures CursorAt(ms, i + 1) == Next(CursorAt(ms, i), BigAt(ms, i), ms[i])
    ensures BigAt(ms, i + 1) == if ms[i].ZeroWidth() then BigAt(ms, i) else ms[i].bigendian
    ensures Placed(ms, i + 1) == Append(Placed(ms, i), PlacedAt(CursorAt(ms, i), BigAt(ms, i), ms[i]))
    ensures MostAlign(ms, i + 1) == if ms[i].ZeroWidth() then MostAlign(ms, i) else Raised(MostAlign(ms, i), ms[i])
  {
  }

  /** The shifts that type objects hold: placing a bitfield writes its shift into its type. */
  type Types = map<nat, int>

  function WriteShift(types: Types, b: Smemb): Types {
    if b.m.bitfield then types[b.m.ty := b.shift] else types
  }

  function TypesAfter(types: Types, memb: seq<Smemb>): Types {
    if memb == [] then types else WriteShift(TypesAfter(types, memb[..|memb| - 1]), memb[|memb| - 1])
  }

  /** The variables of the layout loop. */
  datatype Loop = Loop(memb: seq<Smemb>, offs: nat, bitOffs: nat, align: nat, big: bool, types: Types)

  /** They are as they should be after i members. */
  predicate LaidOut(ms: seq<Member>, types: Types, i: nat, l: Loop)
    requires i <= |ms| && forall m | m in ms :: m.Valid()
  {
    && l.memb == Placed(ms, i) && l.align == MostAlign(ms, i) && l.big == BigAt(ms, i)
    && At(l.offs, l.bitOffs, CursorAt(ms, i)) && l.types == TypesAfter(types, l.memb)
  }

  /** One round of the loop. */
  method PlaceNext(ms: seq<Member>, ghost types: Types, i: nat, l: Loop) returns (l': Loop)
    requires i < |ms| && (forall m | m in ms :: m.Valid()) && LaidOut(ms, types, i, l)
    ensures LaidOut(ms, types, i + 1, l')
  {
    var m := ms[i];
    ghost var p := CursorAt(ms, i);
    var offs, bitOffs, placed := PlaceMember(l.offs, l.bitOffs, l.big, m, p);
    Round(ms, i);
    if placed.None? {
      l' := Loop(l.memb, offs, bitOffs, l.align, l.big, l.types);
    } else {
      var align := RaiseAlign(l.align, m);
      var b := placed.value;
      WriteAnother(types, l.memb, b);
      l' := Loop(l.memb + [b], offs, bitOffs, align, m.bigendian, WriteShift(l.types, b));
    }
  }

  lemma {:induction false} WriteAnother(types: Types, memb: seq<Smemb>, b: Smemb)
    ensures TypesAfter(types, memb + [b]) == WriteShift(TypesAfter(types, memb), b)
  {
    assert (memb + [b])[..|memb|] == memb;
  }

  /** make_ffi_type_struct's loop over the members. */
  method PlaceAll(ms: seq<Member>, types: Types) returns (l: Loop)
    requires forall m | m in ms :: m.Valid()
    ensures LaidOut(ms, types, |ms|, l)
  {
    l := Loop([], 0, 0, 1, false, types);
    for i := 0 to |ms|
      invariant LaidOut(ms, types, i, l)
    {
      l := PlaceNext(ms, types, i, l);
    }
  }

  datatype Struct = Struct(memb: seq<Smemb>, size: nat, align: nat)

  function LayoutOf(ms: seq<Member>): Struct
    requires forall m | m in ms :: m.Valid()
  {
    Struct(Placed(ms, |ms|), ByteSize(ms), MostAlign(ms, |ms|))
  }

  /** make_ffi_type_struct: placed members, size and alignment, and what has become of the
      member types. */
  method MakeStruct(ms: seq<Member>, types: Types) returns (t: Struct, types': Types)
    requires forall m | m in ms :: m.Valid()
    ensures t == LayoutOf(ms) && types' == TypesAfter(types, t.memb)
  {
    var l := PlaceAll(ms, types);
    types' := l.types;
    var offs := if l.bitOffs > 0 then l.offs + 1 else l.offs;
    assert offs == Bytes(CursorAt(ms, |ms|));
    MostAlignSound(ms, |ms|);
    t := Struct(l.memb, RoundUp(offs, l.align), l.align);
  }

  // ---- An example -----------------------------------------------------------------------

  predicate IsChar(m: Member) {
    !m.bitfield && m.size == 1 && m.align == 1 && m.oalign == 0 && !m.bigendian
  }

  predicate IsShort(m: Member) {
    !m.bitfield && m.size == 2 && m.align == 2 && m.oalign == 0 && !m.bigendian
  }

  /** A named field of three bits in an unsigned int. */
  predicate IsThreeBits(m: Member) {
    && m.bitfield && m.bits == 3 && m.size == 4 && m.align == 4 && m.oalign == 0 && !m.aligned && !m.bigendian
    && m.name.Some?
  }

  /** A char, three bits of an unsigned int, and a short: at byte 0, at bit 0 of byte 1, and at
      byte 2, in a struct of 4 bytes aligned to 4. */
  lemma {:induction false} LayoutExample(ms: seq<Member>)
    requires |ms| == 3 && IsChar(ms[0]) && IsThreeBits(ms[1]) && IsShort(ms[2])
    ensures forall m | m in ms :: m.Valid()
    ensures LayoutOf(ms) == Struct([Smemb(ms[0], 0, 0), Smemb(ms[1], 1, 0), Smemb(ms[2], 2, 0)], 4, 4)
  {
    StandsFirst(ms);
    StandsChar(ms);
    StandsBits(ms, 1, Smemb(ms[0], 0, 0));
    StandsShort(ms, 2, Smemb(ms[0], 0, 0), Smemb(ms[1], 1, 0));
    LayoutIs(ms, 32, [Smemb(ms[0], 0, 0), Smemb(ms[1], 1, 0), Smemb(ms[2], 2, 0)], 4, 4);
  }

  /** The char alone, in a struct of 1 byte aligned to 1. */
  lemma {:induction false} CharExample(ms: seq<Member>)
    requires |ms| == 1 && IsChar(ms[0])
    ensures forall m | m in ms :: m.Valid()
    ensures LayoutOf(ms) == Struct([Smemb(ms[0], 0, 0)], 1, 1)
  {
    StandsFirst(ms);
    StandsChar(ms);
    LayoutIs(ms, 8, [Smemb(ms[0], 0, 0)], 1, 1);
  }

  /** The loop's state before member i, in little-endian order. */
  ghost predicate Stands(ms: seq<Member>, i: nat, p: nat, memb: seq<Smemb>, align: nat) {
    && i <= |ms| && (forall m | m in ms :: m.Valid()) && !BigAt(ms, i)
    && CursorAt(ms, i) == p && Placed(ms, i) == memb && MostAlign(ms, i) == align
  }

  lemma {:induction false} StandsFirst(ms: seq<Member>)
    requires 1 <= |ms| <= 3 && IsChar(ms[0])
    requires (|ms| > 1 ==> IsThreeBits(ms[1])) && (|ms| > 2 ==> IsShort(ms[2]))
    ensures Stands(ms, 0, 0, [], 1)
  {
    SmallPowers();
  }

  lemma {:induction false} StandsChar(ms: seq<Member>)
    requires Stands(ms, 0, 0, [], 1) && |ms| > 0 && IsChar(ms[0])
    ensures Stands(ms, 1, 8, [Smemb(ms[0], 0, 0)], 1)
  {
  }

  lemma {:induction false} StandsBits(ms: seq<Member>, i: nat, c: Smemb)
    requires Stands(ms, i, 8, [c], 1) && i < |ms| && IsThreeBits(ms[i])
    ensures Stands(ms, i + 1, 11, [c, Smemb(ms[i], 1, 0)], 4)
  {
    BitsPlace(ms[i]);
  }

  lemma {:induction false} BitsPlace(m: Member)
    requires IsThreeBits(m) && m.Valid()
    ensures Next(8, false, m) == 11 && PlacedAt(8, false, m) == Some(Smemb(m, 1, 0)) && Raised(1, m) == 4
  {
    assert 8 * m.align == 32 && 8 * m.size == 32;
    assert Fit(8, m) == 8;
  }

  lemma {:induction false} StandsShort(ms: seq<Member>, i: nat, c: Smemb, b: Smemb)
    requires Stands(ms, i, 11, [c, b], 4) && i < |ms| && IsShort(ms[i])
    ensures Stands(ms, i + 1, 32, [c, b, Smemb(ms[i], 2, 0)], 4)
  {
    ShortPlace(ms[i]);
  }

  lemma {:induction false} ShortPlace(m: Member)
    requires IsShort(m) && m.Valid()
    ensures Next(11, false, m) == 32 && PlacedAt(11, false, m) == Some(Smemb(m, 2, 0)) && Raised(4, m) == 4
  {
    assert RoundUp(11, 16) == 16;
  }

  lemma {:induction false} LayoutIs(ms: seq<Member>, p: nat, memb: seq<Smemb>, align: nat, size: nat)
    requires align > 0 && Stands(ms, |ms|, p, memb, align) && size % align == 0 && 8 * size == p
    ensures LayoutOf(ms) == Struct(memb, size, align)
  {
    assert Bytes(p) == size;
    SameMultiple(size, size, align);
    assert ByteSize(ms) == size;
  }
}
