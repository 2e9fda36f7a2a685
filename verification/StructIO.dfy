/** ffi_struct_put and ffi_struct_get over a laid-out struct in little-endian memory: when
    no member disturbs another, and when every slot comes back. */
module StructIO {
  import opened Wrappers
  import opened Bits
  import opened BitField
  import opened Layout

  /** Members whose slots hold integers of the machine's own byte order. */
  predicate Readable(m: Member) {
    m.Valid() && !m.bigendian && m.size in {1, 2, 4, 8}
  }

  function FieldOf(b: Smemb): Field
    requires b.shift >= 0
  {
    Field(b.m.size, b.shift, b.m.bits, b.m.signed)
  }

  /** The member's storage, and its bits within that, are inside memory when the struct
      starts at byte dst. Nothing relates the shift to the member's place. */
  ghost predicate Reachable(b: Smemb, dst: nat, memory: nat) {
    && Readable(b.m) && !b.m.ZeroWidth() && 8 * (dst + b.offs + b.m.size) <= memory
    && (if b.m.bitfield then 0 <= b.shift && b.shift + b.m.bits <= 8 * b.m.size else b.shift == 0)
  }

  ghost predicate AllReachable(memb: seq<Smemb>, dst: nat, memory: nat) {
    forall b | b in memb :: Reachable(b, dst, memory)
  }

  ghost function First(b: Smemb, dst: nat): int {
    8 * dst + Begin(b)
  }

  /** The member's own bits. */
  ghost function Slice(m: Word, b: Smemb, dst: nat): (v: Word)
    requires 0 <= First(b, dst) && First(b, dst) + b.m.Length() <= |m|
    ensures |v| == b.m.Length()
  {
    m[First(b, dst)..First(b, dst) + b.m.Length()]
  }

  lemma {:induction false} ReachableWindow(b: Smemb, dst: nat, memory: nat)
    requires Reachable(b, dst, memory)
    ensures b.shift >= 0 && First(b, dst) == 8 * (dst + b.offs) + b.shift
    ensures 0 <= First(b, dst) && First(b, dst) + b.m.Length() <= memory
    ensures b.m.Length() > 0 && (b.m.bitfield ==> FieldOf(b).Valid())
    ensures !b.m.bitfield ==> b.m.Length() == 8 * b.m.size
  {
  }

  /** Numbers that a member stores and gives back. */
  predicate Storable(m: Member, n: int) {
    && m.Valid() && !m.ZeroWidth() && m.size > 0
    && (if m.signed then FitsSigned(n, m.Length()) else FitsUnsigned(n, m.Length()))
    && !Field(m.size, 0, m.bits, m.bitfield && m.signed).IsMachineMinimum(n)
  }

  /** They are the integers of the member's width and sign, but for the machine's minimum in a
      bitfield of the machine's width. */
  lemma {:induction false} StorableIs(m: Member, n: int)
    requires m.Valid() && Readable(m) && !m.ZeroWidth()
    ensures var w := if m.bitfield then m.bits else 8 * m.size;
            && w > 0
            && (Storable(m, n) <==>
                  && (if m.signed then -Pow2(w - 1) <= n < Pow2(w - 1) else 0 <= n < Pow2(w))
                  && !(m.bitfield && m.signed && w == (if m.size > 4 then 64 else 32) && n == -Pow2(w - 1)))
  {
  }

  lemma {:induction false} FieldStorable(b: Smemb, n: int)
    requires b.m.Valid() && b.m.bitfield && b.m.size > 0 && b.shift >= 0 && FieldOf(b).Valid()
    ensures Storable(b.m, n) <==> FieldOf(b).Fits(n) && !FieldOf(b).IsMachineMinimum(n)
  {
  }

  lemma {:induction false} IntStorable(m: Member, n: int)
    requires m.Valid() && !m.bitfield && m.size > 0
    ensures Storable(m, n) <==> if m.signed then FitsSigned(n, 8 * m.size) else FitsUnsigned(n, 8 * m.size)
  {
  }

  /** The slot value that the bits v stand for. */
  function Reading(m: Member, v: Word): Option<int> {
    if v == [] then None
    else
      var f := Field(m.size, 0, m.bits, m.signed);
      if m.bitfield && f.IsMachineMinimum(f.Meaning(v)) then None else Some(f.Meaning(v))
  }

  /** The number that an integer get finds. */
  lemma {:induction false} GotReading(m: Member, v: Word, n: int)
    requires !m.bitfield && v != [] && ToBits(n, |v|) == v
    requires if m.signed then FitsSigned(n, |v|) else FitsUnsigned(n, |v|)
    ensures Reading(m, v) == Some(n)
  {
    SignedRoundTrip(n, |v|);
    UnsignedRoundTrip(n, |v|);
  }

  method PutFieldMember(mem: array<bool>, dst: nat, b: Smemb, n: int) returns (r: PutResult)
    requires Reachable(b, dst, mem.Length) && b.m.bitfield
    modifies mem
    ensures r == Stored <==> Storable(b.m, n)
    ensures First(b, dst) >= 0 && First(b, dst) + b.m.Length() <= mem.Length
    ensures r == Stored ==> mem[..] == Splice(old(mem[..]), First(b, dst), ToBits(n, b.m.Length()))
    ensures r != Stored ==> mem[..] == old(mem[..])
  {
    ReachableWindow(b, dst, mem.Length);
    FieldStorable(b, n);
    r := PutBits(mem, dst + b.offs, FieldOf(b), n);
  }

  method PutIntMember(mem: array<bool>, dst: nat, b: Smemb, n: int) returns (r: PutResult)
    requires Reachable(b, dst, mem.Length) && !b.m.bitfield
    modifies mem
    ensures r == Stored <==> Storable(b.m, n)
    ensures First(b, dst) >= 0 && First(b, dst) + b.m.Length() <= mem.Length
    ensures r == Stored ==> mem[..] == Splice(old(mem[..]), First(b, dst), ToBits(n, b.m.Length()))
    ensures r != Stored ==> mem[..] == old(mem[..])
  {
    ReachableWindow(b, dst, mem.Length);
    IntStorable(b.m, n);
    r := PutInt(mem, dst + b.offs, b.m.size, b.m.signed, n);
  }

  /** mtft->put on one member. */
  method PutMember(mem: array<bool>, dst: nat, b: Smemb, n: int) returns (r: PutResult)
    requires Reachable(b, dst, mem.Length)
    modifies mem
    ensures r == Stored <==> Storable(b.m, n)
    ensures First(b, dst) >= 0 && First(b, dst) + b.m.Length() <= mem.Length
    ensures r == Stored ==> mem[..] == Splice(old(mem[..]), First(b, dst), ToBits(n, b.m.Length()))
    ensures r != Stored ==> mem[..] == old(mem[..])
  {
    if b.m.bitfield { r := PutFieldMember(mem, dst, b, n); }
    else { r := PutIntMember(mem, dst, b, n); }
  }

  /** mtft->get on one member; None where the get negates the machine minimum. */
  method GetMember(mem: array<bool>, src: nat, b: Smemb) returns (r: Option<int>)
    requires Reachable(b, src, mem.Length)
    ensures First(b, src) >= 0 && First(b, src) + b.m.Length() <= mem.Length
    ensures r == Reading(b.m, Slice(mem[..], b, src))
  {
    ReachableWindow(b, src, mem.Length);
    if b.m.bitfield {
      r := GetBits(mem, src + b.offs, FieldOf(b));
    } else {
      var n := GetInt(mem, src + b.offs, b.m.size, b.m.signed);
      GotReading(b.m, Slice(mem[..], b, src), n);
      r := Some(n);
    }
  }

  /** What was stored is what is read. */
  lemma {:induction false} StoredReading(m: Member, n: int)
    requires Storable(m, n)
    ensures Reading(m, ToBits(n, m.Length())) == Some(n)
  {
    SignedRoundTrip(n, m.Length());
    UnsignedRoundTrip(n, m.Length());
  }

  /** And what is read would be stored as the same bits. */
  lemma {:induction false} ReadingStored(m: Member, v: Word, n: int)
    requires m.Valid() && m.size > 0 && v != [] && |v| == m.Length() && Reading(m, v) == Some(n)
    ensures Storable(m, n) && ToBits(n, m.Length()) == v
  {
    ReadingIs(m, v, n);
    ReadBitsBack(v);
  }

  lemma {:induction false} ReadingIs(m: Member, v: Word, n: int)
    requires v != [] && Reading(m, v) == Some(n)
    ensures n == if m.signed then ToSigned(v) else ToNat(v)
    ensures !Field(m.size, 0, m.bits, m.bitfield && m.signed).IsMachineMinimum(n)
  {
  }

  ghost predicate Disjoint(b: Smemb, c: Smemb) {
    End(b) <= Begin(c) || End(c) <= Begin(b)
  }

  /** No two named members have a bit in common. */
  ghost predicate Apart(memb: seq<Smemb>) {
    forall j, k | 0 <= j < k < |memb| && memb[j].m.name.Some? && memb[k].m.name.Some? :: Disjoint(memb[j], memb[k])
  }

  /** Writing one member leaves the bits of every disjoint member alone. */
  lemma {:induction false} SpliceElsewhere(m: Word, b: Smemb, v: Word, c: Smemb, dst: nat)
    requires Disjoint(b, c) && |v| == b.m.Length()
    requires 0 <= First(b, dst) && First(b, dst) + b.m.Length() <= |m|
    requires 0 <= First(c, dst) && First(c, dst) + c.m.Length() <= |m|
    ensures Slice(Splice(m, First(b, dst), v), c, dst) == Slice(m, c, dst)
  {
  }

  lemma {:induction false} SpliceHere(m: Word, b: Smemb, v: Word, dst: nat)
    requires |v| == b.m.Length()
    requires 0 <= First(b, dst) && First(b, dst) + b.m.Length() <= |m|
    ensures Slice(Splice(m, First(b, dst), v), b, dst) == v
  {
  }

  /** Non-interference: putting one member, successfully or not, leaves what is read
      from every disjoint one unchanged. */
  method PutLeavesOthers(mem: array<bool>, dst: nat, b: Smemb, c: Smemb, n: int)
    returns (before: Option<int>, after: Option<int>, own: Option<int>, r: PutResult)
    requires Reachable(b, dst, mem.Length) && Reachable(c, dst, mem.Length) && Disjoint(b, c)
    modifies mem
    ensures before == after
    ensures r == Stored ==> own == Some(n)
    ensures r == Stored <==> Storable(b.m, n)
  {
    before := GetMember(mem, dst, c);
    ghost var was := mem[..];
    r := PutMember(mem, dst, b, n);
    if r == Stored {
      SpliceElsewhere(was, b, ToBits(n, b.m.Length()), c, dst);
      SpliceHere(was, b, ToBits(n, b.m.Length()), dst);
      StoredReading(b.m, n);
    }
    after := GetMember(mem, dst, c);
    own := GetMember(mem, dst, b);
  }

  // ---- Whole structs ----------------------------------------------------------

  /** The object has a storable value for a member's slot, if it has one. */
  predicate HasSlot(b: Smemb, slots: map<string, int>) {
    b.m.name.Some? ==> b.m.name.value in slots && Storable(b.m, slots[b.m.name.value])
  }

  ghost predicate HasSlots(memb: seq<Smemb>, slots: map<string, int>) {
    forall b | b in memb :: HasSlot(b, slots)
  }

  /** Memory after one member's put. */
  ghost function PutOne(m: Word, b: Smemb, slots: map<string, int>, dst: nat): (r: Word)
    requires Reachable(b, dst, |m|)
    ensures |r| == |m|
  {
    ReachableWindow(b, dst, |m|);
    if b.m.name.None? || b.m.name.value !in slots then m
    else Splice(m, First(b, dst), ToBits(slots[b.m.name.value], b.m.Length()))
  }

  /** Memory after the puts of the first i members, each over what the ones before it left. */
  ghost function PutAll(m: Word, memb: seq<Smemb>, i: nat, slots: map<string, int>, dst: nat): (r: Word)
    requires AllReachable(memb, dst, |m|) && i <= |memb|
    ensures |r| == |m|
  {
    if i == 0 then m else PutOne(PutAll(m, memb, i - 1, slots, dst), memb[i - 1], slots, dst)
  }

  /** ffi_struct_put: put every named slot in member order, stopping at the first that is
      missing or does not fit; passed counts the members before it. */
  method PutStruct(mem: array<bool>, dst: nat, memb: seq<Smemb>, slots: map<string, int>)
    returns (ok: bool, passed: nat)
    requires AllReachable(memb, dst, mem.Length)
    modifies mem
    ensures passed <= |memb| && HasSlots(memb[..passed], slots)
    ensures if ok then passed == |memb| else passed < |memb| && !HasSlot(memb[passed], slots)
    ensures mem[..] == PutAll(old(mem[..]), memb, passed, slots, dst)
  {
    passed := 0;
    ghost var was := mem[..];
    while passed < |memb|
      invariant passed <= |memb| && HasSlots(memb[..passed], slots)
      invariant mem[..] == PutAll(was, memb, passed, slots, dst)
    {
      assert memb[..passed + 1] == memb[..passed] + [memb[passed]];
      ok := PutNext(mem, dst, memb[passed], slots);
      if !ok { return; }
      passed := passed + 1;
    }
    ok := true;
  }

  /** One round of the put loop. */
  method PutNext(mem: array<bool>, dst: nat, b: Smemb, slots: map<string, int>) returns (ok: bool)
    requires Reachable(b, dst, mem.Length)
    modifies mem
    ensures ok == HasSlot(b, slots)
    ensures mem[..] == if ok then PutOne(old(mem[..]), b, slots, dst) else old(mem[..])
  {
    ok := true;
    if b.m.name.Some? {
      if b.m.name.value !in slots { return false; }
      var r := PutMember(mem, dst, b, slots[b.m.name.value]);
      ok := r == Stored;
    }
  }

  /** Bits outside every named member, such as padding and neighbouring objects. */
  ghost predicate Outside(memb: seq<Smemb>, dst: nat, i: nat) {
    forall b | b in memb && b.m.name.Some? :: i < First(b, dst) || First(b, dst) + b.m.Length() <= i
  }

  /** No put changes a bit outside the named members. */
  lemma {:induction false} PutAllOutside(m: Word, memb: seq<Smemb>, i: nat, slots: map<string, int>, dst: nat, p: nat)
    requires AllReachable(memb, dst, |m|) && i <= |memb| && p < |m| && Outside(memb[..i], dst, p)
    ensures PutAll(m, memb, i, slots, dst)[p] == m[p]
  {
    if i > 0 {
      assert memb[..i] == memb[..i - 1] + [memb[i - 1]];
      PutAllOutside(m, memb, i - 1, slots, dst, p);
      ReachableWindow(memb[i - 1], dst, |m|);
    }
  }

  /** The bits of member k after the puts of all members before i. */
  lemma {:induction false} PutAllStays(m: Word, memb: seq<Smemb>, k: nat, i: nat, slots: map<string, int>, dst: nat)
    requires AllReachable(memb, dst, |m|) && k < i <= |memb|
    requires memb[k].m.name.Some? && memb[k].m.name.value in slots
    requires forall l | k < l < i && memb[l].m.name.Some? :: Disjoint(memb[k], memb[l])
    ensures 0 <= First(memb[k], dst) && First(memb[k], dst) + memb[k].m.Length() <= |m|
    ensures Slice(PutAll(m, memb, i, slots, dst), memb[k], dst) ==
            ToBits(slots[memb[k].m.name.value], memb[k].m.Length())
  {
    ReachableWindow(memb[k], dst, |m|);
    ReachableWindow(memb[i - 1], dst, |m|);
    var before, b := PutAll(m, memb, i - 1, slots, dst), memb[i - 1];
    if k == i - 1 {
      SpliceHere(before, b, ToBits(slots[b.m.name.value], b.m.Length()), dst);
    } else {
      PutAllStays(m, memb, k, i - 1, slots, dst);
      if b.m.name.Some? && b.m.name.value in slots {
        SpliceElsewhere(before, b, ToBits(slots[b.m.name.value], b.m.Length()), memb[k], dst);
      }
    }
  }

  /** The named members hold the object's values. */
  ghost predicate Written(m: Word, memb: seq<Smemb>, slots: map<string, int>, dst: nat) {
    forall j | 0 <= j < |memb| && memb[j].m.name.Some? ::
      && memb[j].m.name.value in slots
      && 0 <= First(memb[j], dst) && First(memb[j], dst) + memb[j].m.Length() <= |m|
      && Slice(m, memb[j], dst) == ToBits(slots[memb[j].m.name.value], memb[j].m.Length())
  }

  lemma {:induction false} PutAllWrites(m: Word, memb: seq<Smemb>, slots: map<string, int>, dst: nat)
    requires AllReachable(memb, dst, |m|) && Apart(memb) && HasSlots(memb, slots)
    ensures Written(PutAll(m, memb, |memb|, slots, dst), memb, slots, dst)
  {
    var r := PutAll(m, memb, |memb|, slots, dst);
    forall j | 0 <= j < |memb| && memb[j].m.name.Some?
      ensures memb[j].m.name.value in slots
      ensures 0 <= First(memb[j], dst) && First(memb[j], dst) + memb[j].m.Length() <= |m|
      ensures Slice(r, memb[j], dst) == ToBits(slots[memb[j].m.name.value], memb[j].m.Length())
    {
      assert HasSlot(memb[j], slots);
      PutAllStays(m, memb, j, |memb|, slots, dst);
    }
  }

  /** The object that a get builds: the named slots, with the given values. */
  function NamedSlots(memb: seq<Smemb>, slots: map<string, int>): map<string, int> {
    map b | b in memb && b.m.name.Some? && b.m.name.value in slots :: b.m.name.value := slots[b.m.name.value]
  }

  /** Exactly the names of the members are slots, each with the object's value. */
  lemma {:induction false} NamedSlotsAre(memb: seq<Smemb>, slots: map<string, int>, name: string)
    requires HasSlots(memb, slots)
    ensures name in NamedSlots(memb, slots) <==> exists b :: b in memb && b.m.name == Some(name)
    ensures name in NamedSlots(memb, slots) ==> name in slots && NamedSlots(memb, slots)[name] == slots[name]
  {
    forall b | b in memb && b.m.name == Some(name) ensures name in slots { assert HasSlot(b, slots); }
  }

  lemma {:induction false} NamedOneMore(memb: seq<Smemb>, i: nat, slots: map<string, int>)
    requires i < |memb| && (memb[i].m.name.Some? ==> memb[i].m.name.value in slots)
    ensures NamedSlots(memb[..i + 1], slots) ==
            var before, name := NamedSlots(memb[..i], slots), memb[i].m.name;
            if name.Some? then before[name.value := slots[name.value]] else before
  {
    assert memb[..i + 1] == memb[..i] + [memb[i]];
  }

  /** What memory says the named slots of the first i members are; a later member of the
      same name wins, and None stands for the get that negates the machine minimum. */
  ghost function ReadAll(m: Word, memb: seq<Smemb>, i: nat, src: nat): Option<map<string, int>>
    requires AllReachable(memb, src, |m|) && i <= |memb|
  {
    if i == 0 then Some(map[]) else
      var b, before := memb[i - 1], ReadAll(m, memb, i - 1, src);
      ReachableWindow(b, src, |m|);
      if before.None? || b.m.name.None? then before
      else
        var n := Reading(b.m, Slice(m, b, src));
        if n.None? then None else Some(before.value[b.m.name.value := n.value])
  }

  /** ffi_struct_get: read every named slot into a fresh object. */
  method GetStruct(mem: array<bool>, src: nat, memb: seq<Smemb>) returns (r: Option<map<string, int>>)
    requires AllReachable(memb, src, mem.Length)
    ensures r == ReadAll(mem[..], memb, |memb|, src)
  {
    var obj: map<string, int> := map[];
    ghost var m := mem[..];
    var i := 0;
    while i < |memb|
      invariant i <= |memb| && ReadAll(m, memb, i, src) == Some(obj)
    {
      var b := memb[i];
      assert b in memb;
      if b.m.name.Some? {
        var n := GetMember(mem, src, b);
        ReadOne(m, memb, i, src, obj, n);
        if n.None? {
          ReadFailed(m, memb, i + 1, |memb|, src);
          return None;
        }
        obj := obj[b.m.name.value := n.value];
      }
      i := i + 1;
    }
    r := Some(obj);
  }

  lemma {:induction false} ReadOne(m: Word, memb: seq<Smemb>, i: nat, src: nat, obj: map<string, int>,
                                   n: Option<int>)
    requires AllReachable(memb, src, |m|) && i < |memb| && memb[i].m.name.Some?
    requires ReadAll(m, memb, i, src) == Some(obj)
    requires First(memb[i], src) >= 0 && First(memb[i], src) + memb[i].m.Length() <= |m|
    requires n == Reading(memb[i].m, Slice(m, memb[i], src))
    ensures ReadAll(m, memb, i + 1, src) == if n.None? then None else Some(obj[memb[i].m.name.value := n.value])
  {
  }

  lemma {:induction false} ReadUnnamed(m: Word, memb: seq<Smemb>, i: nat, src: nat)
    requires AllReachable(memb, src, |m|) && i < |memb| && memb[i].m.name.None?
    ensures ReadAll(m, memb, i + 1, src) == ReadAll(m, memb, i, src)
  {
  }

  lemma {:induction false} ReadFailed(m: Word, memb: seq<Smemb>, i: nat, j: nat, src: nat)
    requires AllReachable(memb, src, |m|) && i <= j <= |memb| && ReadAll(m, memb, i, src).None?
    ensures ReadAll(m, memb, j, src).None?
  {
    if i < j { ReadFailed(m, memb, i, j - 1, src); }
  }

  lemma {:induction false} ReadSlot(m: Word, memb: seq<Smemb>, j: nat, slots: map<string, int>, src: nat,
                                    obj: map<string, int>)
    requires AllReachable(memb, src, |m|) && j < |memb| && memb[j].m.name.Some?
    requires HasSlot(memb[j], slots) && Written(m, memb, slots, src) && ReadAll(m, memb, j, src) == Some(obj)
    ensures var name := memb[j].m.name.value; ReadAll(m, memb, j + 1, src) == Some(obj[name := slots[name]])
  {
    var n := slots[memb[j].m.name.value];
    StoredReading(memb[j].m, n);
    ReadOne(m, memb, j, src, obj, Some(n));
  }

  /** What a put stored, a get finds. */
  lemma {:induction false} ReadWritten(m: Word, memb: seq<Smemb>, i: nat, slots: map<string, int>, src: nat)
    requires AllReachable(memb, src, |m|) && i <= |memb|
    requires HasSlots(memb, slots) && Written(m, memb, slots, src)
    ensures ReadAll(m, memb, i, src) == Some(NamedSlots(memb[..i], slots))
  {
    if i > 0 {
      var b, obj := memb[i - 1], NamedSlots(memb[..i - 1], slots);
      ReadWritten(m, memb, i - 1, slots, src);
      assert HasSlot(b, slots);
      NamedOneMore(memb, i - 1, slots);
      if b.m.name.Some? {
        ReadSlot(m, memb, i - 1, slots, src, obj);
      } else {
        ReadUnnamed(m, memb, i - 1, src);
      }
    } else {
      assert memb[..0] == [];
    }
  }

  /** A put and then a get return what was put. */
  lemma {:induction false} PutThenRead(m: Word, memb: seq<Smemb>, slots: map<string, int>, dst: nat)
    requires AllReachable(memb, dst, |m|) && Apart(memb) && HasSlots(memb, slots)
    ensures Returns(m, memb, slots, dst)
  {
    PutAllWrites(m, memb, slots, dst);
    ReadWritten(PutAll(m, memb, |memb|, slots, dst), memb, |memb|, slots, dst);
    assert memb[..|memb|] == memb;
  }

  ghost predicate Returns(m: Word, memb: seq<Smemb>, slots: map<string, int>, dst: nat)
    requires AllReachable(memb, dst, |m|)
  {
    ReadAll(PutAll(m, memb, |memb|, slots, dst), memb, |memb|, dst) == Some(NamedSlots(memb, slots))
  }

  // ---- Members that overlap ------------------------------------------------------

  ghost predicate DistinctNames(memb: seq<Smemb>) {
    forall j, k | 0 <= j < k < |memb| && memb[j].m.name.Some? :: memb[j].m.name != memb[k].m.name
  }

  /** The object has, for the named members before i, what memory says. */
  ghost predicate Matches(m: Word, memb: seq<Smemb>, i: nat, src: nat, obj: map<string, int>) {
    forall j | 0 <= j < i && j < |memb| && memb[j].m.name.Some? ::
      && memb[j].m.name.value in obj
      && 0 <= First(memb[j], src) && First(memb[j], src) + memb[j].m.Length() <= |m|
      && Reading(memb[j].m, Slice(m, memb[j], src)) == Some(obj[memb[j].m.name.value])
  }

  lemma {:induction false} ReadMatches(m: Word, memb: seq<Smemb>, i: nat, src: nat)
    requires AllReachable(memb, src, |m|) && DistinctNames(memb) && i <= |memb|
    ensures var r := ReadAll(m, memb, i, src); r.Some? ==> Matches(m, memb, i, src, r.value)
  {
    if i > 0 {
      ReadMatches(m, memb, i - 1, src);
      assert memb[i - 1] in memb;
      ReachableWindow(memb[i - 1], src, |m|);
    }
  }

  /** The number whose bits are all ones. */
  function AllOnes(m: Member): int {
    if m.signed then -1 else Pow2(m.Length()) - 1
  }

  lemma {:induction false} AllOnesStorable(b: Smemb, dst: nat, memory: nat)
    requires Reachable(b, dst, memory)
    ensures Storable(b.m, 0) && Storable(b.m, AllOnes(b.m))
    ensures ToBits(AllOnes(b.m), b.m.Length()) == Ones(b.m.Length())
  {
    ReachableWindow(b, dst, memory);
    OnesOfLength(b.m.Length());
    EdgesStorable(b.m);
  }

  lemma {:induction false} EdgesStorable(m: Member)
    requires m.Valid() && !m.ZeroWidth() && m.size > 0 && m.Length() > 0
    requires FitsSigned(-1, m.Length()) && FitsSigned(0, m.Length()) && FitsUnsigned(Pow2(m.Length()) - 1, m.Length())
    ensures Storable(m, 0) && Storable(m, AllOnes(m))
  {
    NoMinimum(Field(m.size, 0, m.bits, m.bitfield && m.signed));
  }

  lemma {:induction false} NoMinimum(f: Field)
    ensures !f.IsMachineMinimum(0) && !f.IsMachineMinimum(-1)
  {
    Pow2Monotone(1, f.Width() - 1);
  }

  lemma {:induction false} OnesOfLength(w: nat)
    requires w > 0
    ensures FitsSigned(-1, w) && FitsUnsigned(Pow2(w) - 1, w) && FitsSigned(0, w)
    ensures ToBits(-1, w) == Ones(w) && ToBits(Pow2(w) - 1, w) == Ones(w)
  {
    OnesToNat(w);
    ReadBitsBack(Ones(w));
  }

  /** Member k shares a bit with a named member before it. */
  ghost predicate Clash(memb: seq<Smemb>, j: nat, k: nat) {
    && j < k < |memb| && memb[j].m.name.Some? && memb[k].m.name.Some? && !Disjoint(memb[j], memb[k])
  }

  /** Member k is the last that clashes with an earlier one, j. */
  ghost predicate LastClash(memb: seq<Smemb>, j: nat, k: nat) {
    Clash(memb, j, k) && forall a: nat, c: nat | c > k :: !Clash(memb, a, c)
  }

  lemma {:induction false} FindLastClash(memb: seq<Smemb>, j: nat, k: nat) returns (a: nat, c: nat)
    requires Clash(memb, j, k)
    ensures LastClash(memb, a, c)
    decreases |memb| - k
  {
    a, c := j, k;
    if x: nat, y: nat :| y > k && Clash(memb, x, y) { a, c := FindLastClash(memb, x, y); }
  }

  /** Every slot 0, except one. */
  function OneSlot(memb: seq<Smemb>, name: string, n: int): map<string, int> {
    map s | s in Names(memb) :: if s == name then n else 0
  }

  function Names(memb: seq<Smemb>): set<string> {
    set b | b in memb && b.m.name.Some? :: b.m.name.value
  }

  lemma {:induction false} OneSlotStorable(memb: seq<Smemb>, k: nat, dst: nat, memory: nat)
    requires k < |memb| && memb[k].m.name.Some? && AllReachable(memb, dst, memory) && DistinctNames(memb)
    ensures HasSlots(memb, OneSlot(memb, memb[k].m.name.value, AllOnes(memb[k].m)))
  {
    var slots := OneSlot(memb, memb[k].m.name.value, AllOnes(memb[k].m));
    forall b | b in memb ensures HasSlot(b, slots) {
      var l :| 0 <= l < |memb| && memb[l] == b;
      AllOnesStorable(b, dst, memory);
      if b.m.name.Some? {
        assert b.m.name.value in slots;
        if b.m.name == memb[k].m.name { assert l == k; }
      }
    }
  }

  lemma {:induction false} CommonBit(m: Word, b: Smemb, c: Smemb, dst: nat)
    requires Reachable(b, dst, |m|) && Reachable(c, dst, |m|) && !Disjoint(b, c)
    requires First(c, dst) >= 0 && First(c, dst) + c.m.Length() <= |m|
    requires Slice(m, c, dst) == Ones(c.m.Length())
    ensures 0 <= First(b, dst) && First(b, dst) + b.m.Length() <= |m|
    ensures Slice(m, b, dst) != Zeros(b.m.Length())
  {
    ReachableWindow(b, dst, |m|);
    var p := if First(b, dst) < First(c, dst) then First(c, dst) else First(b, dst);
    assert Slice(m, c, dst)[p - First(c, dst)] == m[p];
    assert Slice(m, b, dst)[p - First(b, dst)] == m[p];
  }

  /** Then all ones in member k leave a one in the earlier member j. */
  lemma {:induction false} ClashBit(m: Word, memb: seq<Smemb>, j: nat, k: nat, slots: map<string, int>, dst: nat)
    requires AllReachable(memb, dst, |m|) && LastClash(memb, j, k)
    requires memb[k].m.name.value in slots && slots[memb[k].m.name.value] == AllOnes(memb[k].m)
    ensures 0 <= First(memb[j], dst) && First(memb[j], dst) + memb[j].m.Length() <= |m|
    ensures Slice(PutAll(m, memb, |memb|, slots, dst), memb[j], dst) != Zeros(memb[j].m.Length())
  {
    var b, c := memb[j], memb[k];
    var r := PutAll(m, memb, |memb|, slots, dst);
    ReachableWindow(b, dst, |m|);
    ReachableWindow(c, dst, |m|);
    AllOnesStorable(c, dst, |m|);
    forall l | k < l < |memb| && memb[l].m.name.Some? ensures Disjoint(c, memb[l]) {
      assert !Clash(memb, k, l);
    }
    PutAllStays(m, memb, k, |memb|, slots, dst);
    CommonBit(r, b, c, dst);
  }

  /** With all ones in member k and zero in member j, the zero does not come back. */
  lemma {:induction false} ClashFails(m: Word, memb: seq<Smemb>, j: nat, k: nat, dst: nat)
    requires AllReachable(memb, dst, |m|) && DistinctNames(memb) && LastClash(memb, j, k)
    ensures var slots := OneSlot(memb, memb[k].m.name.value, AllOnes(memb[k].m));
            HasSlots(memb, slots) && !Returns(m, memb, slots, dst)
  {
    var b, c := memb[j], memb[k];
    var slots := OneSlot(memb, c.m.name.value, AllOnes(c.m));
    OneSlotStorable(memb, k, dst, |m|);
    assert c.m.name.value in Names(memb) && b.m.name.value in Names(memb);
    ClashBit(m, memb, j, k, slots, dst);
    var r := PutAll(m, memb, |memb|, slots, dst);
    ReadMatches(r, memb, |memb|, dst);
    if Returns(m, memb, slots, dst) {
      ReachableWindow(b, dst, |m|);
      ReadingStored(b.m, Slice(r, b, dst), 0);
      ZeroBits(b.m.Length());
      assert false;
    }
  }

  lemma {:induction false} ZeroBits(w: nat)
    ensures ToBits(0, w) == Zeros(w)
  {
    ToNatZeros(w);
    ToBitsToNat(Zeros(w));
  }

  /** A put and a get return every object in every memory exactly when no two named
      members have a bit in common. */
  lemma {:induction false} ReturnsExactly(memb: seq<Smemb>, dst: nat, memory: nat)
    requires AllReachable(memb, dst, memory) && DistinctNames(memb)
    ensures Apart(memb) <==>
            forall m: Word, slots | |m| == memory && HasSlots(memb, slots) :: Returns(m, memb, slots, dst)
  {
    if Apart(memb) {
      forall m: Word, slots | |m| == memory && HasSlots(memb, slots) ensures Returns(m, memb, slots, dst) {
        PutThenRead(m, memb, slots, dst);
      }
    } else {
      var a, c :| 0 <= a < c < |memb| && memb[a].m.name.Some? && memb[c].m.name.Some? && !Disjoint(memb[a], memb[c]);
      var j, k := FindLastClash(memb, a, c);
      ClashFails(Zeros(memory), memb, j, k, dst);
      assert |Zeros(memory)| == memory;
    }
  }

  // ---- The shift is the type's ----------------------------------------------------

  /** A member as put and get see it: the shift is the one in its type. */
  function AsHeld(b: Smemb, types: Types): Smemb {
    if b.m.bitfield && b.m.ty in types then b.(shift := types[b.m.ty]) else b
  }

  function Held(memb: seq<Smemb>, types: Types): (r: seq<Smemb>)
    ensures |r| == |memb| && forall i | 0 <= i < |memb| :: r[i] == AsHeld(memb[i], types)
  {
    seq(|memb|, i requires 0 <= i < |memb| => AsHeld(memb[i], types))
  }

  /** Members of one type differ in their names only. */
  ghost predicate OneType(ms: seq<Member>) {
    forall a, b | a in ms && b in ms && a.ty == b.ty :: a == b.(name := a.name)
  }

  /** Bitfields of one type were placed at the same shift; so it is if no two bitfields
      share a type. */
  ghost predicate SameShifts(memb: seq<Smemb>) {
    forall b, c | b in memb && c in memb && b.m.bitfield && c.m.bitfield && b.m.ty == c.m.ty :: b.shift == c.shift
  }

  /** The shift in a type is the one that the last of its bitfields was placed at. */
  lemma {:induction false} LastShift(types: Types, memb: seq<Smemb>, ty: nat) returns (last: Option<Smemb>)
    ensures last.Some? ==> last.value in memb && last.value.m.bitfield && last.value.m.ty == ty
    ensures last.Some? ==> ty in TypesAfter(types, memb) && TypesAfter(types, memb)[ty] == last.value.shift
    ensures last.None? ==> forall b | b in memb && b.m.bitfield :: b.m.ty != ty
  {
    if memb == [] { return None; }
    var b, before := memb[|memb| - 1], memb[..|memb| - 1];
    assert memb == before + [b];
    last := LastShift(types, before, ty);
    if b.m.bitfield && b.m.ty == ty { last := Some(b); }
  }

  /** Exactly then does every member keep the shift that it was placed at. */
  lemma {:induction false} HeldAsPlaced(types: Types, memb: seq<Smemb>)
    ensures Held(memb, TypesAfter(types, memb)) == memb <==> SameShifts(memb)
  {
    var types' := TypesAfter(types, memb);
    forall b | b in memb && b.m.bitfield ensures b.m.ty in types' {
      var last := LastShift(types, memb, b.m.ty);
    }
    if SameShifts(memb) {
      forall i | 0 <= i < |memb| ensures AsHeld(memb[i], types') == memb[i] {
        var last := LastShift(types, memb, memb[i].m.ty);
      }
    }
    if Held(memb, types') == memb { KeptSameShifts(memb, types'); }
  }

  lemma {:induction false} KeptSameShifts(memb: seq<Smemb>, types: Types)
    requires Held(memb, types) == memb && forall b | b in memb && b.m.bitfield :: b.m.ty in types
    ensures SameShifts(memb)
  {
    forall b, c | b in memb && c in memb && b.m.bitfield && c.m.bitfield && b.m.ty == c.m.ty
      ensures b.shift == c.shift
    {
      var i :| 0 <= i < |memb| && memb[i] == b;
      var j :| 0 <= j < |memb| && memb[j] == c;
      assert AsHeld(memb[i], types) == b && AsHeld(memb[j], types) == c;
    }
  }

  ghost predicate AllReadable(ms: seq<Member>) {
    forall m | m in ms :: m.Valid() && Readable(m)
  }

  lemma {:induction false} PlacedAreMembers(ms: seq<Member>, i: nat)
    requires i <= |ms| && AllReadable(ms)
    ensures forall b | b in Placed(ms, i) :: b.m in ms && Readable(b.m)
  {
    if i > 0 {
      PlacedAreMembers(ms, i - 1);
      assert ms[i - 1] in ms;
    }
  }

  lemma {:induction false} PlacedReach(b: Smemb, dst: nat, size: nat, memory: nat)
    requires WellPlaced(b) && Readable(b.m) && End(b) <= 8 * size && 8 * (dst + size + 8) <= memory
    ensures Reachable(b, dst, memory)
  {
  }

  /** Whatever the shift in its type has become, every member of every struct can be put
      and got in memory that reaches one storage unit past the struct. */
  lemma {:induction false} LayoutUsable(ms: seq<Member>, types: Types, dst: nat, size: nat, memory: nat)
    requires AllReadable(ms) && OneType(ms) && size == ByteSize(ms) && 8 * (dst + size + 8) <= memory
    ensures var memb := Placed(ms, |ms|); AllReachable(Held(memb, TypesAfter(types, memb)), dst, memory)
  {
    var memb := Placed(ms, |ms|);
    var types' := TypesAfter(types, memb);
    PlacedAreMembers(ms, |ms|);
    LayoutSound(ms, |ms|);
    SizeCovers(ms);
    forall i | 0 <= i < |memb| ensures Reachable(AsHeld(memb[i], types'), dst, memory) {
      var last := LastShift(types, memb, memb[i].m.ty);
      PlacedReach(memb[i], dst, size, memory);
      if last.Some? { PlacedReach(last.value, dst, size, memory); }
    }
  }

  /** Members that keep the shift they were placed at are apart and within the struct. */
  lemma {:induction false} LayoutApart(ms: seq<Member>, types: Types, dst: nat)
    requires AllReadable(ms) && SameShifts(Placed(ms, |ms|))
    ensures var memb := Placed(ms, |ms|); Held(memb, TypesAfter(types, memb)) == memb && Apart(memb)
    ensures forall i | !(8 * dst <= i < 8 * (dst + ByteSize(ms))) && i >= 0 :: Outside(Placed(ms, |ms|), dst, i)
  {
    HeldAsPlaced(types, Placed(ms, |ms|));
    LayoutSound(ms, |ms|);
    SizeCovers(ms);
  }

  /** Put an object, then get one from the same members. */
  method PutThenGet(mem: array<bool>, dst: nat, memb: seq<Smemb>, slots: map<string, int>)
    returns (r: Option<map<string, int>>)
    requires AllReachable(memb, dst, mem.Length)
    modifies mem
    ensures r.Some? ==> HasSlots(memb, slots)
    ensures HasSlots(memb, slots) ==> r == ReadAll(PutAll(old(mem[..]), memb, |memb|, slots, dst), memb, |memb|, dst)
    ensures forall i | 0 <= i < mem.Length && Outside(memb, dst, i) :: mem[i] == old(mem[i])
  {
    ghost var was := mem[..];
    var ok, passed := PutStruct(mem, dst, memb, slots);
    forall i | 0 <= i < mem.Length && Outside(memb, dst, i) ensures mem[..][i] == was[i] {
      assert Outside(memb[..passed], dst, i);
      PutAllOutside(was, memb, passed, slots, dst, i);
    }
    if !ok {
      assert memb[passed] in memb;
      return None;
    }
    assert memb[..|memb|] == memb;
    r := GetStruct(mem, dst, memb);
  }

  /** make_ffi_type_struct, a put and a get, for any members. If bitfields of one type were
      placed at the same shift, exactly the objects whose slots all fit come back, and
      nothing outside the struct changes. In general it takes members that are apart, and
      otherwise what the later puts leave of the earlier ones is read. */
  method RoundTrip(mem: array<bool>, dst: nat, ms: seq<Member>, types: Types, slots: map<string, int>,
                   ghost size: nat)
    returns (r: Option<map<string, int>>, types': Types)
    requires AllReadable(ms) && OneType(ms) && size == ByteSize(ms) && 8 * (dst + size + 8) <= mem.Length
    modifies mem
    ensures types' == TypesAfter(types, Placed(ms, |ms|))
    ensures var memb := Held(Placed(ms, |ms|), types');
            && (r.Some? ==> HasSlots(memb, slots))
            && (Apart(memb) ==> r == if HasSlots(memb, slots) then Some(NamedSlots(memb, slots)) else None)
            && AllReachable(memb, dst, mem.Length)
            && (HasSlots(memb, slots) ==>
                  r == ReadAll(PutAll(old(mem[..]), memb, |memb|, slots, dst), memb, |memb|, dst))
            && (forall i | 0 <= i < mem.Length && Outside(memb, dst, i) :: mem[i] == old(mem[i]))
    ensures SameShifts(Placed(ms, |ms|)) ==>
              && r == (if HasSlots(Placed(ms, |ms|), slots) then Some(NamedSlots(Placed(ms, |ms|), slots)) else None)
              && (forall i | 0 <= i < mem.Length && !(8 * dst <= i < 8 * (dst + size)) ::
                    mem[i] == old(mem[i]))
  {
    var layout;
    layout, types' := MakeStruct(ms, types);
    LayoutUsable(ms, types, dst, size, mem.Length);
    var memb := Held(layout.memb, types');
    ghost var was := mem[..];
    r := PutThenGet(mem, dst, memb, slots);
    if Apart(memb) && HasSlots(memb, slots) { PutThenRead(was, memb, slots, dst); }
    if SameShifts(layout.memb) { LayoutApart(ms, types, dst); }
  }

  /** Slots of one bitfield type, as in (struct s (x S.a) (y S.a)). */
  function SharedSlot(name: string): Member {
    Member(Some(name), 7, 1, 1, true, 3, false, false, false, 0)
  }

  /** x is placed at bit 0 and y at bit 3, and then both are put and got at bit 3. So is
      the struct that the type came from, which was laid out with its member at bit 0. */
  lemma {:induction false} SharedTypeLayout(types: Types)
    ensures var ms := [SharedSlot("x"), SharedSlot("y")];
            && AllReadable(ms) && OneType(ms)
            && Placed(ms, 2) == [Smemb(ms[0], 0, 0), Smemb(ms[1], 0, 3)]
            && var types' := TypesAfter(types, Placed(ms, 2));
               && Held(Placed(ms, 2), types') == SharedMembers()
               && Placed([SharedSlot("a")], 1) == [Smemb(SharedSlot("a"), 0, 0)]
               && Held(Placed([SharedSlot("a")], 1), types') == [Smemb(SharedSlot("a"), 0, 3)]
  {
    var a, x, y := SharedSlot("a"), SharedSlot("x"), SharedSlot("y");
    var placed := [Smemb(x, 0, 0), Smemb(y, 0, 3)];
    SharedPlaces();
    assert placed[..1] == [Smemb(x, 0, 0)];
    assert [Smemb(x, 0, 0)][..0] == [];
    assert TypesAfter(types, [Smemb(x, 0, 0)]) == types[7 := 0];
    assert TypesAfter(types, placed) == types[7 := 3];
  }

  lemma {:induction false} SharedPlaces()
    ensures var a, x, y := SharedSlot("a"), SharedSlot("x"), SharedSlot("y");
            && AllReadable([x, y]) && a.Valid()
            && Placed([x, y], 2) == [Smemb(x, 0, 0), Smemb(y, 0, 3)] && Placed([a], 1) == [Smemb(a, 0, 0)]
  {
    var a, x, y := SharedSlot("a"), SharedSlot("x"), SharedSlot("y");
    assert Placed([x, y], 0) == [] && Placed([a], 0) == [];
    assert Placed([x, y], 1) == [Smemb(x, 0, 0)];
  }

  function SharedMembers(): seq<Smemb> {
    [Smemb(SharedSlot("x"), 0, 3), Smemb(SharedSlot("y"), 0, 3)]
  }

  /** The slots 1 and 2 come back as 2 and 2. */
  lemma {:induction false} SharedTypeExample()
    ensures var memb, slots := SharedMembers(), map["x" := 1, "y" := 2];
            && AllReachable(memb, 0, 8) && HasSlots(memb, slots) && !Apart(memb)
            && ReadAll(PutAll(Zeros(8), memb, 2, slots, 0), memb, 2, 0) == Some(map["x" := 2, "y" := 2])
  {
    var memb, slots := SharedMembers(), map["x" := 1, "y" := 2];
    var x, y := memb[0], memb[1];
    assert Pow2(3) == 8;
    var r := PutAll(Zeros(8), memb, 2, slots, 0);
    PutAllStays(Zeros(8), memb, 1, 2, slots, 0);
    StoredReading(y.m, 2);
    assert Slice(r, x, 0) == Slice(r, y, 0);
    assert ReadAll(r, memb, 1, 0) == Some(map["x" := 2]);
    assert !Disjoint(memb[0], memb[1]);
  }

  // ---- Get, then put -------------------------------------------------------------

  lemma {:induction false} PutSame(m: Word, b: Smemb, src: nat, obj: map<string, int>)
    requires Reachable(b, src, |m|) && b.m.name.Some? && b.m.name.value in obj
    requires 0 <= First(b, src) && First(b, src) + b.m.Length() <= |m|
    requires Reading(b.m, Slice(m, b, src)) == Some(obj[b.m.name.value])
    ensures PutOne(m, b, obj, src) == m && HasSlot(b, obj)
  {
    ReachableWindow(b, src, |m|);
    ReadingStored(b.m, Slice(m, b, src), obj[b.m.name.value]);
  }

  /** Putting what memory says changes nothing, even where members overlap. */
  lemma {:induction false} PutMatching(m: Word, memb: seq<Smemb>, i: nat, src: nat, obj: map<string, int>)
    requires AllReachable(memb, src, |m|) && Matches(m, memb, |memb|, src, obj) && i <= |memb|
    ensures PutAll(m, memb, i, obj, src) == m
    ensures forall j | 0 <= j < i :: HasSlot(memb[j], obj)
  {
    if i > 0 {
      PutMatching(m, memb, i - 1, src, obj);
      if memb[i - 1].m.name.Some? { PutSame(m, memb[i - 1], src, obj); }
    }
  }

  /** Getting an object and putting it back changes no bit of memory. */
  method GetThenPut(mem: array<bool>, src: nat, memb: seq<Smemb>)
    returns (r: Option<map<string, int>>, ok: bool)
    requires AllReachable(memb, src, mem.Length) && DistinctNames(memb)
    modifies mem
    ensures r == ReadAll(old(mem[..]), memb, |memb|, src) && ok == r.Some?
    ensures mem[..] == old(mem[..])
  {
    ghost var was := mem[..];
    r := GetStruct(mem, src, memb);
    ok := r.Some?;
    if ok {
      ReadMatches(was, memb, |memb|, src);
      PutMatching(was, memb, |memb|, src, r.value);
      var passed;
      ok, passed := PutStruct(mem, src, memb, r.value);
      PutMatching(was, memb, passed, src, r.value);
    }
  }
}
