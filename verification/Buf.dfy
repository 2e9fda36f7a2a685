/** Byte buffers: growth, shrinking, and the in-place splice and delete of replace_buf. */
module Buf {
  import opened Wrappers
  import opened Fixnum

  type Byte = n: int | 0 <= n < 256

  /** How replacing by index list ends; undefined where it moves bytes to below the buffer. */
  datatype Replacement = Finished | Raised | Undefined

  /** A from or to argument: left out (or nil), the symbol t, or an integer. */
  datatype Pos = Omitted | T | At(n: int)

  function Clamp(n: int, len: nat): (c: nat)
    ensures c <= len
  {
    if n < 0 then 0 else if n < len then n else len
  }

  function Displace(n: int, len: nat): int {
    if n < 0 then n + len else n
  }

  /** Where a range argument pair starts and ends; a zero to after a negative from means
      the end. */
  function Start(from: Pos, len: nat): (s: nat)
    ensures s <= len
  {
    match from
    case Omitted => 0
    case T => len
    case At(n) => Clamp(Displace(n, len), len)
  }

  function Stop(from: Pos, to: Pos, len: nat): (s: nat)
    ensures s <= len
  {
    match to
    case Omitted => len
    case T => len
    case At(n) => if n == 0 && from.At? && from.n < 0 then len else Clamp(Displace(n, len), len)
  }

  /** Where ranges are: left out is the start and the end, t the end, and a negative position
      counts from the end; what is beyond an end is at it. */
  lemma {:induction false} PositionsAre(from: Pos, to: Pos, len: nat, n: int)
    ensures Start(Omitted, len) == 0 && Start(T, len) == len && Stop(from, Omitted, len) == len == Stop(from, T, len)
    ensures 0 <= n <= len ==> Start(At(n), len) == n
    ensures 0 <= n + len && n < 0 ==> Start(At(n), len) - len == n
    ensures n > len ==> Start(At(n), len) == len == Stop(from, At(n), len)
    ensures n + len < 0 ==> Start(At(n), len) == 0 == Stop(from, At(n), len)
    ensures 0 < n <= len ==> Stop(from, At(n), len) == n
    ensures 0 <= n + len && n < 0 ==> Stop(from, At(n), len) - len == n
    ensures Stop(from, At(0), len) == if from.At? && from.n < 0 then len else 0
  {
  }

  /** Counting from the end names the same places, except that the start of a range that ends
      at zero must not be negative, and that an end of zero is not one of minus the length. */
  lemma {:induction false} SameRange(from: Pos, to: Pos, len: nat, i: nat)
    requires i < len
    ensures Start(At(i), len) == Start(At(i - len), len)
    ensures Stop(At(i), to, len) == Stop(At(i - len), to, len) <==> to != At(0)
    ensures Stop(from, At(i), len) == Stop(from, At(i - len), len) <==> i > 0 || !(from.At? && from.n < 0)
  {
  }

  /** What a range with a negative start and no end, or an end of zero, covers: the last k bytes;
      nothing left out but both ends, all of them; from t, none, at the end. */
  lemma {:induction false} RangeExamples(s: seq<Byte>, items: seq<Byte>, k: nat)
    requires 0 < k <= |s|
    ensures var n, from := |s|, At(0 - k);
            && s[Start(from, n)..Stop(from, Omitted, n)] == s[n - k..] == s[Start(from, n)..Stop(from, At(0), n)]
            && s[Start(Omitted, n)..Stop(Omitted, Omitted, n)] == s
            && s[..Start(T, n)] + items + s[Stop(T, Omitted, n)..] == s + items
  {
  }

  // ---- Deletion of indexed items ------------------------------------------------

  ghost predicate Increasing(idx: seq<int>, hi: int) {
    && (forall i | 0 <= i < |idx| :: 0 <= idx[i] < hi)
    && (forall i, j | 0 <= i < j < |idx| :: idx[i] < idx[j])
  }

  lemma {:induction false} IndexAtLeast(idx: seq<int>, hi: int, i: nat)
    requires Increasing(idx, hi) && i < |idx|
    ensures i <= idx[i]
  {
    if i > 0 { IndexAtLeast(idx, hi, i - 1); }
  }

  function Cut<X>(s: seq<X>, w: nat): (r: seq<X>)
    requires w < |s|
    ensures |r| == |s| - 1
    ensures forall j | 0 <= j < w :: r[j] == s[j]
    ensures forall j | w <= j < |r| :: r[j] == s[j + 1]
  {
    s[..w] + s[w + 1..]
  }

  /** Each index is at least the number of deletions before it, which is subtracted from it. */
  ghost predicate Offsets(del: seq<int>, hi: int) {
    forall i | 0 <= i < |del| :: i <= del[i] < hi
  }

  lemma {:induction false} IncreasingOffsets(del: seq<int>, hi: int)
    requires Increasing(del, hi)
    ensures Offsets(del, hi)
  {
    forall i | 0 <= i < |del| ensures i <= del[i] { IndexAtLeast(del, hi, i); }
  }

  /** s after deleting at each index in turn, lowered by the number of deletions before it. If
      the indices are increasing, that is s without the items that they name. */
  ghost function Without<X>(s: seq<X>, del: seq<int>): (r: seq<X>)
    requires Offsets(del, |s|)
    ensures |r| == |s| - |del|
    decreases |del|
  {
    if del == [] then s else
      var n := |del| - 1;
      Cut(Without(s, del[..n]), del[n] - n)
  }

  function CountBelow(del: seq<int>, i: int): nat {
    if del == [] then 0 else CountBelow(del[..|del| - 1], i) + if del[|del| - 1] < i then 1 else 0
  }

  lemma {:induction false} CountAll(del: seq<int>, i: int)
    requires forall h | 0 <= h < |del| :: del[h] < i
    ensures CountBelow(del, i) == |del|
  {
    if del != [] { CountAll(del[..|del| - 1], i); }
  }

  /** The indices between i and x fit in between. */
  lemma {:induction false} CountAbove(del: seq<int>, i: int, x: int)
    requires Increasing(del, x) && i !in del && i < x
    ensures |del| - CountBelow(del, i) <= x - i - 1
  {
    if del != [] {
      var n := |del| - 1;
      if del[n] < i {
        CountAll(del, i);
      } else {
        assert i !in del[..n];
        CountAbove(del[..n], i, del[n]);
      }
    }
  }

  /** Exactly the named items go: every other item survives, moved down by the number of
      deleted items before it. */
  lemma {:induction false} WithoutKeeps<X>(s: seq<X>, del: seq<int>, i: nat)
    requires Increasing(del, |s|) && i < |s| && i !in del
    ensures Offsets(del, |s|)
    ensures var j := i - CountBelow(del, i); 0 <= j < |s| - |del| && Without(s, del)[j] == s[i]
    decreases |del|
  {
    IncreasingOffsets(del, |s|);
    if del != [] {
      var n := |del| - 1;
      assert i !in del[..n] && del[n] in del;
      WithoutKeeps(s, del[..n], i);
      CountStep(del, |s|, i);
      var r, j, w := Without(s, del[..n]), i - CountBelow(del[..n], i), del[n] - n;
      assert Cut(r, w)[if j < w then j else j - 1] == s[i];
    }
  }

  /** The last deletion is above item i, by then at i less the deletions below it, exactly
      if its index is. */
  lemma {:induction false} CountStep(del: seq<int>, hi: int, i: nat)
    requires del != [] && Increasing(del, hi) && i !in del
    ensures var n := |del| - 1; var j := i - CountBelow(del[..n], i);
            if i < del[n] then j < del[n] - n && CountBelow(del, i) == CountBelow(del[..n], i)
            else j > del[n] - n && CountBelow(del, i) == CountBelow(del[..n], i) + 1
  {
    var n := |del| - 1;
    assert i !in del[..n] && del[n] in del;
    if i < del[n] { CountAbove(del[..n], i, del[n]); } else { CountAll(del[..n], i); }
  }

  // ---- Index lists ---------------------------------------------------------------

  /** The indices up to the first one out of range, displaced. */
  function InRange(idx: seq<int>, len: nat): (r: seq<int>)
    ensures |r| <= |idx|
  {
    if idx == [] || !(0 <= Displace(idx[0], len) < len) then []
    else [Displace(idx[0], len)] + InRange(idx[1..], len)
  }

  lemma {:induction false} InRangeIs(idx: seq<int>, len: nat, i: nat)
    requires i <= |InRange(idx, len)| && i < |idx|
    ensures i < |InRange(idx, len)| <==> 0 <= Displace(idx[i], len) < len
    ensures i < |InRange(idx, len)| ==> InRange(idx, len)[i] == Displace(idx[i], len)
  {
    if i > 0 { InRangeIs(idx[1..], len, i - 1); }
  }

  lemma {:induction false} InRangeFrom(idx: seq<int>, len: nat, m: nat)
    requires m <= |InRange(idx, len)|
    ensures InRange(idx[m..], len) == InRange(idx, len)[m..]
  {
    if m > 0 {
      InRangeFrom(idx[1..], len, m - 1);
      assert idx[1..][m - 1..] == idx[m..];
    } else {
      assert idx[0..] == idx;
    }
  }

  ghost predicate AllInRange(idx: seq<int>, len: nat) {
    forall i | 0 <= i < |idx| :: 0 <= Displace(idx[i], len) < len
  }

  lemma {:induction false} LeadingInRange(idx: seq<int>, len: nat, m: nat)
    requires m <= |InRange(idx, len)|
    ensures AllInRange(idx[..m], len)
  {
    forall i | 0 <= i < m ensures 0 <= Displace(idx[..m][i], len) < len { InRangeIs(idx, len, i); }
  }

  lemma {:induction false} AllCount(idx: seq<int>, len: nat)
    requires AllInRange(idx, len)
    ensures |InRange(idx, len)| == |idx|
  {
    if |InRange(idx, len)| < |idx| { InRangeIs(idx, len, |InRange(idx, len)|); }
  }

  /** How many indices receive items: the leading ones in range, while items last. */
  function PutCount(items: seq<Byte>, idx: seq<int>, len: nat): (m: nat)
    ensures m <= |items| && m <= |InRange(idx, len)| && m <= |idx|
  {
    if |items| < |InRange(idx, len)| then |items| else |InRange(idx, len)|
  }

  /** The writes stop at an index out of range for which there is an item. */
  predicate StopsEarly(items: seq<Byte>, idx: seq<int>, len: nat) {
    PutCount(items, idx, len) < |items| && PutCount(items, idx, len) < |idx|
  }

  /** That index is still negative after displacement, and raises an error. */
  predicate Raises(items: seq<Byte>, idx: seq<int>, len: nat) {
    StopsEarly(items, idx, len) && Displace(idx[PutCount(items, idx, len)], len) < 0
  }

  /** The indices left for deletion. The one that stops the writes has been consumed. */
  function Left(items: seq<Byte>, idx: seq<int>, len: nat): seq<int> {
    idx[PutCount(items, idx, len) + if StopsEarly(items, idx, len) then 1 else 0..]
  }

  ghost function WrittenInTurn(s: seq<Byte>, idx: seq<int>, items: seq<Byte>): (r: seq<Byte>)
    requires AllInRange(idx, |s|) && |idx| <= |items|
    ensures |r| == |s|
    decreases |idx|
  {
    if idx == [] then s else
      var n := |idx| - 1;
      WrittenInTurn(s, idx[..n], items)[Displace(idx[n], |s|) := items[n]]
  }

  /** The contents after the writes. */
  ghost function AllPut(s: seq<Byte>, items: seq<Byte>, idx: seq<int>): (r: seq<Byte>)
    ensures |r| == |s|
  {
    LeadingInRange(idx, |s|, PutCount(items, idx, |s|));
    WrittenInTurn(s, idx[..PutCount(items, idx, |s|)], items)
  }

  /** No index to be deleted is less than the number of those before it. */
  ghost predicate Deletable(items: seq<Byte>, idx: seq<int>, len: nat) {
    Offsets(InRange(Left(items, idx, len), len), len)
  }

  /** The contents after the writes and the deletions. */
  ghost function Replaced(s: seq<Byte>, items: seq<Byte>, idx: seq<int>): (r: seq<Byte>)
    requires Deletable(items, idx, |s|)
    ensures |r| == |s| - |InRange(Left(items, idx, |s|), |s|)|
  {
    Without(AllPut(s, items, idx), InRange(Left(items, idx, |s|), |s|))
  }

  /** The last index that names p, or -1. */
  ghost predicate LastNamed(idx: seq<int>, len: nat, p: nat, j: int) {
    && -1 <= j < |idx| && (j >= 0 ==> Displace(idx[j], len) == p)
    && forall h | j < h < |idx| :: Displace(idx[h], len) != p
  }

  /** A place named more than once keeps the last of its items; one not named is as before. */
  lemma {:induction false} LastWriteStays(s: seq<Byte>, idx: seq<int>, items: seq<Byte>, p: nat, j: int)
    requires AllInRange(idx, |s|) && |idx| <= |items| && p < |s| && LastNamed(idx, |s|, p, j)
    ensures WrittenInTurn(s, idx, items)[p] == if j >= 0 then items[j] else s[p]
    decreases |idx|
  {
    if idx != [] && j < |idx| - 1 {
      var n := |idx| - 1;
      assert Displace(idx[n], |s|) != p;
      assert forall h | 0 <= h < n :: idx[..n][h] == idx[h];
      LastWriteStays(s, idx[..n], items, p, j);
    }
  }

  /** With no place named twice, each named place holds its item, and every other place is
      as before. */
  lemma {:induction false} WrittenPlaces(s: seq<Byte>, idx: seq<int>, items: seq<Byte>)
    requires AllInRange(idx, |s|) && |idx| <= |items|
    requires forall i, j | 0 <= i < j < |idx| :: Displace(idx[i], |s|) != Displace(idx[j], |s|)
    ensures forall h | 0 <= h < |idx| :: WrittenInTurn(s, idx, items)[Displace(idx[h], |s|)] == items[h]
    ensures forall p | 0 <= p < |s| && (forall h | 0 <= h < |idx| :: Displace(idx[h], |s|) != p) ::
              WrittenInTurn(s, idx, items)[p] == s[p]
  {
    forall h | 0 <= h < |idx| ensures WrittenInTurn(s, idx, items)[Displace(idx[h], |s|)] == items[h] {
      LastWriteStays(s, idx, items, Displace(idx[h], |s|), h);
    }
    forall p | 0 <= p < |s| && (forall h | 0 <= h < |idx| :: Displace(idx[h], |s|) != p)
      ensures WrittenInTurn(s, idx, items)[p] == s[p]
    {
      LastWriteStays(s, idx, items, p, -1);
    }
  }

  /** What the documentation asks of an index list if anything is deleted: increasing after
      displacement. */
  ghost predicate Ordered(idx: seq<int>, len: nat) {
    && (forall i | 0 <= i < |idx| :: 0 <= Displace(idx[i], len))
    && (forall i, j | 0 <= i < j < |idx| :: Displace(idx[i], len) < Displace(idx[j], len))
  }

  /** Of such a list, the leading indices in range receive the items and exactly the others
      in range are deleted. */
  lemma {:induction false} OrderedReplaced(items: seq<Byte>, idx: seq<int>, len: nat)
    requires Ordered(idx, len)
    ensures !Raises(items, idx, len) && Deletable(items, idx, len)
    ensures InRange(Left(items, idx, len), len) == InRange(idx, len)[PutCount(items, idx, len)..]
  {
    var q, m := InRange(idx, len), PutCount(items, idx, len);
    forall i | 0 <= i < |q| ensures q[i] == Displace(idx[i], len) && 0 <= q[i] < len { InRangeIs(idx, len, i); }
    InRangeFrom(idx, len, m);
    IncreasingOffsets(q[m..], len);
    if StopsEarly(items, idx, len) {
      InRangeIs(idx, len, m);
      assert m + 1 < |idx| ==> Left(items, idx, len)[0] == idx[m + 1];
    }
  }

  /** With an item for each index and all in range, in any order, nothing is deleted. */
  lemma {:induction false} NothingDeleted(s: seq<Byte>, items: seq<Byte>, idx: seq<int>)
    requires AllInRange(idx, |s|) && |idx| <= |items|
    ensures !Raises(items, idx, |s|) && Deletable(items, idx, |s|)
    ensures Replaced(s, items, idx) == WrittenInTurn(s, idx, items)
  {
    AllCount(idx, |s|);
    assert idx[..|idx|] == idx;
  }

  /** The same indices, some of them counted from the end. */
  ghost predicate SameIndices(idx: seq<int>, other: seq<int>, len: nat) {
    && |idx| == |other|
    && forall h | 0 <= h < |idx| :: other[h] == idx[h] || (0 <= idx[h] < len && other[h] == idx[h] - len)
  }

  /** They have the same effect. */
  lemma {:induction false} SameReplacement(s: seq<Byte>, items: seq<Byte>, idx: seq<int>, other: seq<int>)
    requires SameIndices(idx, other, |s|)
    ensures Raises(items, idx, |s|) == Raises(items, other, |s|) && AllPut(s, items, idx) == AllPut(s, items, other)
    ensures Deletable(items, idx, |s|) == Deletable(items, other, |s|)
    ensures Deletable(items, idx, |s|) ==> Replaced(s, items, idx) == Replaced(s, items, other)
  {
    var m := PutCount(items, idx, |s|);
    SameInRange(idx, other, |s|);
    LeadingInRange(idx, |s|, m);
    LeadingInRange(other, |s|, m);
    SameWrites(s, idx[..m], other[..m], items);
    SameInRange(Left(items, idx, |s|), Left(items, other, |s|), |s|);
  }

  lemma {:induction false} SameInRange(idx: seq<int>, other: seq<int>, len: nat)
    requires SameIndices(idx, other, len)
    ensures InRange(idx, len) == InRange(other, len)
  {
    if idx != [] { SameInRange(idx[1..], other[1..], len); }
  }

  lemma {:induction false} SameWrites(s: seq<Byte>, idx: seq<int>, other: seq<int>, items: seq<Byte>)
    requires SameIndices(idx, other, |s|) && |idx| <= |items| && AllInRange(idx, |s|) && AllInRange(other, |s|)
    ensures WrittenInTurn(s, idx, items) == WrittenInTurn(s, other, items)
    decreases |idx|
  {
    if idx != [] {
      var n := |idx| - 1;
      SameWrites(s, idx[..n], other[..n], items);
    }
  }

  /** Index -1 writes the last byte. */
  lemma {:induction false} LastByte(s: seq<Byte>, item: Byte)
    requires s != []
    ensures !Raises([item], [-1], |s|) && Deletable([item], [-1], |s|)
    ensures Replaced(s, [item], [-1]) == s[..|s| - 1] + [item]
  {
    var idx := [-1];
    assert AllInRange(idx, |s|);
    NothingDeleted(s, [item], idx);
    assert idx[..0] == [];
    assert WrittenInTurn(s, idx, [item]) == s[|s| - 1 := item];
  }

  /** What the documentation says of an index out of range: the replacement stops there. */
  ghost function StoppedThere(s: seq<Byte>, items: seq<Byte>, idx: seq<int>): seq<Byte>
    requires Deletable(items, idx, |s|)
  {
    if StopsEarly(items, idx, |s|) then AllPut(s, items, idx) else Replaced(s, items, idx)
  }

  /** The writes stop there but the deletions go on after it: the documentation holds
      exactly if the next index is out of range too, or there is none. */
  lemma {:induction false} StopsExactly(s: seq<Byte>, items: seq<Byte>, idx: seq<int>)
    requires Deletable(items, idx, |s|)
    ensures var n := PutCount(items, idx, |s|) + 1;
            Replaced(s, items, idx) == StoppedThere(s, items, idx) <==>
            (StopsEarly(items, idx, |s|) && n < |idx| ==> !(0 <= Displace(idx[n], |s|) < |s|))
  {
    var n, left := PutCount(items, idx, |s|) + 1, Left(items, idx, |s|);
    if StopsEarly(items, idx, |s|) && n < |idx| { assert left[0] == idx[n]; }
  }

  /** Index 3 stops the writes to three bytes, and index 0 after it is deleted. */
  lemma {:induction false} GoesOnExample()
    ensures var s, items, idx := [10, 20, 30], [1, 2], [3, 0];
            Deletable(items, idx, 3) && StoppedThere(s, items, idx) == s && Replaced(s, items, idx) == [20, 30]
  {
    var s: seq<Byte>, items: seq<Byte>, idx := [10, 20, 30], [1, 2], [3, 0];
    assert PutCount(items, idx, 3) == 0 && Left(items, idx, 3) == [0];
    assert InRange([0], 3) == [0] by { assert [0][1..] == []; }
    assert [0][..0] == [] && idx[..0] == [];
    assert Without(s, [0]) == Cut(s, 0);
  }

  /** Deletions from the top down: of bytes 1 and 0, the second is at offset -1, and of bytes 2
      and 1, the second is of byte 0. */
  lemma {:induction false} BelowExample(s: seq<Byte>, idx: seq<int>)
    requires |s| == 3 && |idx| == 2
    ensures idx == [1, 0] ==> !Raises([], idx, 3) && !Deletable([], idx, 3)
    ensures idx == [2, 1] ==> !Raises([], idx, 3) && Deletable([], idx, 3) && Replaced(s, [], idx) == [s[1]]
  {
    if idx == [1, 0] || idx == [2, 1] {
      TwoInRange(idx);
      NothingPut(s, idx);
      if idx == [2, 1] { WithoutTwo(s, idx); }
    }
  }

  lemma {:induction false} TwoInRange(idx: seq<int>)
    requires |idx| == 2 && 0 <= idx[0] < 3 && 0 <= idx[1] < 3
    ensures InRange(idx, 3) == idx && Left([], idx, 3) == idx
  {
    assert idx[1..] == [idx[1]] && idx[1..][1..] == [] && idx[0..] == idx;
    assert InRange(idx[1..], 3) == [idx[1]];
    assert idx == [idx[0]] + [idx[1]];
  }

  lemma {:induction false} NothingPut(s: seq<Byte>, idx: seq<int>)
    ensures AllPut(s, [], idx) == s && !Raises([], idx, |s|)
  {
    assert idx[..0] == [];
  }

  lemma {:induction false} WithoutTwo(s: seq<Byte>, del: seq<int>)
    requires |s| == 3 && |del| == 2 && del[0] == 2 && del[1] == 1
    ensures Without(s, del) == [s[1]]
  {
    assert del[..1][..0] == [];
    assert Without(s, del[..1]) == Cut(s, 2);
    assert Without(s, del) == Cut(Cut(s, 2), 0);
  }

  // ---- The buffer -----------------------------------------------------------------

  method MemMove(data: array<Byte>, dst: nat, src: nat, n: nat)
    requires dst + n <= data.Length && src + n <= data.Length
    modifies data
    ensures forall i | 0 <= i < data.Length ::
              data[i] == if dst <= i < dst + n then old(data[src + (i - dst)]) else old(data[i])
  {
    forall i | 0 <= i < n { data[dst + i] := data[src + i]; }
  }

  /** The first loop of replace by index list, on the first len bytes. */
  method PutItems(data: array<Byte>, len: nat, items: seq<Byte>, idx: seq<int>) returns (ok: bool, used: nat)
    requires len <= data.Length
    modifies data
    ensures ok == !Raises(items, idx, len)
    ensures data[..len] == AllPut(old(data[..len]), items, idx)
    ensures ok ==> used <= |idx| && idx[used..] == Left(items, idx, len)
  {
    ghost var s, q := data[..len], InRange(idx, len);
    ok := true;
    var i := 0;
    assert idx[..0] == [];
    while i < |items| && i < |idx|
      invariant 0 <= i <= |items| && i <= |q|
      invariant AllInRange(idx[..i], len) && data[..len] == WrittenInTurn(s, idx[..i], items)
    {
      var wh := idx[i];
      InRangeIs(idx, len, i);
      if wh >= len {
        used := i + 1;
        return;
      }
      var w := Displace(wh, len);
      if w < 0 { return false, i; }
      data[w] := items[i];
      WriteStep(s, idx, items, i);
      i := i + 1;
    }
    used := i;
  }

  lemma {:induction false} WriteStep(s: seq<Byte>, idx: seq<int>, items: seq<Byte>, i: nat)
    requires i < |idx| && i < |items| && AllInRange(idx[..i], |s|) && 0 <= Displace(idx[i], |s|) < |s|
    ensures AllInRange(idx[..i + 1], |s|)
    ensures WrittenInTurn(s, idx[..i + 1], items) ==
            WrittenInTurn(s, idx[..i], items)[Displace(idx[i], |s|) := items[i]]
  {
    assert idx[..i + 1] == idx[..i] + [idx[i]];
    assert idx[..i + 1][..i] == idx[..i];
  }

  /** Delete the byte at offset w of the first l bytes. */
  method DeleteOne(data: array<Byte>, w: nat, l: nat)
    requires w < l <= data.Length
    modifies data
    ensures data[..l - 1] == Cut(old(data[..l]), w)
  {
    MemMove(data, w, w + 1, l - w - 1);
  }

  /** The second loop: delete the remaining indices, shifting the tail down each time; not ok
      where it would move bytes to below the buffer. */
  method DeleteItems(data: array<Byte>, len: nat, idx: seq<int>) returns (ok: bool, l: nat)
    requires len <= data.Length
    modifies data
    ensures ok == Offsets(InRange(idx, len), len)
    ensures ok ==> l <= len && data[..l] == Without(old(data[..len]), InRange(idx, len))
  {
    ghost var s, q := data[..len], InRange(idx, len);
    ghost var now := s;
    l := len;
    var offs, j := 0, 0;
    assert q[..0] == [];
    while j < |idx|
      invariant 0 <= j <= |q| && offs == j && l == len - offs && l >= 0 && Offsets(q[..j], len)
      invariant data[..l] == now && now == Without(s, q[..j])
    {
      var w := Displace(idx[j], len);
      InRangeIs(idx, len, j);
      if w < 0 { break; }
      w := w - offs;
      if w >= l { break; }
      if w < 0 { return false, l; }
      OneMoreOffset(s, q, j);
      DeleteOne(data, w, l);
      now := Cut(now, w);
      l, offs, j := l - 1, offs + 1, j + 1;
    }
    assert q[..j] == q;
    ok := true;
  }

  lemma {:induction false} OneMoreOffset(s: seq<Byte>, q: seq<int>, j: nat)
    requires j < |q| && Offsets(q[..j], |s|) && j <= q[j] < |s|
    ensures Offsets(q[..j + 1], |s|)
    ensures var r, w := Without(s, q[..j]), q[j] - j;
            0 <= w < |r| && Without(s, q[..j + 1]) == Cut(r, w)
  {
    var p := q[..j + 1];
    assert p[..j] == q[..j] && p[j] == q[j];
    assert forall i | 0 <= i < j :: p[i] == q[..j][i];
  }

  /** Move the bytes of s from t on up by diff. */
  method MoveUp(data: array<Byte>, ghost s: seq<Byte>, l: nat, t: nat, diff: nat)
    requires t <= l == |s| && l + diff <= data.Length && forall i | 0 <= i < l :: data[i] == s[i]
    modifies data
    ensures Opened(data[..l + diff], s, t, diff)
  {
    MemMove(data, t + diff, t, l - t);
  }

  /** Move the bytes from t on, of the first l, down by diff. */
  method MoveDown(data: array<Byte>, l: nat, t: nat, diff: nat)
    requires diff <= t <= l <= data.Length
    modifies data
    ensures var s := old(data[..l]);
            && data[..l] == s[..t - diff] + s[t..] + s[l - diff..]
            && data[..l - diff] == s[..t - diff] + s[t..]
  {
    ghost var s := data[..l];
    MemMove(data, t - diff, t, l - t);
    assert data[..l - diff] == s[..t - diff] + s[t..] && data[l - diff..l] == s[l - diff..];
    assert data[..l] == data[..l - diff] + data[l - diff..l];
  }

  /** The allocated size once the length is n: no less than it was, and otherwise a quarter
      more, but at least n; the maximum if a quarter more is beyond it. */
  function Grown(size: nat, n: nat): (r: nat)
    requires n <= INT_PTR_MAX && size <= INT_PTR_MAX
    ensures size <= r <= INT_PTR_MAX && n <= r
    ensures r == size || r == n || r == INT_PTR_MAX || (4 * r <= 5 * size < 4 * r + 4)
    ensures n > size && 5 * size <= 4 * INT_PTR_MAX ==> r < n + size / 4 + 1 && (r > n ==> r == size + size / 4)
    ensures n > size && 5 * size > 4 * INT_PTR_MAX + 4 ==> r == INT_PTR_MAX
  {
    if n <= size then size
    else if size > INT_PTR_MAX - INT_PTR_MAX / 5 then INT_PTR_MAX
    else if size + size / 4 < n then n else size + size / 4
  }

  class Buffer {
    var data: array<Byte>
    var len: nat
    /** Allocated size; None for a fixed buffer over borrowed memory. */
    var size: Option<nat>

    ghost predicate Valid()
      reads this
    {
      && len <= data.Length && len <= INT_PTR_MAX
      && (size.Some? ==> len <= size.value <= data.Length && size.value <= INT_PTR_MAX)
    }

    ghost function Contents(): (s: seq<Byte>)
      requires Valid()
      reads this, data
      ensures |s| == len
    {
      data[..len]
    }

    constructor (contents: seq<Byte>)
      requires |contents| <= INT_PTR_MAX
      ensures Valid() && fresh(data) && Contents() == contents && size == Some(|contents|)
    {
      data := new Byte[|contents|](i requires 0 <= i < |contents| => contents[i]);
      len := |contents|;
      size := Some(|contents|);
    }

    /** chk_realloc: the leading bytes survive, the rest are indeterminate. */
    method Realloc(n: nat)
      requires Valid() && len <= n
      modifies this`data
      ensures data.Length == n && fresh(data)
      ensures forall i | 0 <= i < n && i < old(data).Length :: data[i] == old(data[i])
    {
      var d := new Byte[n];
      forall i | 0 <= i < n && i < data.Length { d[i] := data[i]; }
      data := d;
    }

    /** buf_shrink: give back the slack, but never reallocate to nothing. */
    method Shrink()
      requires Valid() && size.Some?
      modifies this
      ensures Valid() && Contents() == old(Contents()) && len == old(len)
      ensures size == if len == 0 && old(size) == Some(1) then old(size) else Some(len)
      ensures data == old(data) || fresh(data)
    {
      var n := if len == 0 then 1 else len;
      if Some(n) != size {
        Realloc(n);
        size := Some(len);
        assert data[..len] == old(data[..len]);
      }
    }

    /** buf_do_set_len: Error for a fixed buffer, an impossible length or a bad filler. */
    method SetLength(newLen: int, filler: int) returns (r: Result<nat>)
      requires Valid()
      modifies this, data
      ensures Valid() && (data == old(data) || fresh(data))
      ensures r == if old(size).None? || !(0 <= newLen <= INT_PTR_MAX) || !(0 <= filler < 256) then Error
                   else Ok(old(len))
      ensures r.Error? ==> len == old(len) && size == old(size) && data == old(data) && data[..] == old(data[..])
      ensures r.Ok? ==> len == newLen && size.Some? && old(size).Some?
      ensures r.Ok? ==> size == Some(Grown(old(size).value, newLen))
      ensures r.Ok? ==> forall i | 0 <= i < len :: data[i] == if i < old(len) then old(data[i]) else filler
      ensures r.Ok? && newLen <= old(len) ==> data == old(data)
    {
      if size.None? || newLen < 0 || newLen > INT_PTR_MAX || !(0 <= filler < 256) { return Error; }
      var olen, oldSize := len, size.value;
      var n := oldSize;
      if n < newLen {
        if n > INT_PTR_MAX - INT_PTR_MAX / 5 {
          n := INT_PTR_MAX;
        } else {
          n := n + n / 4;
          if n < newLen { n := newLen; }
        }
      }
      if n > oldSize {
        Realloc(n);
        size := Some(n);
      }
      len := newLen;
      forall i | olen <= i < newLen { data[i] := filler; }
      r := Ok(olen);
    }

    /** Close the gap before offset t by diff bytes. */
    method CloseGap(t: nat, diff: nat) returns (ok: bool)
      requires Valid() && diff <= t <= len && diff > 0
      modifies this, data
      ensures Valid() && data == old(data) && ok == old(size).Some?
      ensures var s := old(Contents());
              Contents() == if ok then s[..t - diff] + s[t..] else s[..t - diff] + s[t..] + s[|s| - diff..]
    {
      var l := len;
      MoveDown(data, l, t, diff);
      assert Contents()[..l - diff] == data[..l - diff];
      var q := SetLength(l - diff, 0);
      ok := q.Ok?;
      if ok { assert Contents() == data[..l - diff]; }
    }

    /** Open a gap of diff bytes before offset t. */
    method OpenGap(t: nat, diff: nat) returns (ok: bool)
      requires Valid() && t <= len && diff > 0
      modifies this, data
      ensures Valid() && (data == old(data) || fresh(data))
      ensures ok == (old(size).Some? && old(len) + diff <= INT_PTR_MAX)
      ensures var s := old(Contents());
              if ok then Opened(Contents(), s, t, diff) else Contents() == s
    {
      ghost var s := Contents();
      var l := len;
      var q := SetLength(l + diff, 0);
      ok := q.Ok?;
      if ok {
        assert forall i | 0 <= i < l :: data[i] == s[i];
        MoveUp(data, s, l, t, diff);
        assert Opened(data[..len], s, t, diff);
      }
    }

    /** Make the range [f, t) n bytes long. */
    method MakeRoom(f: nat, t: nat, n: nat) returns (ok: bool)
      requires Valid() && f <= len && t <= len
      modifies this, data
      ensures Valid() && (data == old(data) || fresh(data))
      ensures ok <==> t - f == n || (old(size).Some? && old(len) - (t - f) + n <= INT_PTR_MAX)
      ensures if ok then Room(Contents(), old(Contents()), f, t, n) else Contents() == Torn(old(Contents()), f, t, n)
    {
      ghost var s := Contents();
      ok := true;
      if t - f > n {
        ok := CloseGap(t, t - f - n);
        if ok { CloseRoom(Contents(), s, f, t, n); }
      } else if t - f < n {
        ok := OpenGap(t, n - (t - f));
        if ok { OpenRoom(Contents(), s, f, t, n); }
      }
    }

    /** replace_buf with a range. Error means that the buffer would have to change length
        and cannot; if it would have to shrink, its tail has by then been moved. */
    method ReplaceRange(items: seq<Byte>, from: Pos, to: Pos) returns (r: Result<()>)
      requires Valid()
      modifies this, data
      ensures Valid() && (data == old(data) || fresh(data))
      ensures var s, f, t := old(Contents()), Start(from, old(len)), Stop(from, to, old(len));
              && (r.Error? <==> t - f != |items| && (old(size).None? || |s| - (t - f) + |items| > INT_PTR_MAX))
              && (r.Ok? ==> Contents() == s[..f] + items + s[t..])
              && (r.Error? ==> Contents() == Torn(s, f, t, |items|))
    {
      var f, t := Start(from, len), Stop(from, to, len);
      var ok := MakeRoom(f, t, |items|);
      if ok {
        WriteAt(f, items);
        r := Ok(());
      } else {
        r := Error;
      }
    }

    /** The items, byte by byte, at offset f. */
    method WriteAt(f: nat, items: seq<Byte>)
      requires Valid() && f + |items| <= len
      modifies data
      ensures Contents() == old(Contents())[..f] + items + old(Contents())[f + |items|..]
    {
      for i := 0 to |items|
        invariant forall j | 0 <= j < data.Length :: data[j] == if f <= j < f + i then items[j - f] else old(data[j])
      {
        data[f + i] := items[i];
      }
    }

    /** replace_buf with an index list. It raises where an index is below the buffer, and the
        writes before it stand, or where the buffer is fixed and something was deleted from
        it; then the bytes have moved, but the length stays. It is undefined exactly where an
        index to be deleted is less than the number of those before it. */
    method ReplaceIndices(items: seq<Byte>, idx: seq<int>) returns (r: Replacement)
      requires Valid()
      modifies this, data
      ensures Valid() && data == old(data)
      ensures var s := old(Contents());
              if Raises(items, idx, |s|) then r == Raised && Contents() == AllPut(s, items, idx)
              else if !Deletable(items, idx, |s|) then r == Undefined
              else
                var want := Replaced(s, items, idx);
                && (r == if old(size).None? && |want| < |s| then Raised else Finished)
                && (r.Finished? ==> Contents() == want)
                && (r.Raised? ==> len == old(len) && want <= Contents())
    {
      var ok, used := PutItems(data, len, items, idx);
      if !ok { return Raised; }
      var l;
      ok, l := DeleteItems(data, len, idx[used..]);
      if !ok { return Undefined; }
      ok := CutTo(l);
      r := if ok then Finished else Raised;
    }

    /** Set the length to the l bytes that are left, if any are gone. */
    method CutTo(l: nat) returns (ok: bool)
      requires Valid() && l <= len
      modifies this, data
      ensures Valid() && data == old(data) && data[..l] == old(data[..l])
      ensures ok <==> l == old(len) || old(size).Some?
      ensures len == if ok then l else old(len)
    {
      ok := true;
      if l < len {
        var z := SetLength(l, 0);
        ok := z.Ok?;
      }
    }

    /** sub_buf: always a copy. The test for the whole range compares a Lisp value with the
        null pointer, which is nil and not the number zero that from is by then. */
    method Sub(from: Pos, to: Pos) returns (b: Buffer)
      requires Valid()
      ensures b.Valid() && fresh(b) && fresh(b.data)
      ensures var f, t := Start(from, len), Stop(from, to, len);
              b.Contents() == if f < t then Contents()[f..t] else []
    {
      var f, t := Start(from, len), Stop(from, to, len);
      if f >= t {
        b := new Buffer([]);
      } else {
        b := new Buffer(data[f..t]);
      }
    }
  }

  /** The range [f, t) of s has become n bytes, of whatever value. */
  ghost predicate Room(now: seq<Byte>, s: seq<Byte>, f: nat, t: nat, n: nat)
    requires f <= |s| && t <= |s|
  {
    f + n <= |now| && now[..f] == s[..f] && now[f + n..] == s[t..]
  }

  /** What a buffer that cannot change length is left with. */
  ghost function Torn(s: seq<Byte>, f: nat, t: nat, n: nat): seq<Byte>
    requires f <= |s| && t <= |s|
  {
    if t - f < n then s else s[..f + n] + s[t..] + s[|s| - (t - f - n)..]
  }

  lemma {:induction false} CloseRoom(now: seq<Byte>, s: seq<Byte>, f: nat, t: nat, n: nat)
    requires f <= |s| && t <= |s| && t - f > n && now == s[..f + n] + s[t..]
    ensures Room(now, s, f, t, n)
  {
    assert now[..f] == s[..f] && now[f + n..] == s[t..];
  }

  /** The bytes from t on are diff further along; those in the gap are as they were. */
  ghost predicate Opened(now: seq<Byte>, s: seq<Byte>, t: nat, diff: nat)
  {
    && |now| == |s| + diff
    && (forall i | 0 <= i < |s| && i < t + diff :: now[i] == s[i])
    && (forall i | t + diff <= i < |now| :: now[i] == s[i - diff])
  }

  /** Widening the range [f, t) to hold n items keeps the part before f, even when the
      range is given backwards. */
  lemma {:induction false} OpenRoom(now: seq<Byte>, s: seq<Byte>, f: nat, t: nat, n: nat)
    requires f <= |s| && t <= |s| && t - f < n && Opened(now, s, t, n - (t - f))
    ensures Room(now, s, f, t, n)
  {
    assert now[..f] == s[..f];
    assert now[f + n..] == s[t..];
  }
}
