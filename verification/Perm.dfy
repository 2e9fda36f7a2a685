/** perm: k-permutations of a sequence, driven by a counter whose digit i runs
    below n - i and names one of the positions not used so far. */
module Perm {
  import opened Wrappers
  import opened Nonlinear
  import opened Lex
  import opened MixedRadix
  import opened Selection

  // ---- Free slots -------------------------------------------------------

  /** Number of unused slots among the first j. */
  function FreeBefore(b: seq<bool>, j: nat): nat
    requires j <= |b|
  {
    if j == 0 then 0 else FreeBefore(b, j - 1) + if b[j - 1] then 0 else 1
  }

  function FreeCount(b: seq<bool>): nat {
    FreeBefore(b, |b|)
  }

  lemma {:induction false} FreeMonotone(b: seq<bool>, i: nat, j: nat)
    requires i <= j <= |b|
    ensures FreeBefore(b, i) <= FreeBefore(b, j)
    ensures i < j && !b[i] ==> FreeBefore(b, i) < FreeBefore(b, j)
  {
    if i < j { FreeMonotone(b, i, j - 1); }
  }

  lemma {:induction false} MarkSlot(b: seq<bool>, s: nat, j: nat)
    requires s < |b| && !b[s] && j <= |b|
    ensures FreeBefore(b[s := true], j) == FreeBefore(b, j) - if s < j then 1 else 0
  {
    if j > 0 { MarkSlot(b, s, j - 1); }
  }

  /** The unused slot that has exactly m unused slots before it. */
  function Slot(b: seq<bool>, m: nat, j: nat): (s: nat)
    requires j <= |b| && m < FreeBefore(b, j)
    ensures s < j && !b[s] && FreeBefore(b, s) == m
  {
    if !b[j - 1] && FreeBefore(b, j - 1) == m then j - 1 else Slot(b, m, j - 1)
  }

  lemma {:induction false} SlotUnique(b: seq<bool>, s: nat, t: nat)
    requires s < |b| && t < |b| && !b[s] && !b[t] && FreeBefore(b, s) == FreeBefore(b, t)
    ensures s == t
  {
    if s < t { FreeMonotone(b, s, t); }
    if t < s { FreeMonotone(b, t, s); }
  }

  function NoneUsed(n: nat): (b: seq<bool>)
    ensures |b| == n && forall i | 0 <= i < n :: !b[i]
  {
    seq(n, _ => false)
  }

  lemma {:induction false} NoneUsedCount(n: nat, j: nat)
    requires j <= n
    ensures FreeBefore(NoneUsed(n), j) == j
  {
    if j > 0 { NoneUsedCount(n, j - 1); }
  }

  // ---- Counters and injective tuples -------------------------------------

  /** Digit bounds m, m - 1, ..., m - k + 1. */
  function Radix(m: nat, k: nat): (r: seq<nat>)
    requires k <= m
    ensures |r| == k && forall i | 0 <= i < k :: r[i] == m - i
  {
    if k == 0 then [] else [m] + Radix(m - 1, k - 1)
  }

  /** Each entry of t names a slot that neither b nor an earlier entry uses. */
  predicate Fresh(t: Tuple, b: seq<bool>)
    decreases |t|
  {
    t == [] || (0 <= t[0] < |b| && !b[t[0]] && Fresh(t[1..], b[t[0] := true]))
  }

  function Decode(c: seq<int>, b: seq<bool>): (t: Tuple)
    requires |c| <= FreeCount(b) && MixedRadix.Valid(c, Radix(FreeCount(b), |c|))
    ensures |t| == |c|
    decreases |c|
  {
    if c == [] then [] else
      var s := Slot(b, c[0], |b|);
      MarkSlot(b, s, |b|);
      TailValid(c, FreeCount(b));
      [s] + Decode(c[1..], b[s := true])
  }

  lemma {:induction false} TailValid(c: seq<int>, m: nat)
    requires 0 < |c| <= m && MixedRadix.Valid(c, Radix(m, |c|))
    ensures MixedRadix.Valid(c[1..], Radix(m - 1, |c| - 1))
  {
    forall i | 0 <= i < |c| - 1 ensures 0 <= c[1..][i] < Radix(m - 1, |c| - 1)[i] {
      assert c[1..][i] == c[i + 1] && Radix(m, |c|)[i + 1] == m - (i + 1);
    }
  }

  /** The counter that leads to t. */
  function Encode(t: Tuple, b: seq<bool>): (c: seq<int>)
    requires Fresh(t, b)
    ensures |c| == |t|
    decreases |t|
  {
    if t == [] then [] else [FreeBefore(b, t[0])] + Encode(t[1..], b[t[0] := true])
  }

  /** Decoding digits has produced the first i entries of goal and marked them in b. */
  ghost predicate Decoding(goal: Tuple, digits: seq<int>, b: seq<bool>, i: nat) {
    && i <= |digits| && |goal| == |digits|
    && |digits| - i <= FreeCount(b)
    && MixedRadix.Valid(digits[i..], Radix(FreeCount(b), |digits| - i))
    && goal[i..] == Decode(digits[i..], b)
  }

  lemma {:induction false} DecodingStart(digits: seq<int>, n: nat)
    requires |digits| <= n && MixedRadix.Valid(digits, Radix(n, |digits|))
    ensures FreeCount(NoneUsed(n)) == n
    ensures var t := Decode(digits, NoneUsed(n)); Within(t, n) && Decoding(t, digits, NoneUsed(n), 0)
  {
    NoneUsedCount(n, n);
    var t := Decode(digits, NoneUsed(n));
    DecodeThenEncode(digits, NoneUsed(n));
    FreshMeans(t, NoneUsed(n));
    assert digits[0..] == digits && t[0..] == t;
  }

  lemma {:induction false} DecodingBound(goal: Tuple, digits: seq<int>, b: seq<bool>, i: nat)
    requires Decoding(goal, digits, b, i) && i < |digits|
    ensures 0 <= digits[i] < FreeCount(b)
  {
    assert digits[i] == digits[i..][0];
  }

  lemma {:induction false} DecodingStep(goal: Tuple, digits: seq<int>, b: seq<bool>, i: nat, s: nat)
    requires Decoding(goal, digits, b, i) && i < |digits|
    requires s < |b| && !b[s] && FreeBefore(b, s) == digits[i]
    ensures goal[i] == s && Decoding(goal, digits, b[s := true], i + 1)
  {
    var c := digits[i..];
    MarkSlot(b, s, |b|);
    TailValid(c, FreeCount(b));
    SlotUnique(b, s, Slot(b, c[0], |b|));
    assert c[1..] == digits[i + 1..] && goal[i..][1..] == goal[i + 1..] && goal[i..][0] == goal[i];
  }

  lemma {:induction false} DecodeThenEncode(c: seq<int>, b: seq<bool>)
    requires |c| <= FreeCount(b) && MixedRadix.Valid(c, Radix(FreeCount(b), |c|))
    ensures Fresh(Decode(c, b), b) && Encode(Decode(c, b), b) == c
    decreases |c|
  {
    if c != [] {
      var s := Slot(b, c[0], |b|);
      MarkSlot(b, s, |b|);
      TailValid(c, FreeCount(b));
      DecodeThenEncode(c[1..], b[s := true]);
      assert Decode(c, b)[1..] == Decode(c[1..], b[s := true]);
    }
  }

  lemma {:induction false} EncodeThenDecode(t: Tuple, b: seq<bool>)
    requires Fresh(t, b)
    ensures |t| <= FreeCount(b) && MixedRadix.Valid(Encode(t, b), Radix(FreeCount(b), |t|))
    ensures Decode(Encode(t, b), b) == t
    decreases |t|
  {
    if t != [] {
      var b' := b[t[0] := true];
      var c := Encode(t, b);
      MarkSlot(b, t[0], |b|);
      FreeMonotone(b, t[0], |b|);
      EncodeThenDecode(t[1..], b');
      assert c[1..] == Encode(t[1..], b');
      forall i | 0 <= i < |c| ensures 0 <= c[i] < Radix(FreeCount(b), |t|)[i] {
        assert i > 0 ==> c[i] == c[1..][i - 1];
      }
      SlotUnique(b, t[0], Slot(b, c[0], |b|));
    }
  }

  lemma {:induction false} EncodeKeepsOrder(t: Tuple, u: Tuple, b: seq<bool>)
    requires |t| == |u| && Fresh(t, b) && Fresh(u, b) && Less(t, u)
    ensures Less(Encode(t, b), Encode(u, b))
    decreases |t|
  {
    if t[0] < u[0] {
      FreeMonotone(b, t[0], u[0]);
    } else {
      EncodeKeepsOrder(t[1..], u[1..], b[t[0] := true]);
    }
    assert Encode(t, b)[1..] == Encode(t[1..], b[t[0] := true]);
    assert Encode(u, b)[1..] == Encode(u[1..], b[u[0] := true]);
  }

  ghost predicate Distinct(t: Tuple) {
    forall i, j | 0 <= i < j < |t| :: t[i] != t[j]
  }

  ghost predicate Arrangement(t: Tuple, n: nat) {
    Within(t, n) && Distinct(t)
  }

  lemma {:induction false} FreshMeans(t: Tuple, b: seq<bool>)
    ensures Fresh(t, b) <==> Arrangement(t, |b|) && forall i | 0 <= i < |t| :: !b[t[i]]
    decreases |t|
  {
    if t != [] && 0 <= t[0] < |b| && !b[t[0]] {
      var b', u := b[t[0] := true], t[1..];
      FreshMeans(u, b');
      assert forall i | 0 < i < |t| :: t[i] == u[i - 1];
      if Arrangement(t, |b|) && forall i | 0 <= i < |t| :: !b[t[i]] {
        forall i | 0 <= i < |u| ensures 0 <= u[i] < |b'| && !b'[u[i]] { assert u[i] == t[i + 1]; }
        assert Distinct(u);
      }
      if Fresh(u, b') {
        forall i | 0 <= i < |t| ensures 0 <= t[i] < |b| && !b[t[i]] && (i > 0 ==> t[i] != t[0]) {
          if i > 0 { assert t[i] == u[i - 1]; }
        }
      }
    }
  }

  // ---- The enumeration ---------------------------------------------------

  function Permutation(n: nat, k: nat, v: nat): (t: Tuple)
    requires k <= n && v < Total(Radix(n, k))
  {
    NoneUsedCount(n, n);
    UnrankValid(v, Radix(n, k));
    Decode(Unrank(v, Radix(n, k)), NoneUsed(n))
  }

  function Permutations(n: nat, k: nat): (s: seq<Tuple>)
    requires k <= n
    ensures |s| == Total(Radix(n, k))
  {
    seq(Total(Radix(n, k)), v requires 0 <= v < Total(Radix(n, k)) => Permutation(n, k, v))
  }

  ghost function Rank(t: Tuple, n: nat, k: nat): int
    requires k <= n
  {
    if |t| == k && Fresh(t, NoneUsed(n)) then Value(Encode(t, NoneUsed(n)), Radix(n, k)) else -1
  }

  lemma {:induction false} PermutationRank(n: nat, k: nat, v: nat)
    requires k <= n && v < Total(Radix(n, k))
    ensures var t := Permutation(n, k, v); |t| == k && Arrangement(t, n) && Rank(t, n, k) == v
  {
    NoneUsedCount(n, n);
    UnrankValid(v, Radix(n, k));
    DecodeThenEncode(Unrank(v, Radix(n, k)), NoneUsed(n));
    FreshMeans(Permutation(n, k, v), NoneUsed(n));
  }

  /** Counting the counters up decodes to every injective k-tuple once, in order. */
  lemma {:induction false} PermutationsEnumerate(n: nat, k: nat)
    requires k <= n
    ensures Enumerates(Permutations(n, k), k, t => Arrangement(t, n))
  {
    var valid := t => Arrangement(t, n);
    var rank := t => Rank(t, n, k);
    var r, b := Radix(n, k), NoneUsed(n);
    NoneUsedCount(n, n);
    forall i | 0 <= i < Total(r)
      ensures var t := Permutations(n, k)[i]; |t| == k && valid(t) && rank(t) == i
    {
      PermutationRank(n, k, i);
    }
    forall t: Tuple | |t| == k && valid(t) ensures 0 <= rank(t) < Total(r) {
      FreshMeans(t, b);
      EncodeThenDecode(t, b);
      ValueBounds(Encode(t, b), r);
    }
    forall t: Tuple, u: Tuple | |t| == k && |u| == k && valid(t) && valid(u) && Less(t, u)
      ensures rank(t) < rank(u)
    {
      FreshMeans(t, b);
      FreshMeans(u, b);
      EncodeThenDecode(t, b);
      EncodeThenDecode(u, b);
      EncodeKeepsOrder(t, u, b);
      LexIsValueOrder(Encode(t, b), Encode(u, b), r);
    }
    RankedRunEnumerates(Permutations(n, k), k, valid, rank);
  }

  lemma {:induction false} PermutationsWithin(n: nat, k: nat)
    requires k <= n
    ensures forall t | t in Permutations(n, k) :: Within(t, n)
  {
    forall v | 0 <= v < |Permutations(n, k)| ensures Within(Permutations(n, k)[v], n) {
      PermutationRank(n, k, v);
    }
  }

  function Arranged<T>(items: seq<T>, k: nat): (r: seq<seq<T>>)
    requires k <= |items|
    ensures |r| == Total(Radix(|items|, k))
  {
    PermutationsWithin(|items|, k);
    PickAll(items, Permutations(|items|, k))
  }

  // ---- The state machine -------------------------------------------------

  /** perm_index: the position of the unused slot number m. */
  method PermIndex(m: nat, b: array<bool>) returns (j: nat)
    requires m < FreeCount(b[..])
    ensures j < b.Length && !b[j] && FreeBefore(b[..], j) == m
  {
    var i := 0;
    j := 0;
    while i < m
      invariant i <= m && j <= b.Length && FreeBefore(b[..], j) == i
    {
      j := SkipUsed(b, j);
      i, j := i + 1, j + 1;
    }
    j := SkipUsed(b, j);
  }

  method SkipUsed(b: array<bool>, from: nat) returns (j: nat)
    requires from <= b.Length && FreeBefore(b[..], from) < FreeCount(b[..])
    ensures from <= j < b.Length && !b[j] && FreeBefore(b[..], j) == FreeBefore(b[..], from)
  {
    j := from;
    while b[j]
      invariant j < b.Length && from <= j && FreeBefore(b[..], j) == FreeBefore(b[..], from)
      decreases b.Length - j
    {
      j := j + 1;
    }
  }

  lemma {:induction false} CounterCarry(was: seq<int>, c: seq<int>, n: nat, i: nat)
    requires i < |was| == |c| <= n && c[i] == was[i] + 1
    requires forall h | 0 <= h <= i :: 0 <= c[h] < n - h
    requires forall h | 0 <= h < i :: c[h] == was[h]
    requires forall h | i < h < |c| :: c[h] == 0 && was[h] + 1 == n - h
    ensures MixedRadix.Valid(c, Radix(n, |c|))
    ensures Value(c, Radix(n, |c|)) == Value(was, Radix(n, |c|)) + 1 < Total(Radix(n, |c|))
  {
    Carry(was, c, Radix(n, |c|), i);
  }

  lemma {:induction false} Overflow(was: seq<int>, c: seq<int>, n: nat)
    requires 0 < |was| == |c| <= n && c[0] == was[0]
    requires forall h | 0 <= h < |c| :: was[h] + 1 == n - h
    requires forall h | 0 < h < |c| :: c[h] == 0
    ensures Value(was, Radix(n, |c|)) == Total(Radix(n, |c|)) - 1
    ensures c == [n - 1] + Zeros(|c| - 1)
  {
    ValueMax(was, Radix(n, |c|));
  }

  /** The digits after i were at their maximum and are zero; the others are as they were. */
  ghost predicate Carrying(was: seq<int>, c: seq<int>, n: nat, i: nat) {
    && i < |c| == |was| <= n
    && (forall h | 0 <= h <= i :: c[h] == was[h])
    && forall h | i < h < |c| :: c[h] == 0 && was[h] + 1 == n - h
  }

  class State<T> {
    const vec: seq<T>
    const k: nat
    const c: array<int>

    ghost predicate Valid()
      reads c
    {
      && 1 <= k <= |vec| && c.Length == k
      && (forall i | 0 <= i < k - 1 :: 0 <= c[i] < |vec| - i)
      && (if c[k - 1] == -1 then forall i | 0 <= i < k - 1 :: c[i] == 0 else 0 <= c[k - 1] <= |vec| - k)
    }

    /** How many steps the counter is past its start; -1 before the first one. */
    ghost function Position(): int
      requires Valid()
      reads c
    {
      Value(c[..], Radix(|vec|, k))
    }

    ghost predicate Started()
      reads c
    {
      k <= |vec| && MixedRadix.Valid(c[..], Radix(|vec|, k))
    }

    ghost function Last(): int
      requires 1 <= k <= |vec|
    {
      Total(Radix(|vec|, k)) - 1
    }

    constructor (vec: seq<T>, k: nat)
      requires 1 <= k <= |vec|
      ensures Valid() && fresh(c) && this.vec == vec && this.k == k && Position() == -1
    {
      this.vec, this.k := vec, k;
      var counters := new int[k](_ => 0);
      counters[k - 1] := -1;
      c := counters;
      new;
      var zeros := Zeros(k);
      ValueZeros(zeros, Radix(|vec|, k));
      assert zeros[..k - 1] == c[..][..k - 1];
      Increment(c[..], zeros, Radix(|vec|, k), k - 1);
    }

    /** permi_clone's copy: the same items, a private counter. */
    constructor Copy(from: State<T>)
      requires from.Valid()
      ensures Valid() && fresh(c) && vec == from.vec && k == from.k && c[..] == from.c[..]
    {
      vec, k := from.vec, from.k;
      var counters := new int[from.k](i requires 0 <= i < from.k reads from.c => from.c[i]);
      c := counters;
      new;
      assert c[..] == from.c[..];
    }

    /** perm_while_fun: advance the counter by one; on overflow report the end, leaving
        the leading digit at its maximum and the rest at zero. */
    method WhileFun() returns (more: bool)
      requires Valid()
      modifies c
      ensures Valid() && more == (old(Position()) < Last())
      ensures more ==> Started() && Position() == old(Position()) + 1
      ensures !more ==> c[..] == [|vec| - 1] + Zeros(k - 1)
    {
      ghost var was := c[..];
      var i, ci := Rewind();
      if ci >= |vec| - i {
        Overflow(was, c[..], |vec|);
        return false;
      }
      c[i] := ci;
      CounterCarry(was, c[..], |vec|, i);
      more := true;
    }

    /** The loop: zero the digits at their maximum, from the last one up, and find the next
        value of the first digit that is not, or of the leading one. */
    method Rewind() returns (i: nat, ci: int)
      requires Valid()
      modifies c
      ensures Carrying(old(c[..]), c[..], |vec|, i) && i < k
      ensures ci == c[i] + 1 && (ci < |vec| - i || i == 0)
    {
      ghost var was := c[..];
      i := k - 1;
      var j := |vec| - k + 1;
      ci := c[i] + 1;
      while ci >= j && i > 0
        invariant i < k && j == |vec| - i && ci == c[i] + 1
        invariant Carrying(was, c[..], |vec|, i)
        invariant forall h | 0 <= h < i :: c[h] < |vec| - h
        invariant c[i] < |vec| - i
      {
        c[i] := 0;
        i, j := i - 1, j + 1;
        ci := c[i] + 1;
      }
    }

    /** The positions the current counter selects. */
    ghost function Selected(): (t: Tuple)
      requires Valid() && Started()
      reads c
      ensures |t| == k && Within(t, |vec|)
      ensures |c[..]| == k && Decoding(t, c[..], NoneUsed(|vec|), 0)
    {
      DecodingStart(c[..], |vec|);
      Decode(c[..], NoneUsed(|vec|))
    }

    /** perm_gen_fun_common: the items the current counter selects. */
    method GenFun() returns (out: seq<T>)
      requires Valid() && Started()
      ensures out == Pick(vec, Selected())
    {
      var b := new bool[|vec|](_ => false);
      assert b[..] == NoneUsed(|vec|);
      ghost var goal := Selected();
      out := Collect(b, c[..], goal, NoneUsed(|vec|));
    }

    /** The loop: one item for each digit. */
    method Collect(b: array<bool>, ghost digits: seq<int>, ghost goal: Tuple, ghost unused: seq<bool>)
      returns (out: seq<T>)
      requires Valid() && digits == c[..] && b[..] == unused && |unused| == |vec|
      requires Decoding(goal, digits, unused, 0) && |goal| == k && Within(goal, |vec|)
      modifies b
      ensures out == Pick(vec, goal)
    {
      out := [];
      ghost var used := unused;
      var i := 0;
      while i < k
        invariant i <= k && |out| == i && c[..] == digits && b[..] == used && |used| == |vec|
        invariant Decoding(goal, digits, used, i)
        invariant forall h | 0 <= h < i :: out[h] == vec[goal[h]]
      {
        var j := Take(i, b, digits, goal, used);
        out := out + [vec[j]];
        used := used[j := true];
        i := i + 1;
      }
    }

    /** One round of the loop: find the unused slot that digit i names, and mark it. */
    method Take(i: nat, b: array<bool>, ghost digits: seq<int>, ghost goal: Tuple, ghost used: seq<bool>)
      returns (j: nat)
      requires i < c.Length && c[..] == digits && b[..] == used && Decoding(goal, digits, used, i)
      modifies b
      ensures j < |used| && goal[i] == j && b[..] == used[j := true] && Decoding(goal, digits, used[j := true], i + 1)
    {
      DecodingBound(goal, digits, used, i);
      j := PermIndex(c[i], b);
      DecodingStep(goal, digits, used, i, j);
      b[j] := true;
    }
  }

  /** The items selected at counter value v. */
  function ArrangedAt<T>(items: seq<T>, k: nat, v: nat): seq<T>
    requires k <= |items| && v < Total(Radix(|items|, k))
  {
    PermutationRank(|items|, k, v);
    Pick(items, Permutation(|items|, k, v))
  }

  lemma {:induction false} SelectedIsRanked<T>(state: State<T>)
    requires state.Valid() && state.Started()
    ensures 0 <= state.Position() <= state.Last()
    ensures Pick(state.vec, state.Selected()) == ArrangedAt(state.vec, state.k, state.Position())
  {
    var r := Radix(|state.vec|, state.k);
    ValueBounds(state.c[..], r);
    UnrankValid(state.Position(), r);
    ValueInjective(Unrank(state.Position(), r), state.c[..], r);
  }

  /** Lazy generation from perm_init to the first nil. */
  method Run<T>(list: seq<T>, k: nat) returns (out: seq<seq<T>>)
    requires 1 <= k <= |list|
    ensures out == Arranged(list, k)
  {
    var state := new State(list, k);
    out := [];
    ghost var all := Arranged(list, k);
    FallingPositive(|list|, k);
    var more := state.WhileFun();
    while more
      invariant state.Valid() && fresh(state.c) && state.vec == list && state.k == k
      invariant |out| == if more then state.Position() else state.Last() + 1
      invariant more ==> state.Started() && state.Position() <= state.Last()
      invariant |out| <= |all| && forall v | 0 <= v < |out| :: out[v] == all[v]
      decreases |all| - |out|, more
    {
      ArrangedIs(list, k, |out|);
      var item := GenRanked(state);
      out := out + [item];
      more := state.WhileFun();
    }
  }

  method GenRanked<T>(state: State<T>) returns (item: seq<T>)
    requires state.Valid() && state.Started()
    ensures 0 <= state.Position() <= state.Last() && item == ArrangedAt(state.vec, state.k, state.Position())
  {
    item := state.GenFun();
    SelectedIsRanked(state);
  }

  lemma {:induction false} ArrangedIs<T>(items: seq<T>, k: nat, v: nat)
    requires k <= |items| && v < Total(Radix(|items|, k))
    ensures Arranged(items, k)[v] == ArrangedAt(items, k, v)
  {
  }

  lemma {:induction false} ArrangedEmpty<T>(list: seq<T>)
    ensures Arranged(list, 0) == [[]]
  {
    assert Unrank(0, []) == [];
    assert Permutation(|list|, 0, 0) == [];
  }

  /** out goes through the tuples of k distinct positions, each once, in lexicographic order,
      and holds the items at each. */
  ghost predicate ListsArrangements<T>(list: seq<T>, k: nat, out: seq<seq<T>>) {
    exists ts: seq<Tuple> :: Enumerates(ts, k, t => Arrangement(t, |list|)) && Selects(list, ts, out)
  }

  lemma {:induction false} ArrangedLists<T>(list: seq<T>, k: nat)
    requires k <= |list|
    ensures ListsArrangements(list, k, Arranged(list, k))
  {
    var ts := Permutations(|list|, k);
    PermutationsEnumerate(|list|, k);
    PermutationsWithin(|list|, k);
    assert Enumerates(ts, k, t => Arrangement(t, |list|)) && Selects(list, ts, Arranged(list, k));
  }

  /** There are no more distinct positions than there are positions. */
  lemma {:induction false} NoneLists<T>(list: seq<T>, k: nat)
    requires k > |list|
    ensures ListsArrangements(list, k, [])
  {
    var n := |list|;
    forall t: Tuple | |t| == k ensures !Arrangement(t, n) {
      if Arrangement(t, n) {
        FreshMeans(t, NoneUsed(n));
        EncodeThenDecode(t, NoneUsed(n));
        NoneUsedCount(n, n);
        assert false;
      }
    }
    assert Enumerates([], k, t => Arrangement(t, n)) && Selects(list, [], []);
  }

  /** perm_list: every item of the run. */
  method PermList<T>(list: seq<T>, kArg: Option<int>) returns (r: Result<seq<seq<T>>>)
    ensures kArg.Some? && kArg.value < 0 ==> r == Error
    ensures var k := if kArg.Some? then kArg.value else |list|;
            k >= 0 ==> r == Ok(if k <= |list| then Arranged(list, k) else []) && ListsArrangements(list, k, r.value)
  {
    if kArg.Some? && kArg.value < 0 { return Error; }
    if kArg == Some(0) || (kArg.None? && list == []) {
      ArrangedEmpty(list);
      ArrangedLists(list, 0);
      return Ok([[]]);
    }
    var k: nat := if kArg.Some? then kArg.value else |list|;
    if k > |list| {
      NoneLists(list, k);
      return Ok([]);
    }
    ArrangedLists(list, k);
    var out := Run(list, k);
    r := Ok(out);
  }

  // ---- After the end -----------------------------------------------------

  lemma {:induction false} FallingPositive(m: nat, k: nat)
    requires k <= m
    ensures Total(Radix(m, k)) >= 1 && (k > 0 ==> Total(Radix(m, k)) >= m)
  {
    if k > 0 {
      FallingPositive(m - 1, k - 1);
      ScaleLe(1, Total(Radix(m - 1, k - 1)), m);
    }
  }

  /** The place, among all counters, of the one that the first nil leaves: the leading
      digit at its maximum and every other digit at zero. */
  lemma {:induction false} EndValue(n: nat, k: nat)
    requires 1 <= k <= n
    ensures var t := Total(Radix(n - 1, k - 1));
            && t >= 1 && Total(Radix(n, k)) == (n - 1) * t + t && 0 <= (n - 1) * t
            && Value([n - 1] + Zeros(k - 1), Radix(n, k)) == (n - 1) * t
  {
    var c := [n - 1] + Zeros(k - 1);
    var t := Total(Radix(n - 1, k - 1));
    assert c[1..] == Zeros(k - 1) && Radix(n, k)[1..] == Radix(n - 1, k - 1);
    ValueZeros(c[1..], Radix(n - 1, k - 1));
    FallingPositive(n - 1, k - 1);
    ScaleLe(0, n - 1, t);
    Distribute(n - 1, 1, t);
  }

  /** That counter is again the last one exactly when k is 1 or n is 2. */
  lemma {:induction false} EndCounterIsLast(n: nat, k: nat)
    requires 1 <= k <= n
    ensures Value([n - 1] + Zeros(k - 1), Radix(n, k)) == Total(Radix(n, k)) - 1 <==> k == 1 || n == 2
  {
    EndValue(n, k);
    FallingPositive(n - 1, k - 1);
    if n == 2 && k == 2 { assert Radix(1, 1) == [1] && Total([1]) == 1 * Total([]); }
  }

  /** What a run hands out when it is asked again after its nil, and again after every
      later one. */
  function AfterEnd<T>(items: seq<T>, k: nat): (r: seq<seq<T>>)
    requires 1 <= k <= |items|
    ensures |r| == Total(Radix(|items| - 1, k - 1)) - 1
  {
    EndValue(|items|, k);
    Arranged(items, k)[(|items| - 1) * Total(Radix(|items| - 1, k - 1)) + 1..]
  }

  lemma {:induction false} LeadingPosition(n: nat, k: nat, v: nat)
    requires 1 <= k <= n && v < Total(Radix(n, k))
    ensures Total(Radix(n - 1, k - 1)) > 0
    ensures |Permutation(n, k, v)| == k && Permutation(n, k, v)[0] == v / Total(Radix(n - 1, k - 1))
  {
    var c, b := Unrank(v, Radix(n, k)), NoneUsed(n);
    EndValue(n, k);
    NoneUsedCount(n, n);
    UnrankValid(v, Radix(n, k));
    assert Radix(n, k)[1..] == Radix(n - 1, k - 1);
    NoneUsedCount(n, c[0]);
    SlotUnique(b, c[0], Slot(b, c[0], n));
  }

  /** They are the selections that start with the last item, except the first of those;
      none of the others starts with it. */
  lemma {:induction false} AfterEndIs<T>(items: seq<T>, k: nat, v: nat)
    requires 1 <= k <= |items| && v < |Arranged(items, k)|
    ensures var n, all, t := |items|, Arranged(items, k), Total(Radix(|items| - 1, k - 1));
            && 1 <= t <= |all| && AfterEnd(items, k) == all[|all| - t + 1..]
            && (v >= |all| - t <==> Permutation(n, k, v)[0] == n - 1)
    ensures AfterEnd(items, k) == [] <==> k == 1 || |items| == 2
  {
    var n, t := |items|, Total(Radix(|items| - 1, k - 1));
    EndValue(n, k);
    EndCounterIsLast(n, k);
    LeadingPosition(n, k, v);
    QuotientBound(v, n, t);
    Distribute(n - 1, 1, t);
    if v >= (n - 1) * t {
      if v / t < n - 1 { ScaleLe(v / t + 1, n - 1, t); Distribute(v / t, 1, t); assert false; }
    } else {
      QuotientBound(v, n - 1, t);
    }
  }

  lemma {:induction false} PositionStart<T>(state: State<T>)
    requires state.Valid()
    ensures state.Position() >= -1
  {
    var r, c := Radix(|state.vec|, state.k), state.c[..];
    if c[state.k - 1] == -1 {
      var zeros := Zeros(state.k);
      ValueZeros(zeros, r);
      assert zeros[..state.k - 1] == c[..state.k - 1];
      Increment(c, zeros, r, state.k - 1);
    } else {
      ValueBounds(c, r);
    }
  }

  lemma {:induction false} WithinLast<T>(state: State<T>)
    requires state.Valid() && state.c[state.k - 1] != -1
    ensures state.Position() <= state.Last()
  {
    ValueBounds(state.c[..], Radix(|state.vec|, state.k));
  }

  /** Asking again after the first nil: the run stays ended only for k = 1 or n = 2;
      otherwise it starts over in the middle. */
  method AskAfterEnd<T>(state: State<T>) returns (more: bool)
    requires state.Valid() && state.Position() == state.Last()
    modifies state.c
    ensures more <==> state.k > 1 && |state.vec| > 2
  {
    more := state.WhileFun();
    ghost var last := state.Last();
    assert (state.Position() == last) == (state.k == 1 || |state.vec| == 2) by {
      EndCounterIsLast(|state.vec|, state.k);
    }
    assert state.Position() <= last by { WithinLast(state); }
    more := state.WhileFun();
  }
}
